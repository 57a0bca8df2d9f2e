/** Reading up to an end character from the AT interface into a buffer. */
module LineReader {
  import opened Bytes

  const CR: byte := 0x0d
  const LF: byte := 0x0a

  /** What the serial side will deliver, one `getc` at a time; a negative value is a timeout. */
  class CharSource {
    var pending: seq<int>

    ghost predicate Valid()
      reads this
    {
      forall i :: 0 <= i < |pending| ==> pending[i] < 256
    }

    constructor (input: seq<int>)
      requires forall i :: 0 <= i < |input| ==> input[i] < 256
      ensures Valid() && pending == input
    {
      pending := input;
    }

    method Getc() returns (x: int)
      requires Valid()
      modifies this
      ensures Valid() && x < 256
      ensures if old(pending) == [] then x == -1 && pending == []
              else x == old(pending)[0] && pending == old(pending)[1..]
    {
      if pending == [] {
        x := -1;
      } else {
        x := pending[0];
        pending := pending[1..];
      }
    }
  }

  predicate Ends(x: int, end: byte)
  {
    x < 0 || x == end
  }

  /** The characters before the first end character or timeout, at most `n` of them. */
  function Before(s: seq<int>, end: byte, n: nat): (t: seq<int>)
    ensures t <= s && |t| <= n
    ensures forall i :: 0 <= i < |t| ==> !Ends(t[i], end)
    ensures |t| < n ==> t == s || Ends(s[|t|], end)
  {
    if s == [] || n == 0 || Ends(s[0], end) then [] else [s[0]] + Before(s[1..], end, n - 1)
  }

  /** The line handed to the caller: a full buffer loses its last character to the terminator,
      and a carriage return before a newline goes too. */
  function Line(s: seq<int>, end: byte, size: nat): (t: seq<int>)
    requires size > 0
    ensures |t| < size
  {
    var t := Before(s, end, size - 1);
    if |t| > 0 && end == LF && t[|t| - 1] == CR then t[..|t| - 1] else t
  }

  lemma BeforeIs(s: seq<int>, end: byte, m: nat, n: nat)
    requires n <= m && n <= |s| && forall i :: 0 <= i < n ==> !Ends(s[i], end)
    requires n == m || n == |s| || Ends(s[n], end)
    ensures Before(s, end, m) == s[..n]
  {
  }

  /** Whenever the end character lies within the first `size` characters, with no timeout
      before it, the line is exactly the text before it. */
  lemma LineIsTextBeforeEnd(s: seq<int>, end: byte, size: nat, k: nat)
    requires k < size && k < |s| && s[k] == end
    requires forall i :: 0 <= i < k ==> !Ends(s[i], end)
    ensures Line(s, end, size) == if k > 0 && end == LF && s[k - 1] == CR then s[..k - 1] else s[..k]
  {
  }

  /** What is left after `n` characters were asked for. */
  function After(s: seq<int>, n: nat): seq<int>
  {
    if n <= |s| then s[n..] else []
  }

  /** One character beyond the text is consumed: the end, the timeout, or the one that is overwritten. */
  function Rest(s: seq<int>, end: byte, size: nat): seq<int>
    requires size > 0
  {
    After(s, |Before(s, end, size - 1)| + 1)
  }

  lemma {:induction false} LineOf(s: seq<int>, end: byte, size: nat, n: nat)
    requires 0 < size && n <= |s| && n < size && Before(s, end, size - 1) == s[..n]
    ensures Line(s, end, size) == if n > 0 && end == 0x0a && s[n - 1] == 0x0d then s[..n - 1] else s[..n]
    ensures Rest(s, end, size) == After(s, n + 1)
  {
    assert n > 0 ==> s[..n][n - 1] == s[n - 1] && s[..n][..n - 1] == s[..n - 1];
  }

  /** With `k` characters before the first end or timeout, at most `size`: the line is those characters, short
      of one to make room for the terminator in a full buffer, and of a CR before a newline; and they are
      consumed, with what ended them if they did not fill the buffer. */
  lemma {:induction false} LineAndRest(s: seq<int>, end: byte, size: nat, k: nat)
    requires 0 < size && k <= size && k <= |s| && forall i :: 0 <= i < k ==> !Ends(s[i], end)
    requires k == size || k == |s| || s[k] < 0 || s[k] == end
    ensures var n := Min(k, size - 1);
      Line(s, end, size) == if n > 0 && end == 0x0a && s[n - 1] == 0x0d then s[..n - 1] else s[..n]
    ensures Rest(s, end, size) == if k < size && k < |s| then s[k + 1..] else s[k..]
  {
    var n := Min(k, size - 1);
    BeforeIs(s, end, size - 1, n);
    LineOf(s, end, size, n);
  }

  /** `count` characters of `s` have been asked for, the last being `x`, and none before it ends the line. */
  predicate Scanned(s: seq<int>, b: seq<byte>, count: nat, x: int, end: byte)
    requires count <= |b|
  {
    if count == 0 then x == 0
    else
      var n := count - 1;
      && n <= |s| && x == (if n < |s| then s[n] else -1) && (x >= 0 ==> b[n] == x)
      && (forall i :: 0 <= i < n ==> !Ends(s[i], end) && b[i] == s[i])
  }

  // One turn of the character loop.
  method ReadOne(at: CharSource, buf: array<byte>, count: nat, ghost s: seq<int>, ghost last: int, end: byte)
    returns (x: int)
    requires at.Valid() && count < buf.Length && at.pending == After(s, count)
    requires Scanned(s, buf[..], count, last, end) && (count > 0 ==> !Ends(last, end))
    modifies at, buf
    ensures at.Valid() && at.pending == After(s, count + 1) && Scanned(s, buf[..], count + 1, x, end)
    ensures forall i :: 0 <= i < buf.Length && i != count ==> buf[i] == old(buf[i])
  {
    x := at.Getc();
    buf[count] := x % 256;
  }

  /** When the character loop stops, it has stored the text and consumed one character more. */
  lemma {:induction false} Stopped(s: seq<int>, b: seq<byte>, count: nat, x: int, end: byte, size: nat)
    requires 0 < count <= size && count <= |b| && Scanned(s, b, count, x, end) && (count == size || Ends(x, end))
    ensures count - 1 <= |s| && |Before(s, end, size - 1)| == count - 1
    ensures forall i :: 0 <= i < count - 1 ==> b[i] == s[i]
    ensures After(s, count) == Rest(s, end, size)
  {
    BeforeIs(s, end, size - 1, count - 1);
  }

  // The character loop; the character it stopped at is replaced by the terminator.
  method ReadChars(at: CharSource, buf: array<byte>, size: nat, end: byte) returns (count: nat)
    requires at.Valid() && 0 < size <= buf.Length && end != 0
    modifies at, buf
    ensures at.Valid() && at.pending == Rest(old(at.pending), end, size)
    ensures count == |Before(old(at.pending), end, size - 1)| && buf[count] == 0
    ensures forall i :: 0 <= i < count ==> buf[i] == old(at.pending)[i]
    ensures forall i :: size <= i < buf.Length ==> buf[i] == old(buf[i])
  {
    ghost var s := at.pending;
    var x := 0;
    count := 0;
    while count < size && x >= 0 && x != end
      invariant 0 <= count <= size && at.Valid() && at.pending == After(s, count)
      invariant Scanned(s, buf[..], count, x, end)
      invariant forall i :: size <= i < buf.Length ==> buf[i] == old(buf[i])
    {
      x := ReadOne(at, buf, count, s, x, end);
      count := count + 1;
    }
    Stopped(s, buf[..], count, x, end, size);
    count := count - 1;
    buf[count] := 0;
  }

  method ReadAtToChar(at: CharSource, buf: array<byte>, size: int, end: byte) returns (count: int)
    requires at.Valid() && size <= buf.Length && end != 0
    modifies at, buf
    ensures at.Valid()
    ensures size <= 0 ==> count == 0 && buf[..] == old(buf[..]) && at.pending == old(at.pending)
    ensures size > 0 ==>
      && at.pending == Rest(old(at.pending), end, size)
      && count == |Line(old(at.pending), end, size)| && buf[count] == 0
      && (forall i :: 0 <= i < count ==> buf[i] == Line(old(at.pending), end, size)[i])
      && (forall i :: size <= i < buf.Length ==> buf[i] == old(buf[i]))
  {
    count := 0;
    if size > 0 {
      count := ReadChars(at, buf, size, end);
      if count > 0 && end == LF && buf[count - 1] == CR {
        count := count - 1;
        buf[count] := 0;
      }
    }
  }
}
