/** Base16 as the N2xx driver puts user data into AT commands (section 8 of RFC 4648). */
module HexCodec {
  import opened Bytes

  const NUL: byte := 0
  const NOT_HEX: byte := 0xFF

  // ---------------------------------------------------------------- specification

  /** The value of a hex digit in either case. */
  function HexChar(c: byte): (v: byte)
    ensures v < 16 || v == NOT_HEX
  {
    if 48 <= c <= 57 then c - 48
    else if 65 <= c <= 70 then c - 65 + 10
    else if 97 <= c <= 102 then c - 97 + 10
    else NOT_HEX
  }

  function Digit(n: nat): (c: byte)
    requires n < 16
    ensures HexChar(c) == n && c != NUL
  {
    if n < 10 then 48 + n else 65 + n - 10
  }

  /** The sixteen digits are those of the standard's alphabet, and letters are understood in either case. */
  lemma Alphabet(n: nat)
    requires n < 16
    ensures Digit(n) as char == "0123456789ABCDEF"[n]
    ensures HexChar("0123456789ABCDEF"[n] as int) == HexChar("0123456789abcdef"[n] as int) == n
  {
  }

  /** And nothing else is a digit. */
  lemma NoOtherDigits(c: byte)
    ensures HexChar(c) == NOT_HEX <==> c as char !in "0123456789ABCDEFabcdef"
  {
    var both := "0123456789ABCDEFabcdef";
    if 48 <= c <= 57 {
      assert both[c - 48] == c as char;
    } else if 65 <= c <= 70 {
      assert both[c - 65 + 10] == c as char;
    } else if 97 <= c <= 102 {
      assert both[c - 97 + 16] == c as char;
    }
  }

  function HexOf(data: seq<byte>): (t: seq<byte>)
    ensures |t| == 2 * |data|
  {
    if data == [] then []
    else
      var b := data[|data| - 1];
      HexOf(data[..|data| - 1]) + [Digit(b / 16), Digit(b % 16)]
  }

  predicate AllHex(t: seq<byte>)
  {
    forall i :: 0 <= i < |t| ==> HexChar(t[i]) != NOT_HEX
  }

  function Decoded(t: seq<byte>): (data: seq<byte>)
    requires AllHex(t) && |t| % 2 == 0
    ensures |data| == |t| / 2
  {
    if t == [] then []
    else
      var n := |t| - 2;
      Decoded(t[..n]) + [16 * HexChar(t[n]) + HexChar(t[n + 1])]
  }

  /** The characters of a C string up to its terminator. */
  function Text(s: seq<byte>): (t: seq<byte>)
    requires NUL in s
    ensures t < s && s[|t|] == NUL && NUL !in t
  {
    if s[0] == NUL then [] else [s[0]] + Text(s[1..])
  }

  /** The text holds the two digits of each byte in turn, the high one first. */
  lemma {:induction false} HexOfAt(data: seq<byte>, i: nat)
    requires i < |data|
    ensures HexOf(data)[2 * i] == Digit(data[i] / 16) && HexOf(data)[2 * i + 1] == Digit(data[i] % 16)
    decreases |data|
  {
    if i < |data| - 1 {
      HexOfAt(data[..|data| - 1], i);
    }
  }

  lemma {:induction false} DecodedAt(t: seq<byte>, i: nat)
    requires AllHex(t) && |t| % 2 == 0 && i < |t| / 2
    ensures Decoded(t)[i] == 16 * HexChar(t[2 * i]) + HexChar(t[2 * i + 1])
    decreases |t|
  {
    var n := |t| - 2;
    if 2 * i < n {
      DecodedAt(t[..n], i);
    }
  }

  lemma {:induction false} DecodedAppend(t: seq<byte>, u: seq<byte>)
    requires |u| == |t| + 2 && u[..|t|] == t && |t| % 2 == 0
    requires AllHex(t) && HexChar(u[|t|]) != NOT_HEX && HexChar(u[|t| + 1]) != NOT_HEX
    ensures AllHex(u) && Decoded(u) == Decoded(t) + [16 * HexChar(u[|t|]) + HexChar(u[|t| + 1])]
  {
    forall i | 0 <= i < |t| ensures HexChar(u[i]) != NOT_HEX {
      assert u[i] == t[i];
    }
  }

  lemma DigitsOf(b: byte)
    ensures 16 * HexChar(Digit(b / 16)) + HexChar(Digit(b % 16)) == b
  {
  }

  /** Decoding inverts encoding. */
  lemma {:induction false} RoundTrip(data: seq<byte>)
    ensures AllHex(HexOf(data)) && NUL !in HexOf(data)
    ensures Decoded(HexOf(data)) == data
  {
    if data != [] {
      var n, b := |data| - 1, data[|data| - 1];
      var d, t := HexOf(data[..n]), HexOf(data);
      RoundTrip(data[..n]);
      assert t == d + [Digit(b / 16), Digit(b % 16)] && t[..|d|] == d;
      DigitsOf(b);
      DecodedAppend(d, t);
      assert data == data[..n] + [b];
    }
  }

  function Lower(c: byte): (l: byte)
    ensures HexChar(l) == HexChar(c)
  {
    if 65 <= c <= 70 then c + 32 else c
  }

  /** Digits of either case, in any mixture, decode alike. */
  lemma {:induction false} CaseDoesNotMatter(t: seq<byte>, u: seq<byte>)
    requires |t| == |u| && forall i :: 0 <= i < |t| ==> Lower(t[i]) == Lower(u[i])
    requires AllHex(t) && |t| % 2 == 0
    ensures AllHex(u) && Decoded(u) == Decoded(t)
  {
    assert forall i :: 0 <= i < |t| ==> HexChar(u[i]) == HexChar(Lower(u[i])) == HexChar(Lower(t[i])) == HexChar(t[i]);
    if t != [] {
      var n := |t| - 2;
      CaseDoesNotMatter(t[..n], u[..n]);
    }
  }

  // ---------------------------------------------------------------- the two loops

  method BinToHex(buff: array<byte>, length: nat, output: array<byte>)
    requires length <= buff.Length && 2 * length < output.Length && buff != output
    modifies output
    ensures output[..2 * length] == HexOf(buff[..length])
    ensures output[2 * length] == NUL
    ensures output[2 * length + 1..] == old(output[2 * length + 1..])
  {
    output[0] := NUL;
    var n := 0;
    while n < length
      invariant 0 <= n <= length
      invariant output[..2 * n] == HexOf(buff[..n])
      invariant forall i :: 2 * length < i < output.Length ==> output[i] == old(output[i])
    {
      var b := buff[n];
      assert buff[..n + 1][..n] == buff[..n];
      output[2 * n] := Digit(b / 16);
      output[2 * n + 1] := Digit(b % 16);
      n := n + 1;
      assert output[..2 * n] == output[..2 * n - 2] + [Digit(b / 16), Digit(b % 16)];
    }
    output[2 * n] := NUL;
  }

  /** What `HexToBin` accepts. */
  predicate Decodable(t: seq<byte>, length: int)
  {
    length > 0 && AllHex(t) && |t| % 2 == 0 && |t| <= 2 * length
  }

  // Reads two digits, neither beyond the terminator; the second is looked at only when the first is one.
  method ReadPair(s: array<byte>, k: nat, ghost terminator: nat) returns (ok: bool, bin: byte)
    requires k < terminator < s.Length
    ensures ok <==> HexChar(s[k]) != NOT_HEX && HexChar(s[k + 1]) != NOT_HEX
    ensures ok ==> bin == 16 * HexChar(s[k]) + HexChar(s[k + 1])
  {
    ok, bin := false, 0;
    var msn := HexChar(s[k]);
    if msn != NOT_HEX {
      var lsn := HexChar(s[k + 1]);
      if lsn != NOT_HEX {
        ok, bin := true, 16 * msn + lsn;
      }
    }
  }

  /** A pair with a bad digit: the text holds a non-digit or an odd number of digits. */
  lemma BadPair(t: seq<byte>, s: seq<byte>, k: nat)
    requires t < s && s[|t|] == NUL && k < |t| && k % 2 == 0
    requires HexChar(s[k]) == NOT_HEX || HexChar(s[k + 1]) == NOT_HEX
    ensures !(AllHex(t) && |t| % 2 == 0)
  {
  }

  lemma GoodPair(t: seq<byte>, s: seq<byte>, k: nat)
    requires t < s && s[|t|] == NUL && k < |t| && k % 2 == 0
    requires HexChar(s[k]) != NOT_HEX && HexChar(s[k + 1]) != NOT_HEX && AllHex(t[..k])
    ensures k + 2 <= |t| && AllHex(t[..k + 2])
    ensures Decoded(t[..k + 2]) == Decoded(t[..k]) + [16 * HexChar(s[k]) + HexChar(s[k + 1])]
  {
    assert t[k] == s[k] && t[k + 1] == s[k + 1];
    assert forall i :: 0 <= i < k ==> t[i] == t[..k][i];
    assert t[..k + 2][..k] == t[..k];
  }

  // The decoding loop, on a terminated text `t`.
  method DecodeInto(s: array<byte>, buff: array<byte>, length: nat, ghost t: seq<byte>) returns (result: int)
    requires t < s[..] && s[|t|] == NUL && NUL !in t
    requires 0 < length <= buff.Length && buff != s
    modifies buff
    ensures result == -1 <==> !Decodable(t, length)
    ensures result != -1 ==> result == |t| / 2 && buff[..result] == Decoded(t)
    ensures forall i :: (if result != -1 then result else length) <= i < buff.Length ==> buff[i] == old(buff[i])
  {
    ghost var text := s[..];
    result := 0;
    while s[2 * result] != NUL
      invariant 0 <= 2 * result <= |t| && result <= length
      invariant AllHex(t[..2 * result])
      invariant buff[..result] == Decoded(t[..2 * result])
      invariant forall i :: result <= i < buff.Length ==> buff[i] == old(buff[i])
      invariant s[..] == text
      decreases |t| - 2 * result
    {
      var ok, bin := ReadPair(s, 2 * result, |t|);
      if !ok {
        BadPair(t, text, 2 * result);
        return -1;
      }
      if length - result <= 0 {
        return -1;
      }
      GoodPair(t, text, 2 * result);
      buff[result] := bin;
      result := result + 1;
    }
    assert t[..2 * result] == t;
  }

  method HexToBin(s: array?<byte>, buff: array?<byte>, length: int) returns (result: int)
    requires s != null ==> NUL in s[..]
    requires buff != null ==> length <= buff.Length && buff != s
    modifies buff
    ensures result == -1 <==>
      || s == null || buff == null || length <= 0
      || !AllHex(Text(s[..])) || |Text(s[..])| % 2 == 1 || |Text(s[..])| > 2 * length
    ensures result != -1 ==> result == |Text(s[..])| / 2 && buff[..result] == Decoded(Text(s[..]))
    ensures buff != null ==>
      forall i :: (if result != -1 then result else Max(length, 0)) <= i < buff.Length ==> buff[i] == old(buff[i])
  {
    if s == null || buff == null || length <= 0 {
      return -1;
    }
    result := DecodeInto(s, buff, length, Text(s[..]));
    assert s[..] == old(s[..]);
  }

  /** Text without a terminator in it, followed by one, is the text of the string. */
  lemma {:induction false} TextIs(s: seq<byte>, t: seq<byte>)
    requires t < s && s[|t|] == NUL && NUL !in t
    ensures NUL in s && Text(s) == t
  {
    if t != [] {
      assert s[0] == t[0];
      TextIs(s[1..], t[1..]);
    }
  }

  // What one loop writes the other reads back.
  method ThereAndBack(buff: array<byte>, length: nat, text: array<byte>, back: array<byte>) returns (result: int)
    requires 0 < length <= buff.Length && 2 * length < text.Length && length <= back.Length
    requires buff != text && text != back && buff != back
    modifies text, back
    ensures result == length && back[..length] == buff[..length]
  {
    BinToHex(buff, length, text);
    RoundTrip(buff[..length]);
    ghost var t := HexOf(buff[..length]);
    assert t < text[..];
    TextIs(text[..], t);
    result := HexToBin(text, back, length);
  }
}
