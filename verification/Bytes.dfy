/** Machine-level values shared by every module: bytes, 16-bit words and C integer operators. */
module Bytes {

  /** An 8-bit value; the firmware is built with unsigned `char`. */
  type byte = b: int | 0 <= b < 256

  type word = w: int | 0 <= w < 0x1_0000

  type uint32 = n: int | 0 <= n < 0x1_0000_0000

  datatype Option<+T> = None | Some(value: T)

  function Min(a: int, b: int): (m: int)
    ensures m <= a && m <= b && (m == a || m == b)
  {
    if a <= b then a else b
  }

  function Max(a: int, b: int): (m: int)
    ensures m >= a && m >= b && (m == a || m == b)
  {
    if a >= b then a else b
  }

  /** `v & mask` is non-zero, for a mask with one bit. */
  predicate BitSet(v: nat, mask: nat)
    requires mask > 0
  {
    v / mask % 2 == 1
  }

  /** C division, which truncates toward zero. */
  function CDiv(a: int, b: int): int
    requires b > 0
  {
    if a >= 0 then a / b else -(-a / b)
  }

  /** `a -= n` on a 32-bit unsigned counter: exact as long as it does not wrap. */
  function Sub32(a: uint32, n: nat): (r: uint32)
    ensures r == a - n <==> n <= a
  {
    (a - n) % 0x1_0000_0000
  }

  function Joined<T>(parts: seq<seq<T>>): seq<T>
  {
    if parts == [] then [] else parts[0] + Joined(parts[1..])
  }

  lemma {:induction false} JoinedAppend<T>(parts: seq<seq<T>>, last: seq<T>)
    ensures Joined(parts + [last]) == Joined(parts) + last
  {
    if parts == [] {
      assert Joined([last]) == last + Joined([last][1..]);
    } else {
      JoinedAppend(parts[1..], last);
      assert (parts + [last])[1..] == parts[1..] + [last];
    }
  }

  lemma SliceOfSlice<T>(s: seq<T>, a: nat, n: nat, o: nat, k: nat)
    requires a + n <= |s| && o + k <= n
    ensures s[a..a + n][o..o + k] == s[a + o..a + o + k]
  {
    var inner, direct := s[a..a + n][o..o + k], s[a + o..a + o + k];
    assert forall i :: 0 <= i < k ==> inner[i] == s[a..a + n][o + i] == s[a + (o + i)] == direct[i];
  }

  /** `s` with `d` laid over it from index `o` on. */
  function Splice<T>(s: seq<T>, o: nat, d: seq<T>): (r: seq<T>)
    requires o + |d| <= |s|
    ensures |r| == |s|
    ensures forall i :: 0 <= i < |s| ==> r[i] == if o <= i < o + |d| then d[i - o] else s[i]
  {
    s[..o] + d + s[o + |d|..]
  }
}
