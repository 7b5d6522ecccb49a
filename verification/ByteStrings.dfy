/** Bytes, and Python's slicing of byte strings. */
module ByteStrings {

  newtype Byte = b: int | 0 <= b < 256

  /** Where a slice bound lands in a sequence of length n; negative bounds count from the end. */
  function Bound(i: int, n: nat): (r: nat)
    ensures r <= n
  {
    if i < 0 then (if n + i < 0 then 0 else n + i) else if i > n then n else i
  }

  /** `data[a:b]`. */
  function Slice(data: seq<Byte>, a: int, b: int): seq<Byte> {
    var lo, hi := Bound(a, |data|), Bound(b, |data|);
    if lo < hi then data[lo..hi] else []
  }

  /** With bounds that are not negative: the part between them that exists. */
  lemma SliceForward(data: seq<Byte>, a: nat, b: nat)
    ensures a <= b <= |data| ==> Slice(data, a, b) == data[a..b]
    ensures a <= |data| < b ==> Slice(data, a, b) == data[a..]
    ensures a > |data| || b < a ==> Slice(data, a, b) == []
  {
  }

  /** A negative bound counts from the end, and stops at the start. */
  lemma SliceFromEnd(data: seq<Byte>, a: int, k: int)
    requires k > 0
    ensures Slice(data, a, -k) == Slice(data, a, if k <= |data| then |data| - k else 0)
    ensures Slice(data, -k, a) == Slice(data, if k <= |data| then |data| - k else 0, a)
  {
  }

  function Zeros(n: nat): (r: seq<Byte>)
    ensures |r| == n && forall i :: 0 <= i < n ==> r[i] == 0
  {
    seq(n, _ => 0)
  }
}
