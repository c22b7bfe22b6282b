/** Byte strings and the index arithmetic of Node's `Buffer#slice`. */
module Bytes {

  type byte = x: int | 0 <= x < 256

  type Bytes = seq<byte>

  /** Normalises a `slice` bound the way Node does: a negative index counts
      from the end, and the result is clamped to `[0, n]`. */
  function Clamp(i: int, n: nat): (r: nat)
    ensures r <= n
    ensures 0 <= i <= n ==> r == i
    ensures i < 0 && -i <= n ==> r == n + i
    ensures i > n ==> r == n
    ensures i + n < 0 ==> r == 0
  {
    if i < 0 then (if n + i < 0 then 0 else n + i)
    else if i > n then n
    else i
  }

  /** `b.slice(start, end)`: the bytes between the normalised bounds, or
      nothing when the end falls before the start. */
  function Slice(b: Bytes, start: int, end: int): (r: Bytes)
    ensures |r| <= |b|
    ensures Clamp(start, |b|) <= Clamp(end, |b|) ==> |r| == Clamp(end, |b|) - Clamp(start, |b|)
    ensures Clamp(end, |b|) < Clamp(start, |b|) ==> r == []
    ensures forall k :: 0 <= k < |r| ==> r[k] == b[Clamp(start, |b|) + k]
  {
    var s := Clamp(start, |b|);
    var e := Clamp(end, |b|);
    if e <= s then [] else b[s..e]
  }
}
