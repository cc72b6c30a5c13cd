/** Bytes, byte buffers and the status codes of `status.h`. */
module Bytes {
  type byte = x: int | 0 <= x < 256

  const SUCCESS := 0
  const ENMEM := 1
  const EIARG := 3
  const ENFOUND := 4
  const EFSYSTEM := 7
  const EHARDWARE := 9
  const EFORMAT := 11
  const EDISKSPACE := 12
  const ELONG := 13

  /** `s` with `d` written over it from index `at`. */
  function Splice(s: seq<byte>, at: nat, d: seq<byte>): (r: seq<byte>)
    requires at + |d| <= |s|
    ensures |r| == |s|
    ensures forall i {:trigger r[i]} :: 0 <= i < |s| ==> r[i] == if at <= i < at + |d| then d[i - at] else s[i]
  {
    s[..at] + d + s[at + |d|..]
  }

  /** A slice of a slice. */
  lemma SliceOfSlice(s: seq<byte>, at: nat, lo: nat, n: nat, window: seq<byte>)
    requires lo + n <= |window| && at + |window| <= |s|
    requires window == s[at..at + |window|]
    ensures window[lo..lo + n] == s[at + lo..at + lo + n]
  {
    assert forall i :: lo <= i < lo + n ==> window[i] == s[at + i];
  }

  /** The product `n * size`, as `n` steps of `size`. */
  function Times(n: nat, size: nat): nat {
    if n == 0 then 0 else Times(n - 1, size) + size
  }

  lemma {:induction false} TimesIsProduct(n: nat, size: nat)
    ensures Times(n, size) == n * size
  {
    if n > 0 {
      TimesIsProduct(n - 1, size);
      assert n * size == (n - 1) * size + size;
    }
  }

  /** Division: the last multiple of `size` that is not behind `n`. */
  function Quotient(n: nat, size: nat): (q: nat)
    requires size > 0
    ensures Times(q, size) <= n < Times(q, size) + size
  {
    var q := n / size;
    TimesIsProduct(q, size);
    q
  }

  lemma {:induction false} TimesApart(m: nat, n: nat, size: nat)
    requires m < n
    ensures Times(m, size) + size <= Times(n, size)
    decreases n
  {
    if m < n - 1 { TimesApart(m, n - 1, size); }
  }

  lemma {:induction false} TimesSum(m: nat, n: nat, size: nat)
    ensures Times(m + n, size) == Times(m, size) + Times(n, size)
    decreases n
  {
    if n > 0 { TimesSum(m, n - 1, size); }
  }

  lemma {:induction false} TimesDouble(n: nat, size: nat)
    ensures Times(2 * n, size) == Times(n, 2 * size)
  {
    if n > 0 { TimesDouble(n - 1, size); }
  }

  /** `memcpy(dst + at, src, |src|)`. */
  method Memcpy(dst: array<byte>, at: nat, src: seq<byte>)
    requires at + |src| <= dst.Length
    modifies dst
    ensures dst[..] == Splice(old(dst[..]), at, src)
  {
    for i := 0 to |src|
      invariant forall j :: 0 <= j < dst.Length ==> dst[j] == if at <= j < at + i then src[j - at] else old(dst[j])
    {
      dst[at + i] := src[i];
    }
  }
}
