/** The array and number helpers of src/utils.ts: `pad` and `pow2round`. */
module Utils {

  /** `pad(array, length, value)`: the first `length` elements of `a` when it is
      longer, otherwise `a` followed by copies of `value` up to `length`. */
  function Pad<T>(a: seq<T>, length: nat, value: T): (r: seq<T>)
    ensures |r| == length
    ensures forall i :: 0 <= i < |a| && i < length ==> r[i] == a[i]
    ensures forall i :: |a| <= i < length ==> r[i] == value
  {
    if |a| > length then a[..length] else a + seq(length - |a|, _ => value)
  }

  /** The three properties of Pad's contract determine its result. */
  lemma {:induction false} PadUnique<T>(a: seq<T>, length: nat, value: T, r: seq<T>)
    requires |r| == length
    requires forall i :: 0 <= i < |a| && i < length ==> r[i] == a[i]
    requires forall i :: |a| <= i < length ==> r[i] == value
    ensures r == Pad(a, length, value)
  {
    var p := Pad(a, length, value);
    forall i | 0 <= i < length
      ensures r[i] == p[i]
    {
      if i < |a| {
        assert r[i] == a[i] == p[i];
      } else {
        assert r[i] == value == p[i];
      }
    }
  }

  /** Padding to the current length changes nothing. */
  lemma PadToOwnLength<T>(a: seq<T>, value: T)
    ensures Pad(a, |a|, value) == a
  {
    PadUnique(a, |a|, value, a);
  }

  /** Padding twice to the same length is padding once. */
  lemma PadIdempotent<T>(a: seq<T>, length: nat, value: T)
    ensures Pad(Pad(a, length, value), length, value) == Pad(a, length, value)
  {
    var p := Pad(a, length, value);
    PadToOwnLength(p, value);
  }

  /** 2 to the power k. */
  function Pow2(k: nat): nat
  {
    if k == 0 then 1 else 2 * Pow2(k - 1)
  }

  /** m is one of 1, 2, 4, 8, ... */
  predicate IsPowerOfTwo(m: nat)
    decreases m
  {
    m == 1 || (m >= 2 && m % 2 == 0 && IsPowerOfTwo(m / 2))
  }

  lemma {:induction false} Pow2IsPowerOfTwo(k: nat)
    ensures Pow2(k) >= 1 && IsPowerOfTwo(Pow2(k))
  {
    if k > 0 {
      Pow2IsPowerOfTwo(k - 1);
      assert Pow2(k) / 2 == Pow2(k - 1);
    }
  }

  /** Two distinct powers of two are at least a factor two apart. */
  lemma {:induction false} PowersOfTwoApart(p: nat, q: nat)
    requires IsPowerOfTwo(p) && IsPowerOfTwo(q) && q < p
    ensures 2 * q <= p
    decreases p
  {
    if q >= 2 {
      PowersOfTwoApart(p / 2, q / 2);
    }
  }

  /** The exact integer ceil(log2 n): the least k with n <= 2^k. */
  function CeilLog2(n: nat): (k: nat)
    requires n >= 1
    ensures n <= Pow2(k)
    ensures k > 0 ==> Pow2(k - 1) < n
    decreases n
  {
    if n == 1 then 0 else 1 + CeilLog2((n + 1) / 2)
  }

  /** `pow2round(n) = 2 ** Math.ceil(Math.log2(n))`. For n = 0, log2 gives -Infinity and
      the power gives 0; otherwise the result is a power of two in [n, 2n). */
  function Pow2Round(n: nat): (r: nat)
    ensures n == 0 ==> r == 0
    ensures n >= 1 ==> IsPowerOfTwo(r) && n <= r < 2 * n
  {
    if n == 0 then 0
    else
      var k := CeilLog2(n);
      Pow2IsPowerOfTwo(k);
      Pow2(k)
  }

  /** Pow2Round(n) is the LEAST power of two that is at least n. */
  lemma Pow2RoundIsLeast(n: nat, m: nat)
    requires n >= 1 && IsPowerOfTwo(m) && n <= m
    ensures Pow2Round(n) <= m
  {
    var r := Pow2Round(n);
    if m < r {
      PowersOfTwoApart(r, m);
    }
  }

  /** A power of two is its own rounding: the result is "at least n", not "greater than n". */
  lemma Pow2RoundOfPowerOfTwo(n: nat)
    requires IsPowerOfTwo(n)
    ensures Pow2Round(n) == n
  {
    Pow2RoundIsLeast(n, n);
  }

  /** Rounding twice is rounding once. */
  lemma Pow2RoundIdempotent(n: nat)
    ensures Pow2Round(Pow2Round(n)) == Pow2Round(n)
  {
    if n >= 1 {
      Pow2RoundOfPowerOfTwo(Pow2Round(n));
    }
  }
}
