/** The list rotation used to pair each vertex with its successor. */
module Rotation {

  /** `Rotate(a, n)` moves the first `n mod |a|` elements to the back; the empty
      sequence is returned as it is. The divisor `|a|` is positive in the
      non-empty case, where Dafny's `%` agrees with Python's floor remainder also
      for negative `n`. */
  function Rotate<T>(a: seq<T>, n: int): (r: seq<T>)
    ensures |r| == |a|
    ensures |a| == 0 ==> r == a
  {
    if |a| == 0 then a else a[n % |a|..] + a[..n % |a|]
  }

  /** Element `i` of the rotation is element `(i + n) mod |a|` of the input. */
  lemma RotateIndex<T>(a: seq<T>, n: int)
    ensures forall i :: 0 <= i < |a| ==> Rotate(a, n)[i] == a[(i + n) % |a|]
  {
    var len := |a|;
    if len > 0 {
      var m := n % len;
      var q := n / len;
      forall i | 0 <= i < len
        ensures Rotate(a, n)[i] == a[(i + n) % len]
      {
        if i < len - m {
          ModUnique(i + n, q, i + m, len);
        } else {
          assert i + n == (q + 1) * len + (i + m - len);
          ModUnique(i + n, q + 1, i + m - len, len);
        }
      }
    }
  }

  lemma MulAtLeast(d: int, len: int)
    requires len > 0 && d >= 1
    ensures d * len >= len
  {
    assert d * len == (d - 1) * len + len;
  }

  /** Division with remainder is unique: a quotient and an in-range remainder that
      rebuild `a` are Dafny's `/` and `%`. */
  lemma ModUnique(a: int, q: int, r: int, len: int)
    requires len > 0 && 0 <= r < len && a == q * len + r
    ensures a % len == r && a / len == q
  {
    var d := q - a / len;
    assert d * len == a % len - r;
    if d >= 1 {
      MulAtLeast(d, len);
    } else if d <= -1 {
      MulAtLeast(-d, len);
    }
  }

  lemma RotateExample<T>(a: T, b: T, c: T)
    ensures Rotate([a, b, c], 1) == [b, c, a]
  {
  }

  /** Rotating by a whole number of turns is the identity. */
  lemma RotateFullTurn<T>(a: seq<T>, k: int)
    ensures Rotate(a, k * |a|) == a
  {
    if |a| > 0 {
      ModShift(0, k, |a|);
      assert a[0..] + a[..0] == a;
    }
  }

  /** Rotation amounts that differ by whole turns give the same result. */
  lemma RotatePeriodic<T>(a: seq<T>, n: int, k: int)
    ensures Rotate(a, n + k * |a|) == Rotate(a, n)
  {
    if |a| > 0 {
      ModShift(n, k, |a|);
    }
  }

  /** Adding whole multiples of the modulus leaves the remainder. */
  lemma ModShift(v: int, k: int, len: int)
    requires len > 0
    ensures (v + k * len) % len == v % len
  {
    assert v == (v / len) * len + v % len;
    assert v + k * len == (v / len + k) * len + v % len;
    ModUnique(v + k * len, v / len + k, v % len, len);
  }

  /** Rotation only reorders: the multiset of elements is unchanged. */
  lemma RotateIsPermutation<T>(a: seq<T>, n: int)
    ensures multiset(Rotate(a, n)) == multiset(a)
  {
    if |a| > 0 {
      var m := n % |a|;
      assert a == a[..m] + a[m..];
    }
  }
}
