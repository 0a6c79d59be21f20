/**
 * The integer segment fit of the PGM encoder
 * (jdb_ftl/src/ftl/codec/optimal.rs, `find_longest_segment`).
 *
 * Point (x, values[x]) is accepted when some slope puts it within epsilon of
 * the line through (0, values[0]). The admissible slopes form a cone
 * [min_num / min_den, max_num / max_den] that shrinks with every accepted
 * point; a point outside the cone is skipped as an outlier when the next one
 * or two points still fit, and otherwise ends the segment. The slope chosen
 * is the middle of the cone in 2^24 fixed point, and the base is shifted so
 * that every residual of the segment is between 0 and `max_residual`.
 *
 * The source computes in i128 (and i64 for the residual pass); here the
 * cone arithmetic is on unbounded integers, and the i64 wrapping operations
 * are written out.
 */
module Optimal {
  import opened Common

  /** `i128::MIN` and `i128::MAX`, the markers of a cone side not yet set. */
  const I128_MIN: int := -0x8000_0000_0000_0000_0000_0000_0000_0000
  const I128_MAX: int := 0x7FFF_FFFF_FFFF_FFFF_FFFF_FFFF_FFFF_FFFF

  /** 2^24, the fixed-point scale of slopes. */
  const TWO24: int := 0x100_0000

  datatype FitResult = FitResult(base: u64, slope: i32, length: nat, max_residual: u64)

  /** The slope cone: the smallest admissible slope min_num / min_den, the largest max_num / max_den. */
  datatype Cone = Cone(min_num: int, min_den: int, max_num: int, max_den: int)

  /** The cone before any point: both sides unset. */
  const OPEN_CONE: Cone := Cone(I128_MIN, 1, I128_MAX, 1)

  /** The lowest line offset point x allows: y - first - eps. */
  function Low(values: seq<u64>, eps: nat, x: nat): int
    requires x < |values|
  {
    values[x] - values[0] - eps
  }

  /** The highest line offset point x allows: y - first + eps. */
  function High(values: seq<u64>, eps: nat, x: nat): int
    requires x < |values|
  {
    values[x] - values[0] + eps
  }

  /**
   * The compatibility check of the loop: the point's smallest slope is not
   * above the cone's largest, and its largest not below the cone's
   * smallest. An unset side never objects.
   */
  predicate Fits(c: Cone, low: int, high: int, x: int)
  {
    var new_min_violates := if c.max_num != I128_MAX then low * c.max_den > c.max_num * x else false;
    var new_max_violates := if c.min_num != I128_MIN then high * c.min_den < c.min_num * x else false;
    !new_min_violates && !new_max_violates
  }

  /** The cone update for an accepted point: raise the smallest slope, lower the largest. */
  function Narrow(c: Cone, low: int, high: int, x: int): Cone
  {
    var c1 := if c.min_num == I128_MIN || low * c.min_den > c.min_num * x then c.(min_num := low, min_den := x) else c;
    if c1.max_num == I128_MAX || high * c1.max_den < c1.max_num * x then c1.(max_num := high, max_den := x) else c1
  }

  /** Point x lies within eps of the line of every slope in the cone (fractions compared crosswise). */
  predicate Covers(c: Cone, low: int, high: int, x: int)
  {
    low * c.min_den <= c.min_num * x && c.max_num * x <= high * c.max_den
  }

  /** Whether values[x] is on the same side of the u64::MAX (deleted) boundary as values[0]. */
  predicate SameKind(values: seq<u64>, x: nat)
    requires x < |values|
  {
    (values[x] == U64_MAX) == (values[0] == U64_MAX)
  }

  /**
   * The lookahead of the loop for a point i outside the cone: i is an
   * isolated outlier when point i + 1 exists, is of the same kind and fits
   * the current cone, and point i + 2, if it exists, is of the same kind
   * and fits too.
   */
  predicate SkipAsOutlier(values: seq<u64>, eps: nat, c: Cone, i: nat)
    requires i < |values|
  {
    && i + 1 < |values|
    && SameKind(values, i + 1)
    && Fits(c, Low(values, eps, i + 1), High(values, eps, i + 1), i + 1)
    && (i + 2 < |values| ==>
          SameKind(values, i + 2) && Fits(c, Low(values, eps, i + 2), High(values, eps, i + 2), i + 2))
  }

  /** Each entry greater than the one before it. */
  predicate Increasing(s: seq<nat>)
  {
    forall a, b :: 0 <= a < b < |s| ==> s[a] < s[b]
  }

  /**
   * What the scan keeps: before the first accepted point the cone is open;
   * afterwards both sides are set, within the range of a line offset, the
   * cone is not empty, and every accepted point (each index below best_len
   * that is not an outlier) lies within eps of every line in it.
   */
  ghost predicate ConeHolds(values: seq<u64>, eps: u64, c: Cone, best_len: nat, outliers: seq<nat>)
    requires best_len <= |values|
  {
    && c.min_den >= 1 && c.max_den >= 1
    && (best_len <= 1 ==> c == OPEN_CONE)
    && (best_len > 1 ==>
          && -2 * TWO64 < c.min_num < 2 * TWO64 && -2 * TWO64 < c.max_num < 2 * TWO64
          && c.min_num * c.max_den <= c.max_num * c.min_den
          && forall j: nat :: 1 <= j < best_len && j !in outliers ==>
               Covers(c, Low(values, eps, j), High(values, eps, j), j))
  }

  /**
   * Why a segment of length len ends: it reaches the end of the values, or
   * point len is of the other kind, or point len misfits the cone and is not
   * an isolated outlier.
   */
  predicate StopsAt(values: seq<u64>, eps: u64, c: Cone, len: nat)
    requires len <= |values|
  {
    len == |values| || !SameKind(values, len)
    || (!Fits(c, Low(values, eps, len), High(values, eps, len), len) && !SkipAsOutlier(values, eps, c, len))
  }

  // ---------------------------------------------------------------------
  // Fractions compared crosswise.

  lemma {:induction false} MulLe(a: int, b: int, k: int)
    requires a <= b && k > 0
    ensures a * k <= b * k
  {
  }

  lemma {:induction false} MulLt(a: int, b: int, k: int)
    requires a < b && k > 0
    ensures a * k < b * k
  {
  }

  lemma {:induction false} MulLeCancel(a: int, b: int, k: int)
    requires a * k <= b * k && k > 0
    ensures a <= b
  {
    if a > b {
      MulLt(b, a, k);
    }
  }

  /** n1/d1 <= n2/d2 <= n3/d3 gives n1/d1 <= n3/d3, for positive denominators. */
  lemma {:induction false} FracTrans(n1: int, d1: int, n2: int, d2: int, n3: int, d3: int)
    requires d1 > 0 && d2 > 0 && d3 > 0
    requires n1 * d2 <= n2 * d1 && n2 * d3 <= n3 * d2
    ensures n1 * d3 <= n3 * d1
  {
    MulLe(n1 * d2, n2 * d1, d3);
    MulLe(n2 * d3, n3 * d2, d1);
    assert (n1 * d2) * d3 == (n1 * d3) * d2;
    assert (n2 * d1) * d3 == (n2 * d3) * d1;
    assert (n3 * d2) * d1 == (n3 * d1) * d2;
    MulLeCancel(n1 * d3, n3 * d1, d2);
  }

  /** Accepting a point that fits keeps the cone invariant, with the point now covered. */
  lemma {:induction false} NarrowKeeps(values: seq<u64>, eps: u64, c: Cone, best_len: nat, outliers: seq<nat>, i: nat)
    requires 1 <= best_len <= i < |values| && i !in outliers
    requires ConeHolds(values, eps, c, best_len, outliers)
    requires forall j: nat :: best_len <= j < i ==> j in outliers
    requires Fits(c, Low(values, eps, i), High(values, eps, i), i)
    ensures ConeHolds(values, eps, Narrow(c, Low(values, eps, i), High(values, eps, i), i), i + 1, outliers)
  {
    var low, high := Low(values, eps, i), High(values, eps, i);
    var c' := Narrow(c, low, high, i);
    if best_len == 1 {
      assert c' == Cone(low, i, high, i);
      assert low * i <= high * i by { MulLe(low, high, i); }
      forall j: nat | 1 <= j < i + 1 && j !in outliers
        ensures Covers(c', Low(values, eps, j), High(values, eps, j), j)
      {
        assert j == i;
      }
    } else {
      forall j: nat | 1 <= j < i + 1 && j !in outliers
        ensures Covers(c', Low(values, eps, j), High(values, eps, j), j)
      {
        if j == i {
          CoversItself(c, low, high, i);
        } else {
          CoversKept(c, low, high, i, Low(values, eps, j), High(values, eps, j), j);
        }
      }
      NarrowNonEmpty(c, low, high, i);
    }
  }

  /** The point that narrowed the cone is covered by the narrowed cone. */
  lemma {:induction false} CoversItself(c: Cone, low: int, high: int, i: int)
    requires i >= 1 && c.min_den >= 1 && c.max_den >= 1 && low <= high
    requires c.min_num != I128_MIN && c.max_num != I128_MAX
    ensures Covers(Narrow(c, low, high, i), low, high, i)
  {
    var c' := Narrow(c, low, high, i);
    if !(low * c.min_den > c.min_num * i) {
      assert low * c'.min_den <= c'.min_num * i;
    }
    if !(high * c.max_den < c.max_num * i) {
      assert c'.max_num * i <= high * c'.max_den;
    }
  }

  /** A point the old cone covered is covered by the narrowed cone. */
  lemma {:induction false} CoversKept(c: Cone, low: int, high: int, i: int, lj: int, hj: int, j: int)
    requires i >= 1 && j >= 1 && c.min_den >= 1 && c.max_den >= 1
    requires c.min_num != I128_MIN && c.max_num != I128_MAX
    requires Covers(c, lj, hj, j)
    ensures Covers(Narrow(c, low, high, i), lj, hj, j)
  {
    if low * c.min_den > c.min_num * i {
      FracTrans(lj, j, c.min_num, c.min_den, low, i);
    }
    if high * c.max_den < c.max_num * i {
      FracTrans(high, i, c.max_num, c.max_den, hj, j);
    }
  }

  /** A point that fits a non-empty cone leaves it non-empty. */
  lemma {:induction false} NarrowNonEmpty(c: Cone, low: int, high: int, i: int)
    requires i >= 1 && c.min_den >= 1 && c.max_den >= 1 && low <= high
    requires c.min_num != I128_MIN && c.max_num != I128_MAX
    requires c.min_num * c.max_den <= c.max_num * c.min_den
    requires Fits(c, low, high, i)
    ensures var c' := Narrow(c, low, high, i);
      c'.min_num * c'.max_den <= c'.max_num * c'.min_den
  {
    var raise := low * c.min_den > c.min_num * i;
    var lower := high * c.max_den < c.max_num * i;
    if raise && lower {
      MulLe(low, high, i);
    }
  }

  // ---------------------------------------------------------------------
  // The scan.

  /**
   * The `while let` loop of `find_longest_segment`: walks the points from
   * index 1, narrowing the cone with each one that fits, recording an
   * isolated misfit as an outlier, and stopping at the first point of the
   * other kind or the first misfit that is not isolated.
   */
  method Scan(values: seq<u64>, epsilon: u64) returns (cone: Cone, best_len: nat, outliers: seq<nat>)
    requires |values| >= 2
    ensures 1 <= best_len <= |values|
    ensures forall j: nat :: j < best_len ==> SameKind(values, j)
    ensures Increasing(outliers)
    ensures forall t :: 0 <= t < |outliers| ==> 1 <= outliers[t] < best_len
    ensures ConeHolds(values, epsilon, cone, best_len, outliers)
    ensures StopsAt(values, epsilon, cone, best_len)
  {
    cone := OPEN_CONE;
    best_len := 1;
    outliers := [];
    var is_max_segment := values[0] == U64_MAX;
    var i := 1;
    ghost var pending := false;
    while i < |values|
      invariant ScanInv(values, epsilon, cone, best_len, outliers, i, pending)
      decreases |values| - i
    {
      var val := values[i];
      if (val == U64_MAX) != is_max_segment {
        ScanEnd(values, epsilon, cone, best_len, outliers, i, pending);
        break;
      }
      var low, high := Low(values, epsilon, i), High(values, epsilon, i);
      if Fits(cone, low, high, i) {
        AcceptStep(values, epsilon, cone, best_len, outliers, i, pending);
        cone := Narrow(cone, low, high, i);
        best_len := i + 1;
        pending := false;
      } else if SkipAsOutlier(values, epsilon, cone, i) {
        SkipStep(values, epsilon, cone, best_len, outliers, i, pending);
        outliers := outliers + [i];
        pending := true;
      } else {
        ScanEnd(values, epsilon, cone, best_len, outliers, i, pending);
        break;
      }
      i := i + 1;
    }
    if i == |values| {
      ScanEnd(values, epsilon, cone, best_len, outliers, i, pending);
    }
  }

  /**
   * The loop invariant of the scan. Every index from best_len up to i is
   * an outlier, and an outlier at or past best_len is only the one just
   * recorded (`pending`), whose successor is known to fit the cone.
   */
  ghost predicate ScanInv(values: seq<u64>, eps: u64, cone: Cone, best_len: nat, outliers: seq<nat>, i: nat, pending: bool)
  {
    && 1 <= best_len <= i <= |values|
    && (forall j: nat :: j < i ==> SameKind(values, j))
    && Increasing(outliers)
    && (forall t :: 0 <= t < |outliers| ==> 1 <= outliers[t] < i)
    && (forall t :: 0 <= t < |outliers| ==> outliers[t] < best_len || (pending && outliers[t] == i - 1))
    && (forall j: nat :: best_len <= j < i ==> j in outliers)
    && (pending ==> i < |values| && SameKind(values, i) && Fits(cone, Low(values, eps, i), High(values, eps, i), i))
    && ConeHolds(values, eps, cone, best_len, outliers)
  }

  /** Accepting point i. */
  lemma {:induction false} AcceptStep(values: seq<u64>, eps: u64, cone: Cone, best_len: nat, outliers: seq<nat>, i: nat, pending: bool)
    requires ScanInv(values, eps, cone, best_len, outliers, i, pending) && i < |values| && SameKind(values, i)
    requires Fits(cone, Low(values, eps, i), High(values, eps, i), i)
    ensures ScanInv(values, eps, Narrow(cone, Low(values, eps, i), High(values, eps, i), i), i + 1, outliers, i + 1, false)
  {
    assert i !in outliers;
    NarrowKeeps(values, eps, cone, best_len, outliers, i);
  }

  /** Recording point i as an outlier. */
  lemma {:induction false} SkipStep(values: seq<u64>, eps: u64, cone: Cone, best_len: nat, outliers: seq<nat>, i: nat, pending: bool)
    requires ScanInv(values, eps, cone, best_len, outliers, i, pending) && i < |values| && SameKind(values, i)
    requires !Fits(cone, Low(values, eps, i), High(values, eps, i), i) && SkipAsOutlier(values, eps, cone, i)
    ensures ScanInv(values, eps, cone, best_len, outliers + [i], i + 1, true)
  {
    var o := outliers + [i];
    assert forall t :: 0 <= t < |outliers| ==> o[t] == outliers[t];
    assert forall j: nat :: best_len <= j < i + 1 ==> j in o by {
      forall j: nat | best_len <= j < i + 1
        ensures j in o
      {
        if j < i {
          assert j in outliers;
        } else {
          assert o[|outliers|] == j;
        }
      }
    }
    assert ConeHolds(values, eps, cone, best_len, o) by {
      forall j: nat | 1 <= j < best_len && j !in o
        ensures j !in outliers
      {
      }
    }
  }

  /** Where the scan stops, no outlier is pending, so every outlier lies inside the segment. */
  lemma {:induction false} ScanEnd(values: seq<u64>, eps: u64, cone: Cone, best_len: nat, outliers: seq<nat>, i: nat, pending: bool)
    requires ScanInv(values, eps, cone, best_len, outliers, i, pending)
    requires i == |values| || !SameKind(values, i)
             || (!Fits(cone, Low(values, eps, i), High(values, eps, i), i) && !SkipAsOutlier(values, eps, cone, i))
    ensures 1 <= best_len <= |values|
    ensures forall j: nat :: j < best_len ==> SameKind(values, j)
    ensures Increasing(outliers)
    ensures forall t :: 0 <= t < |outliers| ==> 1 <= outliers[t] < best_len
    ensures ConeHolds(values, eps, cone, best_len, outliers)
    ensures best_len == i
  {
    assert !pending;
    assert best_len < i ==> best_len in outliers;
  }

  // ---------------------------------------------------------------------
  // The slope.

  /** Rust's `/` on signed integers: the quotient truncated toward zero. */
  function TruncDiv(a: int, b: int): (q: int)
    requires b != 0
    ensures (a >= 0) == (b > 0) || q <= 0
  {
    var x, y := (if a >= 0 then a else -a), (if b > 0 then b else -b);
    DivNonNeg(x, y);
    var q := x / y;
    if (a >= 0) == (b > 0) then q else -q
  }

  /** `x.clamp(lo, hi)`. */
  function Clamp(x: int, lo: int, hi: int): (r: int)
    requires lo <= hi
    ensures lo <= r <= hi
    ensures lo <= x <= hi ==> r == x
  {
    if x < lo then lo else if x > hi then hi else x
  }

  /**
   * The final slope: for a segment of more than one point, the average of
   * the cone's two sides in 2^24 fixed point, clamped to i32; else 0. The
   * shift `<< 24` of a set side stays far inside i128.
   */
  function FinalSlope(c: Cone, best_len: nat): (r: i32)
    requires c.min_den >= 1 && c.max_den >= 1
    ensures best_len <= 1 ==> r == 0
  {
    if best_len > 1 then
      var s_min := TruncDiv(c.min_num * TWO24, c.min_den);
      var s_max := TruncDiv(c.max_num * TWO24, c.max_den);
      var avg := TruncDiv(s_min + s_max, 2);
      Clamp(avg, -TWO31, TWO31 - 1)
    else
      0
  }

  // ---------------------------------------------------------------------
  // The residual pass.

  /**
   * The residual of point j against the line of the given slope, as the
   * source's i64 arithmetic computes it: `pred = first.wrapping_add(acc >> 24)`
   * with acc == j * slope, then `val.wrapping_sub(pred)`.
   */
  function Diff(values: seq<u64>, slope: i32, j: nat): i64
    requires j < |values|
  {
    var acc := j * slope;
    var pred := WrapI64(AsI64(values[0]) + acc / TWO24);
    WrapI64(AsI64(values[j]) - pred)
  }

  /** AsI64(x) is x plus a multiple of 2^64. */
  lemma {:induction false} AsI64Off(x: u64) returns (k: int)
    ensures AsI64(x) == x + TWO64 * k
  {
    k := if x < TWO63 then 0 else -1;
  }

  /** AsU64(x) is x plus a multiple of 2^64. */
  lemma {:induction false} AsU64Off(x: i64) returns (k: int)
    ensures AsU64(x) == x + TWO64 * k
  {
    k := if x >= 0 then 0 else 1;
  }

  /** WrapI64(x) is x plus a multiple of 2^64. */
  lemma {:induction false} WrapI64Off(x: int) returns (k: int)
    ensures WrapI64(x) == x + TWO64 * k
  {
    var m := x % TWO64;
    assert x == m + TWO64 * (x / TWO64);
    var a := AsI64Off(m);
    k := a - x / TWO64;
  }

  /** A number congruent to r modulo 2^64, with r a residue, reduces to r. */
  lemma {:induction false} ModOfCongruent(x: int, r: int, k: int)
    requires 0 <= r < TWO64 && x == r + TWO64 * k
    ensures x % TWO64 == r
  {
    DivModOf(k, TWO64, r);
  }

  /** Two i64 values congruent modulo 2^64 are equal. */
  lemma {:induction false} I64Congruent(a: i64, b: i64, k: int)
    requires a == b + TWO64 * k
    ensures a == b
  {
    var x, y := a + TWO63, b + TWO63;
    assert x == y + TWO64 * k;
    ModOfCongruent(x, y, k);
    DivModOf(0, TWO64, x);
  }

  lemma {:induction false} DiffAtZero(values: seq<u64>, slope: i32)
    requires |values| > 0
    ensures Diff(values, slope, 0) == 0
  {
    var v := AsI64(values[0]);
    assert 0 * slope / TWO24 == 0;
    var k1 := WrapI64Off(v);
    I64Congruent(WrapI64(v), v, k1);
    var k2 := WrapI64Off(v - WrapI64(v));
    assert WrapI64(0) == 0;
  }

  /**
   * The `for` loop over the first best_len points: the smallest and the
   * largest residual of the points that are not outliers, with the running
   * accumulator `acc += slope` and the peekable outlier cursor.
   */
  method DiffRange(values: seq<u64>, slope: i32, best_len: nat, outliers: seq<nat>) returns (min_diff: i64, max_diff: i64)
    requires 1 <= best_len <= |values|
    requires Increasing(outliers) && forall t :: 0 <= t < |outliers| ==> 1 <= outliers[t] < best_len
    ensures forall j: nat :: j < best_len && j !in outliers ==> min_diff <= Diff(values, slope, j) <= max_diff
    ensures exists j: nat :: j < best_len && j !in outliers && Diff(values, slope, j) == min_diff
    ensures exists j: nat :: j < best_len && j !in outliers && Diff(values, slope, j) == max_diff
  {
    min_diff := TWO63 - 1;
    max_diff := -TWO63;
    var acc := 0;
    var k := 0;
    var i := 0;
    ghost var at_min, at_max := 0, 0;
    while i < best_len
      invariant i <= best_len
      invariant Cursor(outliers, k, i)
      invariant acc == i * slope
      invariant RangeInv(values, slope, outliers, i, min_diff, max_diff, at_min, at_max)
      decreases best_len - i
    {
      CursorStep(outliers, k, i);
      var is_outlier := k < |outliers| && outliers[k] == i;
      if is_outlier {
        k := k + 1;
      } else {
        var pred := WrapI64(AsI64(values[0]) + acc / TWO24);
        var diff := WrapI64(AsI64(values[i]) - pred);
        DiffOfAcc(values, slope, i, acc);
        ghost var mn, mx, amn, amx := min_diff, max_diff, at_min, at_max;
        if diff < min_diff {
          min_diff := diff;
          at_min := i;
        }
        if diff > max_diff {
          max_diff := diff;
          at_max := i;
        }
        RangeStep(values, slope, outliers, i, mn, mx, amn, amx, diff);
      }
      acc := acc + slope;
      assert acc == (i + 1) * slope;
      i := i + 1;
    }
  }

  /** The outlier cursor of the residual pass stands at the first outlier not below i. */
  ghost predicate Cursor(outliers: seq<nat>, k: nat, i: nat)
  {
    && Increasing(outliers) && k <= |outliers|
    && (forall t :: 0 <= t < k ==> outliers[t] < i)
    && (forall t :: k <= t < |outliers| ==> outliers[t] >= i)
  }

  /** Peeking at the cursor tells whether i is an outlier, and the cursor moves past i. */
  lemma {:induction false} CursorStep(outliers: seq<nat>, k: nat, i: nat)
    requires Cursor(outliers, k, i)
    ensures (k < |outliers| && outliers[k] == i) <==> i in outliers
    ensures Cursor(outliers, if k < |outliers| && outliers[k] == i then k + 1 else k, i + 1)
  {
    if i in outliers {
      var t :| 0 <= t < |outliers| && outliers[t] == i;
      assert k <= t && outliers[k] <= outliers[t];
    }
    var k' := if k < |outliers| && outliers[k] == i then k + 1 else k;
    forall t | k' <= t < |outliers|
      ensures outliers[t] >= i + 1
    {
      if t > k {
        assert outliers[k] < outliers[t];
      }
    }
  }

  /** The running accumulator computes the residual of point i. */
  lemma {:induction false} DiffOfAcc(values: seq<u64>, slope: i32, i: nat, acc: int)
    requires i < |values| && acc == i * slope
    ensures WrapI64(AsI64(values[i]) - WrapI64(AsI64(values[0]) + acc / TWO24)) == Diff(values, slope, i)
  {
  }

  /**
   * The invariant of the residual pass: min_diff and max_diff bound the
   * residuals of the points below i that are not outliers, and (once one
   * point is in) each is the residual of such a point.
   */
  ghost predicate RangeInv(values: seq<u64>, slope: i32, outliers: seq<nat>, i: nat, min_diff: i64, max_diff: i64, at_min: nat, at_max: nat)
  {
    && i <= |values|
    && (forall j: nat :: j < i && j !in outliers ==> min_diff <= Diff(values, slope, j) <= max_diff)
    && (i == 0 ==> min_diff == TWO63 - 1 && max_diff == -TWO63)
    && (i > 0 && 0 !in outliers ==>
          && at_min < i && at_min !in outliers && Diff(values, slope, at_min) == min_diff
          && at_max < i && at_max !in outliers && Diff(values, slope, at_max) == max_diff)
  }

  /** Taking point i into the range. */
  lemma {:induction false} RangeStep(values: seq<u64>, slope: i32, outliers: seq<nat>, i: nat,
                                     min_diff: i64, max_diff: i64, at_min: nat, at_max: nat, diff: i64)
    requires i < |values| && i !in outliers && diff == Diff(values, slope, i)
    requires RangeInv(values, slope, outliers, i, min_diff, max_diff, at_min, at_max)
    ensures RangeInv(values, slope, outliers, i + 1,
                     if diff < min_diff then diff else min_diff, if diff > max_diff then diff else max_diff,
                     if diff < min_diff then i else at_min, if diff > max_diff then i else at_max)
  {
    if i == 0 {
      DiffAtZero(values, slope);
    }
  }

  // ---------------------------------------------------------------------
  // The whole fit.

  /** The prediction decode_segment makes for point j: base plus (j * slope) >> 24, wrapping. */
  function Predict(base: nat, slope: int, j: nat): u64
  {
    (base + (j * slope) / TWO24) % TWO64
  }

  /** The residual the encoder stores for point j: what decoding has to add to the prediction, wrapping. */
  function Residual(values: seq<u64>, fit: FitResult, j: nat): u64
    requires j < |values|
  {
    (values[j] - Predict(fit.base, fit.slope, j)) % TWO64
  }

  /** Adding the residual to the prediction gives the point back. */
  lemma {:induction false} ResidualRestores(values: seq<u64>, fit: FitResult, j: nat)
    requires j < |values|
    ensures (Predict(fit.base, fit.slope, j) + Residual(values, fit, j)) % TWO64 == values[j]
  {
    var p := Predict(fit.base, fit.slope, j);
    var d := values[j] - p;
    ModAddMul(d % TWO64, d / TWO64, TWO64);
    assert d == d % TWO64 + (d / TWO64) * TWO64;
    ModAddMul(values[j], 0, TWO64);
    assert p + d % TWO64 == values[j] - (d / TWO64) * TWO64;
    ModAddMul(values[j], -(d / TWO64), TWO64);
  }

  /**
   * The residual of an accepted point against the fitted base is its
   * i64 difference minus the smallest one: the base absorbed min_diff.
   */
  lemma {:induction false} ResidualOfDiff(values: seq<u64>, fit: FitResult, min_diff: i64, j: nat)
    requires j < |values| && fit.base == AsU64(WrapI64(AsI64(values[0]) + min_diff))
    requires 0 <= Diff(values, fit.slope, j) - min_diff < TWO64
    ensures Residual(values, fit, j) == Diff(values, fit.slope, j) - min_diff
  {
    var slope, base := fit.slope, fit.base;
    var f := (j * slope) / TWO24;
    var v0, vj := values[0], values[j];
    var pred := WrapI64(AsI64(v0) + f);
    var d := Diff(values, slope, j);
    assert d == WrapI64(AsI64(vj) - pred);
    // Each reinterpretation or wrap adds a multiple of 2^64; collect them.
    var a0 := AsI64Off(v0);
    var aj := AsI64Off(vj);
    var w1 := WrapI64Off(AsI64(v0) + f);
    var w2 := WrapI64Off(AsI64(vj) - pred);
    var w := WrapI64(AsI64(v0) + min_diff);
    var w3 := WrapI64Off(AsI64(v0) + min_diff);
    var b := AsU64Off(w);
    assert d == vj - v0 - f + TWO64 * (aj - a0 - w1 + w2);
    assert base == v0 + min_diff + TWO64 * (a0 + w3 + b);
    var p := Predict(base, slope, j);
    assert p == (base + f) % TWO64;
    var q3 := (base + f) / TWO64;
    assert base + f == p + TWO64 * q3;
    ModOfCongruent(vj - p, d - min_diff, q3 - w3 - b - aj + w1 - w2);
  }

  /**
   * `find_longest_segment(values, epsilon)`: the longest prefix of values
   * that one line fits within epsilon, skipping isolated outliers, with its
   * fixed-point slope, its base, and the spread of its residuals.
   */
  method FindLongestSegment(values: seq<u64>, epsilon: u64) returns (fit: FitResult, outliers: seq<nat>)
    ensures |values| == 0 ==> fit == FitResult(0, 0, 0, 0) && outliers == []
    ensures |values| == 1 ==> fit == FitResult(values[0], 0, 1, 0) && outliers == []
    ensures |values| > 0 ==> 1 <= fit.length <= |values|
    ensures forall j: nat :: j < fit.length ==> SameKind(values, j)
    ensures Increasing(outliers)
    ensures forall t :: 0 <= t < |outliers| ==> 1 <= outliers[t] < fit.length
    ensures fit.length <= 1 ==> fit.slope == 0
    ensures forall j: nat :: j < fit.length && j !in outliers ==> Residual(values, fit, j) <= fit.max_residual
    ensures |values| > 1 ==> exists c :: ConeHolds(values, epsilon, c, fit.length, outliers)
                                         && StopsAt(values, epsilon, c, fit.length) && fit.slope == FinalSlope(c, fit.length)
  {
    if |values| == 0 {
      return FitResult(0, 0, 0, 0), [];
    }
    if |values| == 1 {
      return FitResult(values[0], 0, 1, 0), [];
    }
    var cone, best_len;
    cone, best_len, outliers := Scan(values, epsilon);
    var slope := FinalSlope(cone, best_len);
    var min_diff, max_diff := DiffRange(values, slope, best_len, outliers);
    var max_residual: u64 := (max_diff as int) - (min_diff as int);
    var base := AsU64(WrapI64(AsI64(values[0]) + min_diff));
    assert 0 !in outliers;
    fit := FitResult(base, slope, best_len, max_residual);
    FitResiduals(values, fit, outliers, min_diff, max_diff);
    assert ConeHolds(values, epsilon, cone, fit.length, outliers);
  }

  /** With the base absorbing min_diff, every residual of the segment is at most max_diff - min_diff. */
  lemma {:induction false} FitResiduals(values: seq<u64>, fit: FitResult, outliers: seq<nat>, min_diff: i64, max_diff: i64)
    requires 1 <= fit.length <= |values| && 0 !in outliers
    requires forall j: nat :: j < fit.length && j !in outliers ==> min_diff <= Diff(values, fit.slope, j) <= max_diff
    requires fit.base == AsU64(WrapI64(AsI64(values[0]) + min_diff))
    requires fit.max_residual == (max_diff as int) - (min_diff as int)
    ensures forall j: nat :: j < fit.length && j !in outliers ==> Residual(values, fit, j) <= fit.max_residual
  {
    assert min_diff <= Diff(values, fit.slope, 0) <= max_diff;
    forall j: nat | j < fit.length && j !in outliers
      ensures Residual(values, fit, j) <= fit.max_residual
    {
      ResidualOfDiff(values, fit, min_diff, j);
    }
  }

  /**
   * The cone's promise: every accepted point of the fitted segment lies
   * within epsilon of the line through the first point with any slope
   * p / q in the final cone.
   */
  lemma {:induction false} AcceptedWithinEpsilon(values: seq<u64>, eps: u64, c: Cone, best_len: nat, outliers: seq<nat>,
                                                 j: nat, p: int, q: int)
    requires 1 <= j < best_len <= |values| && j !in outliers
    requires ConeHolds(values, eps, c, best_len, outliers)
    requires q > 0 && c.min_num * q <= p * c.min_den && p * c.max_den <= c.max_num * q
    ensures Low(values, eps, j) * q <= p * j <= High(values, eps, j) * q
  {
    assert Covers(c, Low(values, eps, j), High(values, eps, j), j);
    FracTrans(Low(values, eps, j), j, c.min_num, c.min_den, p, q);
    FracTrans(p, q, c.max_num, c.max_den, High(values, eps, j), j);
  }
}
