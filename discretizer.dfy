/** Discretisation of a CartPole observation into one integer state
    (`bins` and `digitize_state` in montecarlo/main.py).

    Each of the four observation components is cut into `d` bins by `d - 1`
    evenly spaced interior boundaries; the bin index of a value is the number
    of boundaries that are at most that value (numpy's `digitize`); the four
    indices are packed into one state as the digits of a base-`d` number, the
    cart position being the least significant digit. */
module Discretizer {

  /** Number of bins per observation component used by the trainer. */
  const NumDigitized: nat := 6

  /** Number of observation components. */
  const NumComponents: nat := 4

  datatype Observation = Observation(
    cartPos: real,
    cartVelocity: real,
    poleAngle: real,
    poleVelocity: real)

  function Pow(b: nat, e: nat): (r: nat)
    ensures b >= 1 ==> r >= 1
  {
    if e == 0 then 1 else b * Pow(b, e - 1)
  }

  // ---------------------------------------------------------------------
  // Bin boundaries
  // ---------------------------------------------------------------------

  /** The `i`-th interior point of `linspace(lo, hi, d + 1)`, that is the
      point with index `i + 1`. The point with index `d` is `hi` itself,
      which is why `bins` drops it; the ones before it lie strictly inside
      the clip range. */
  function Boundary(lo: real, hi: real, d: nat, i: nat): (r: real)
    requires d >= 1
    ensures i + 1 == d ==> r == hi
    ensures lo < hi && i + 1 < d ==> lo < r < hi
  {
    var w := (hi - lo) / (d as real);
    assert (d as real) * w == hi - lo;
    var k := (i + 1) as real;
    assert lo < hi ==> w > 0.0;
    assert i + 1 < d ==> 0.0 < k < d as real;
    ScaledBetween(k, d as real, w);
    lo + k * w
  }

  lemma ScaledBetween(k: real, n: real, w: real)
    ensures 0.0 < k < n && w > 0.0 ==> 0.0 < k * w < n * w
  {
    if 0.0 < k < n && w > 0.0 {
      MulStrict(0.0, k, w);
      MulStrict(k, n, w);
    }
  }

  /** `bins(lo, hi, d)`: the `d - 1` interior boundaries of `d` equal bins. */
  function Bins(lo: real, hi: real, d: nat): (b: seq<real>)
    requires d >= 1
    ensures |b| == d - 1
  {
    seq(d - 1, i requires 0 <= i < d - 1 => Boundary(lo, hi, d, i))
  }

  predicate Sorted(b: seq<real>)
  {
    forall i, j :: 0 <= i < j < |b| ==> b[i] <= b[j]
  }

  /** The boundaries lie strictly inside the clip range and strictly
      increase, so every bin is non-empty. */
  lemma BinsInterior(lo: real, hi: real, d: nat)
    requires d >= 1 && lo < hi
    ensures forall i :: 0 <= i < d - 1 ==> lo < Bins(lo, hi, d)[i] < hi
    ensures forall i, j :: 0 <= i < j < d - 1 ==> Bins(lo, hi, d)[i] < Bins(lo, hi, d)[j]
  {
    var b := Bins(lo, hi, d);
    forall i | 0 <= i < d - 1
      ensures lo < b[i] < hi
    {
      assert b[i] == Boundary(lo, hi, d, i);
    }
    forall i, j | 0 <= i < j < d - 1
      ensures b[i] < b[j]
    {
      assert b[i] == Boundary(lo, hi, d, i) && b[j] == Boundary(lo, hi, d, j);
      BoundaryIncreasing(lo, hi, d, i, j);
    }
  }

  lemma BoundaryIncreasing(lo: real, hi: real, d: nat, i: nat, j: nat)
    requires d >= 1 && lo < hi && i < j
    ensures Boundary(lo, hi, d, i) < Boundary(lo, hi, d, j)
  {
    var w := (hi - lo) / (d as real);
    assert w > 0.0;
    MulStrict((i + 1) as real, (j + 1) as real, w);
  }

  lemma MulStrict(a: real, b: real, w: real)
    requires a < b && w > 0.0
    ensures a * w < b * w
  {
    assert b * w - a * w == (b - a) * w;
  }

  // ---------------------------------------------------------------------
  // np.digitize
  // ---------------------------------------------------------------------

  /** Bin index of `x`: the number of boundaries `<= x`. */
  function Digitize(x: real, bins: seq<real>): (k: nat)
    ensures k <= |bins|
  {
    if bins == [] then 0
    else (if bins[0] <= x then 1 else 0) + Digitize(x, bins[1..])
  }

  /** Every boundary lies above `x`: `x` falls in the first bin. */
  lemma {:induction false} DigitizeBelowAll(x: real, bins: seq<real>)
    requires forall i :: 0 <= i < |bins| ==> x < bins[i]
    ensures Digitize(x, bins) == 0
  {
    if bins != [] {
      DigitizeBelowAll(x, bins[1..]);
    }
  }

  /** numpy's definition of `digitize` on increasing boundaries:
      the result `k` satisfies `bins[k-1] <= x < bins[k]`. */
  lemma {:induction false} DigitizeBracket(x: real, bins: seq<real>)
    requires Sorted(bins)
    ensures var k := Digitize(x, bins);
      (k > 0 ==> bins[k - 1] <= x) && (k < |bins| ==> x < bins[k])
  {
    if bins != [] {
      if x < bins[0] {
        DigitizeBelowAll(x, bins[1..]);
      } else {
        DigitizeBracket(x, bins[1..]);
      }
    }
  }

  /** The bracket characterises the bin index uniquely (both directions). */
  lemma DigitizeIsBracketIndex(x: real, bins: seq<real>, k: nat)
    requires Sorted(bins) && k <= |bins|
    ensures Digitize(x, bins) == k <==>
      ((k > 0 ==> bins[k - 1] <= x) && (k < |bins| ==> x < bins[k]))
  {
    DigitizeBracket(x, bins);
  }

  /** Raising the value never lowers its bin index. */
  lemma {:induction false} DigitizeMonotone(x: real, y: real, bins: seq<real>)
    requires x <= y
    ensures Digitize(x, bins) <= Digitize(y, bins)
  {
    if bins != [] {
      DigitizeMonotone(x, y, bins[1..]);
    }
  }

  // ---------------------------------------------------------------------
  // Mixed-radix encoding
  // ---------------------------------------------------------------------

  predicate DigitsBelow(ds: seq<nat>, d: nat)
  {
    forall i :: 0 <= i < |ds| ==> ds[i] < d
  }

  /** `sum(x * d**i for i, x in enumerate(ds))`: digits below `d` give a
      number below `d^n`, so the state indexes a table of `d^n` rows. */
  function Encode(ds: seq<nat>, d: nat): (e: nat)
    ensures DigitsBelow(ds, d) ==> e < Pow(d, |ds|)
  {
    if ds == [] then 0
    else
      var n := |ds|;
      var init, last := ds[..n - 1], ds[n - 1];
      var p := Pow(d, n - 1);
      assert DigitsBelow(ds, d) ==> DigitsBelow(init, d);
      MulLe(last, if last < d then d - 1 else last, p);
      assert last < d ==> (d - 1) * p + p == d * p;
      Encode(init, d) + last * p
  }

  /** The first `n` base-`d` digits of `s`, least significant first. */
  function Decode(s: nat, d: nat, n: nat): (ds: seq<nat>)
    requires d >= 1
    ensures |ds| == n && DigitsBelow(ds, d)
  {
    if n == 0 then [] else [s % d] + Decode(s / d, d, n - 1)
  }

  /** The weighted sum equals the Horner form `ds[0] + d * rest`. */
  lemma {:induction false} EncodeHorner(ds: seq<nat>, d: nat)
    requires ds != []
    ensures Encode(ds, d) == ds[0] + d * Encode(ds[1..], d)
  {
    var n := |ds|;
    if n == 1 {
      assert ds[..0] == [] && ds[1..] == [];
    } else {
      var init, last := ds[..n - 1], ds[n - 1];
      EncodeHorner(init, d);
      var a := Encode(init[1..], d);
      var p := Pow(d, n - 2);
      assert ds[1..][..n - 2] == init[1..];
      assert Encode(ds[1..], d) == a + last * p;
      assert Encode(ds, d) == Encode(init, d) + last * Pow(d, n - 1);
      ScaleSum(d, a, last, p);
      assert Pow(d, n - 1) == d * p;
    }
  }

  lemma ScaleSum(d: nat, a: nat, x: nat, p: nat)
    ensures d * (a + x * p) == d * a + x * (d * p)
  {
  }

  lemma MulLe(a: nat, b: nat, c: nat)
    requires a <= b
    ensures a * c <= b * c
  {
    assert b * c - a * c == (b - a) * c;
  }

  lemma DivModUnique(a: nat, b: nat, d: nat)
    requires 0 <= a < d
    ensures (a + d * b) % d == a && (a + d * b) / d == b
  {
    var n := a + d * b;
    var q, r := n / d, n % d;
    assert d * (q - b) == a - r;
    if q > b {
      MulLe(1, q - b, d);
    } else if q < b {
      MulLe(1, b - q, d);
    }
  }

  /** Decoding inverts encoding: the digits are recovered exactly. */
  lemma {:induction false} DecodeEncode(ds: seq<nat>, d: nat)
    requires d >= 1 && DigitsBelow(ds, d)
    ensures Decode(Encode(ds, d), d, |ds|) == ds
  {
    if ds != [] {
      EncodeHorner(ds, d);
      DivModUnique(ds[0], Encode(ds[1..], d), d);
      DecodeEncode(ds[1..], d);
    }
  }

  /** Distinct digit vectors give distinct states. */
  lemma EncodeInjective(ds: seq<nat>, es: seq<nat>, d: nat)
    requires d >= 1 && |ds| == |es| && DigitsBelow(ds, d) && DigitsBelow(es, d)
    requires Encode(ds, d) == Encode(es, d)
    ensures ds == es
  {
    DecodeEncode(ds, d);
    DecodeEncode(es, d);
  }

  /** Raising one digit while holding the others never lowers the state. */
  lemma {:induction false} EncodeMonotone(ds: seq<nat>, es: seq<nat>, d: nat, c: nat)
    requires |ds| == |es| && c < |ds|
    requires forall i :: 0 <= i < |ds| && i != c ==> ds[i] == es[i]
    requires ds[c] <= es[c]
    ensures Encode(ds, d) <= Encode(es, d)
  {
    var n := |ds|;
    if c == n - 1 {
      assert ds[..n - 1] == es[..n - 1];
      MulLe(ds[n - 1], es[n - 1], Pow(d, n - 1));
    } else {
      EncodeMonotone(ds[..n - 1], es[..n - 1], d, c);
    }
  }

  // ---------------------------------------------------------------------
  // digitize_state
  // ---------------------------------------------------------------------

  /** Component `c` of an observation, in the source's unpacking order. */
  function Component(o: Observation, c: nat): real
    requires c < NumComponents
  {
    if c == 0 then o.cartPos
    else if c == 1 then o.cartVelocity
    else if c == 2 then o.poleAngle
    else o.poleVelocity
  }

  /** Clip ranges of the four components. */
  function ClipMin(c: nat): real
    requires c < NumComponents
  {
    [-2.4, -3.0, -0.5, -2.0][c]
  }

  function ClipMax(c: nat): real
    requires c < NumComponents
  {
    [2.4, 3.0, 0.5, 2.0][c]
  }

  /** The bin index of component `c`: a digit in `[0, d - 1]`. */
  function DigitOf(o: Observation, d: nat, c: nat): (k: nat)
    requires d >= 1 && c < NumComponents
    ensures k < d
  {
    Digitize(Component(o, c), Bins(ClipMin(c), ClipMax(c), d))
  }

  /** The list `digitized` of the source. */
  function Digits(o: Observation, d: nat): (ds: seq<nat>)
    requires d >= 1
    ensures |ds| == NumComponents && DigitsBelow(ds, d)
  {
    [DigitOf(o, d, 0), DigitOf(o, d, 1), DigitOf(o, d, 2), DigitOf(o, d, 3)]
  }

  /** `digitize_state`: always a state in `[0, d^4)`. */
  function DigitizeState(o: Observation, d: nat): (s: nat)
    requires d >= 1
    ensures s < Pow(d, NumComponents)
  {
    Encode(Digits(o, d), d)
  }

  /** The state determines the four bin indices: decoding it base `d`
      gives back the digits, so distinct digit vectors give distinct states. */
  lemma DigitizeStateDecodes(o: Observation, d: nat)
    requires d >= 1
    ensures Decode(DigitizeState(o, d), d, NumComponents) == Digits(o, d)
  {
    DecodeEncode(Digits(o, d), d);
  }

  lemma DigitizeStateInjective(o1: Observation, o2: Observation, d: nat)
    requires d >= 1 && DigitizeState(o1, d) == DigitizeState(o2, d)
    ensures Digits(o1, d) == Digits(o2, d)
  {
    DigitizeStateDecodes(o1, d);
    DigitizeStateDecodes(o2, d);
  }

  /** Raising component `c` while holding the others fixed never lowers
      its digit, leaves the other digits alone and never lowers the state. */
  lemma DigitizeStateMonotone(o1: Observation, o2: Observation, d: nat, c: nat)
    requires d >= 1 && c < NumComponents
    requires forall j :: 0 <= j < NumComponents && j != c ==> Component(o1, j) == Component(o2, j)
    requires Component(o1, c) <= Component(o2, c)
    ensures DigitOf(o1, d, c) <= DigitOf(o2, d, c)
    ensures forall j :: 0 <= j < NumComponents && j != c ==> DigitOf(o1, d, j) == DigitOf(o2, d, j)
    ensures DigitizeState(o1, d) <= DigitizeState(o2, d)
  {
    DigitizeMonotone(Component(o1, c), Component(o2, c), Bins(ClipMin(c), ClipMax(c), d));
    EncodeMonotone(Digits(o1, d), Digits(o2, d), d, c);
  }

  /** With the clip ranges of the source the boundaries are sorted, so
      every digit is the bracket index of numpy's `digitize`. */
  lemma DigitOfIsBracket(o: Observation, d: nat, c: nat)
    requires d >= 1 && c < NumComponents
    ensures var b := Bins(ClipMin(c), ClipMax(c), d); var k := DigitOf(o, d, c);
      (k > 0 ==> b[k - 1] <= Component(o, c)) && (k < d - 1 ==> Component(o, c) < b[k])
  {
    BinsInterior(ClipMin(c), ClipMax(c), d);
    DigitizeBracket(Component(o, c), Bins(ClipMin(c), ClipMax(c), d));
  }
}
