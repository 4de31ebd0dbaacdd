/** Epsilon-greedy action selection over a Q-table (`get_action` and the
    `np.argmax(q_table[state])` of montecarlo/main.py).

    The uniform draw and the fallback random action are inputs, so the
    selector is a deterministic function of the table and of those inputs. */
module Policy {

  /** Size of the CartPole action space (push left, push right). */
  const NumActions: nat := 2

  type Action = a: nat | a < NumActions

  /** `0.5 * (1 / (episode + 1))`: at most one half and never zero. */
  function Epsilon(episode: nat): (e: real)
    ensures 0.0 < e <= 0.5
  {
    0.5 * (1.0 / ((episode + 1) as real))
  }

  /** Epsilon strictly decreases with the episode index. */
  lemma EpsilonDecreasing(e1: nat, e2: nat)
    requires e1 < e2
    ensures Epsilon(e2) < Epsilon(e1)
  {
    var a, b := (e1 + 1) as real, (e2 + 1) as real;
    assert 1.0 / b < 1.0 / a by {
      assert (1.0 / b) * b == 1.0 && (1.0 / a) * a == 1.0;
      assert (1.0 / b) * (a * b) == a && (1.0 / a) * (a * b) == b;
    }
  }

  /** Epsilon falls below any positive bound from some episode on. */
  lemma EpsilonVanishes(bound: real) returns (n: nat)
    requires bound > 0.0
    ensures forall e: nat :: n <= e ==> Epsilon(e) < bound
  {
    var x := 0.5 / bound;
    var f := x.Floor;
    n := if f < 0 then 0 else f as nat;
    forall e: nat | n <= e
      ensures Epsilon(e) < bound
    {
      var m := (e + 1) as real;
      assert x < m;
      HalfOverBelow(bound, m);
    }
  }

  lemma HalfOverBelow(bound: real, m: real)
    requires bound > 0.0 && 0.5 / bound < m
    ensures 0.5 * (1.0 / m) < bound
  {
    var x := 0.5 / bound;
    assert x * bound == 0.5;
    MulPositive(m - x, bound);
    calc {
      m * bound;
      (m - x) * bound + x * bound;
      >
      x * bound;
    }
    var y := 1.0 / m;
    assert y * m == 1.0;
    assert 0.5 * y < bound by {
      assert (bound - 0.5 * y) * m == bound * m - 0.5;
      if bound - 0.5 * y <= 0.0 {
        MulNonPositive(bound - 0.5 * y, m);
      }
    }
  }

  lemma MulPositive(a: real, b: real)
    requires a > 0.0 && b > 0.0
    ensures a * b > 0.0
  {
  }

  lemma MulNonPositive(a: real, b: real)
    requires a <= 0.0 && b > 0.0
    ensures a * b <= 0.0
  {
  }

  /** `np.argmax` over the first `n` entries of a row: the first index
      holding the largest value. */
  function ArgMaxUpTo(row: seq<real>, n: nat): (k: nat)
    requires 0 < n <= |row|
    ensures k < n
    ensures forall j :: 0 <= j < n ==> row[j] <= row[k]
    ensures forall j :: 0 <= j < k ==> row[j] < row[k]
    decreases n
  {
    if n == 1 then 0
    else
      var k := ArgMaxUpTo(row, n - 1);
      if row[k] < row[n - 1] then n - 1 else k
  }

  /** `a` holds the row's largest value and no earlier index does. */
  predicate FirstMaximum(row: seq<real>, a: Action)
    requires |row| == NumActions
  {
    (forall j :: 0 <= j < NumActions ==> row[j] <= row[a]) &&
    (forall j :: 0 <= j < a ==> row[j] < row[a])
  }

  /** The greedy action `np.argmax(q_table[state])`, given the state's row
      `q_table[state]`. */
  function Greedy(row: seq<real>): (a: Action)
    requires |row| == NumActions
    ensures forall j :: 0 <= j < NumActions ==> row[j] <= row[a]
    ensures forall j :: 0 <= j < a ==> row[j] < row[a]
  {
    ArgMaxUpTo(row, NumActions)
  }

  /** `get_action`, given the row `q_table[next_state]`: greedy when
      `epsilon <= draw`, otherwise the supplied random action. */
  function GetAction(row: seq<real>, episode: nat, draw: real, randomAction: Action): (a: Action)
    requires |row| == NumActions
    ensures Epsilon(episode) <= draw ==>
      (forall j :: 0 <= j < NumActions ==> row[j] <= row[a]) &&
      (forall j :: 0 <= j < a ==> row[j] < row[a])
    ensures draw < Epsilon(episode) ==> a == randomAction
  {
    if Epsilon(episode) <= draw then Greedy(row) else randomAction
  }

  /** A draw of at least one half is always exploited, whatever the episode. */
  lemma GreedyFromHalf(row: seq<real>, episode: nat, draw: real, randomAction: Action)
    requires |row| == NumActions
    requires 0.5 <= draw
    ensures GetAction(row, episode, draw, randomAction) == Greedy(row)
  {
  }
}
