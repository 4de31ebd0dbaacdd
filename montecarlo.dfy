/** The every-visit Monte Carlo update of the Q-table
    (`update_Qtable_montecarlo` in montecarlo/main.py).

    The memory is drained from its most recent transition backward while a
    running discounted return `g` is kept; each popped cell `Q[s, a]` moves
    `alpha` of the way toward `r + gamma * g`. The reference definition
    `UpdatedFrom` recomputes every return from scratch; the method is proved
    to agree with it. */
module MonteCarlo {
  import opened EpisodeMemory

  const Gamma: real := 0.99
  const Alpha: real := 0.5

  /** A Q-table as rows indexed by state, each row indexed by action. */
  type Table = seq<seq<real>>

  predicate SameShape(r: Table, t: Table)
  {
    |r| == |t| && forall i :: 0 <= i < |t| ==> |r[i]| == |t[i]|
  }

  /** Every transition of `mem` names a cell of `t`. */
  predicate Fits(t: Table, mem: seq<Transition>)
  {
    forall tr :: tr in mem ==> tr.state < |t| && tr.action < |t[tr.state]|
  }

  predicate Names(tr: Transition, s: nat, a: nat)
  {
    tr.state == s && tr.action == a
  }

  /** The discounted return `r_0 + gamma * r_1 + gamma^2 * r_2 + ...` of a
      run of transitions, first transition first. */
  function DiscountedReturn(mem: seq<Transition>): real
  {
    if mem == [] then 0.0 else mem[0].reward + Gamma * DiscountedReturn(mem[1..])
  }

  /** Cell `(s, a)` moved `Alpha` of the way toward `target`. */
  function MovedToward(t: Table, s: nat, a: nat, target: real): (r: Table)
    requires s < |t| && a < |t[s]|
    ensures SameShape(r, t)
    ensures r[s][a] == t[s][a] + Alpha * (target - t[s][a])
    ensures forall i, j :: 0 <= i < |t| && 0 <= j < |t[i]| && !(i == s && j == a) ==> r[i][j] == t[i][j]
  {
    t[s := t[s][a := t[s][a] + Alpha * (target - t[s][a])]]
  }

  /** The table once transitions `mem[k..]` have been processed, last one
      first, each moving its cell toward the return from its own step on. */
  function UpdatedFrom(t: Table, mem: seq<Transition>, k: nat): (r: Table)
    requires k <= |mem| && Fits(t, mem)
    ensures SameShape(r, t)
    decreases |mem| - k
  {
    if k == |mem| then t
    else
      var prev := UpdatedFrom(t, mem, k + 1);
      MovedToward(prev, mem[k].state, mem[k].action, DiscountedReturn(mem[k..]))
  }

  /** The whole backward pass over an episode's memory. */
  function MonteCarloUpdate(t: Table, mem: seq<Transition>): (r: Table)
    requires Fits(t, mem)
    ensures SameShape(r, t)
  {
    UpdatedFrom(t, mem, 0)
  }

  /** The backward accumulator step: the return from step `k` is the reward
      at `k` plus the discounted return from `k + 1`. */
  lemma ReturnStep(mem: seq<Transition>, k: nat)
    requires k < |mem|
    ensures DiscountedReturn(mem[k..]) == mem[k].reward + Gamma * DiscountedReturn(mem[k + 1..])
  {
    assert mem[k..][1..] == mem[k + 1..];
  }

  /** A cell named by no transition in `mem[k..m]` is not touched while
      those transitions are processed. */
  lemma {:induction false} CellUntouchedBetween(t: Table, mem: seq<Transition>, k: nat, m: nat, s: nat, a: nat)
    requires k <= m <= |mem| && Fits(t, mem)
    requires s < |t| && a < |t[s]|
    requires forall i :: k <= i < m ==> !Names(mem[i], s, a)
    ensures UpdatedFrom(t, mem, k)[s][a] == UpdatedFrom(t, mem, m)[s][a]
    decreases m - k
  {
    if k < m {
      CellUntouchedBetween(t, mem, k + 1, m, s, a);
    }
  }

  /** Cells not named by any transition of the memory are unchanged. */
  lemma UnnamedCellUnchanged(t: Table, mem: seq<Transition>, s: nat, a: nat)
    requires Fits(t, mem) && s < |t| && a < |t[s]|
    requires forall tr :: tr in mem ==> !Names(tr, s, a)
    ensures MonteCarloUpdate(t, mem)[s][a] == t[s][a]
  {
    CellUntouchedBetween(t, mem, 0, |mem|, s, a);
  }

  /** A cell visited exactly once, at step `i`, moves `Alpha` of the way
      from its old value toward the discounted return from step `i` on. */
  lemma SingleVisit(t: Table, mem: seq<Transition>, i: nat)
    requires Fits(t, mem) && i < |mem|
    requires forall j :: 0 <= j < |mem| && j != i ==> !Names(mem[j], mem[i].state, mem[i].action)
    ensures var s, a := mem[i].state, mem[i].action;
      MonteCarloUpdate(t, mem)[s][a] == t[s][a] + Alpha * (DiscountedReturn(mem[i..]) - t[s][a])
  {
    var s, a := mem[i].state, mem[i].action;
    assert mem[i] in mem;
    CellUntouchedBetween(t, mem, i + 1, |mem|, s, a);
    CellUntouchedBetween(t, mem, 0, i, s, a);
  }

  /** The two-step episode `[(s0, a0, 1), (s1, a1, -200)]`: `Q[s1, a1]`
      moves halfway toward -200 and `Q[s0, a0]` halfway toward
      `1 + 0.99 * (-200) = -197`. */
  lemma TwoStepEpisode(t: Table, s0: nat, a0: nat, s1: nat, a1: nat)
    requires s0 < |t| && a0 < |t[s0]| && s1 < |t| && a1 < |t[s1]|
    requires s0 != s1 || a0 != a1
    ensures var mem := [Transition(s0, a0, 1.0), Transition(s1, a1, -200.0)];
      Fits(t, mem) &&
      MonteCarloUpdate(t, mem)[s1][a1] == t[s1][a1] + 0.5 * (-200.0 - t[s1][a1]) &&
      MonteCarloUpdate(t, mem)[s0][a0] == t[s0][a0] + 0.5 * (-197.0 - t[s0][a0])
  {
    var mem := [Transition(s0, a0, 1.0), Transition(s1, a1, -200.0)];
    SingleVisit(t, mem, 1);
    SingleVisit(t, mem, 0);
    assert mem[1..][1..] == [];
    assert DiscountedReturn(mem[1..]) == -200.0;
    assert DiscountedReturn(mem[0..]) == -197.0 by {
      assert mem[0..] == mem && mem[1..] == [mem[1]];
    }
  }

  /** Row `s` of the Q-table, `q_table[s]`. */
  function Row(q: array2<real>, s: nat): (r: seq<real>)
    reads q
    requires s < q.Length0
    ensures |r| == q.Length1 && forall j :: 0 <= j < q.Length1 ==> r[j] == q[s, j]
  {
    seq(q.Length1, j requires 0 <= j < q.Length1 reads q => q[s, j])
  }

  /** The Q-table as a value. */
  ghost function TableOf(q: array2<real>): (t: Table)
    reads q
    ensures |t| == q.Length0 && forall i :: 0 <= i < q.Length0 ==> t[i] == Row(q, i) && |t[i]| == q.Length1
    ensures forall i, j :: 0 <= i < q.Length0 && 0 <= j < q.Length1 ==> t[i][j] == q[i, j]
  {
    var t := seq(q.Length0, i requires 0 <= i < q.Length0 reads q => Row(q, i));
    assert forall i :: 0 <= i < q.Length0 ==> t[i] == Row(q, i);
    t
  }

  /** A table whose every cell agrees with the array is the array's value. */
  lemma TableOfCells(q: array2<real>, t: Table)
    requires |t| == q.Length0 && forall i :: 0 <= i < |t| ==> |t[i]| == q.Length1
    requires forall i, j :: 0 <= i < q.Length0 && 0 <= j < q.Length1 ==> q[i, j] == t[i][j]
    ensures TableOf(q) == t
  {
    var u := TableOf(q);
    forall i | 0 <= i < |t|
      ensures u[i] == t[i]
    {
      assert |u[i]| == |t[i]|;
    }
  }

  /** `update_Qtable_montecarlo`: drains the memory, last transition first,
      and leaves the table equal to the reference backward pass. */
  method UpdateQTableMonteCarlo(q: array2<real>, memory: Memory) returns (ghost popped: seq<Transition>)
    requires memory.Valid()
    requires forall tr :: tr in memory.buffer ==> tr.state < q.Length0 && tr.action < q.Length1
    modifies q, memory
    ensures memory.Valid() && memory.buffer == []
    ensures popped == Reversed(old(memory.buffer))
    ensures forall i, j :: 0 <= i < q.Length0 && 0 <= j < q.Length1 ==>
      q[i, j] == MonteCarloUpdate(old(TableOf(q)), old(memory.buffer))[i][j]
  {
    ghost var t0 := TableOf(q);
    ghost var mem := memory.buffer;
    var g := 0.0;
    popped := [];
    while memory.Len() > 0
      invariant memory.Valid()
      invariant |memory.buffer| <= |mem| && memory.buffer == mem[..|memory.buffer|]
      invariant g == DiscountedReturn(mem[|memory.buffer|..])
      invariant popped == Reversed(mem[|memory.buffer|..])
      invariant forall i, j :: 0 <= i < q.Length0 && 0 <= j < q.Length1 ==>
        q[i, j] == UpdatedFrom(t0, mem, |memory.buffer|)[i][j]
      decreases |memory.buffer|
    {
      ghost var n := |memory.buffer|;
      var tr := memory.Sample();
      assert tr == mem[n - 1] && tr in mem;
      ReturnStep(mem, n - 1);
      assert mem[n - 1..][1..] == mem[n..];
      g := Gamma * g;
      q[tr.state, tr.action] := q[tr.state, tr.action] + Alpha * (tr.reward + g - q[tr.state, tr.action]);
      g := g + tr.reward;
      popped := popped + [tr];
    }
    assert mem[0..] == mem;
  }
}
