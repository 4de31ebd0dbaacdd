/** The training loop of montecarlo/main.py lifted into a `Trainer` object:
    reward shaping, the per-step bookkeeping, the per-episode Q-table
    update, the rolling window of episode rewards and the "learned" latch.

    The environment is not modelled: what `env.reset` and `env.step` return
    (the observation and the two termination flags), and the two random
    draws of the policy, are inputs. */
module Training {
  import opened Discretizer
  import opened Policy
  import opened EpisodeMemory
  import opened MonteCarlo

  const MaxNumberOfSteps: nat := 200
  const NumConsecutiveIterations: nat := 100
  const NumEpisodes: nat := 2000
  const GoalAverageReward: real := 195.0
  const MemorySize: nat := MaxNumberOfSteps

  /** A termination before this step index is penalised. */
  const PenaltyStepLimit: nat := 195
  const FailurePenalty: real := -200.0
  const StepReward: real := 1.0

  /** The shaped reward of step `t`: -200 for a termination before step
      195, otherwise 1 (whether or not the episode ends). */
  function ShapedReward(terminated: bool, truncated: bool, t: nat): (r: real)
    ensures r == FailurePenalty || r == StepReward
    ensures r == FailurePenalty <==> (terminated || truncated) && t < PenaltyStepLimit
  {
    if terminated || truncated then
      if t < PenaltyStepLimit then FailurePenalty else StepReward
    else
      StepReward
  }

  /** The penalty boundary: a termination at step index 194 is penalised,
      one at step index 195 is not. */
  lemma ShapingBoundary()
    ensures ShapedReward(true, false, 194) == FailurePenalty
    ensures ShapedReward(true, false, 195) == StepReward
    ensures ShapedReward(false, true, 199) == StepReward
  {
  }

  // ---------------------------------------------------------------------
  // Rolling reward window
  // ---------------------------------------------------------------------

  /** `np.hstack((w[1:], x))`: drop the oldest entry, append the newest. */
  function SlideWindow(w: seq<real>, x: real): (r: seq<real>)
    ensures |r| == if w == [] then 1 else |w|
    ensures r[|r| - 1] == x
    ensures forall i :: 0 <= i < |r| - 1 ==> r[i] == w[i + 1]
  {
    if w == [] then [x] else w[1..] + [x]
  }

  /** The window after sliding in the rewards `xs`, oldest first. */
  function Slides(w: seq<real>, xs: seq<real>): seq<real>
    decreases |xs|
  {
    if xs == [] then w else Slides(SlideWindow(w, xs[0]), xs[1..])
  }

  /** A non-empty window of length `n` always holds the `n` most recent
      entries of everything that passed through it. */
  lemma {:induction false} SlidesKeepLatest(w: seq<real>, xs: seq<real>)
    requires w != []
    ensures Slides(w, xs) == (w + xs)[|xs|..]
    decreases |xs|
  {
    if xs == [] {
      assert w + xs == w;
    } else {
      var w1 := SlideWindow(w, xs[0]);
      SlidesKeepLatest(w1, xs[1..]);
      assert w + xs == [w[0]] + (w1 + xs[1..]);
    }
  }

  function Sum(w: seq<real>): real
  {
    if w == [] then 0.0 else w[0] + Sum(w[1..])
  }

  /** The smallest entry of a non-empty window. */
  function MinOf(w: seq<real>): real
    requires w != []
  {
    if |w| == 1 then w[0] else var m := MinOf(w[1..]); if w[0] <= m then w[0] else m
  }

  /** The largest entry of a non-empty window. */
  function MaxOf(w: seq<real>): real
    requires w != []
  {
    if |w| == 1 then w[0] else var m := MaxOf(w[1..]); if m <= w[0] then w[0] else m
  }

  /** `MinOf` and `MaxOf` bound every entry and are entries themselves. */
  lemma {:induction false} MinMaxBound(w: seq<real>)
    requires w != []
    ensures forall i :: 0 <= i < |w| ==> MinOf(w) <= w[i] <= MaxOf(w)
    ensures MinOf(w) in w && MaxOf(w) in w
  {
    if |w| > 1 {
      MinMaxBound(w[1..]);
      forall i | 1 <= i < |w|
        ensures MinOf(w) <= w[i] <= MaxOf(w)
      {
        assert w[i] == w[1..][i - 1];
      }
    }
  }

  /** `total_reward_vec.mean()`: it lies between the window's smallest and
      largest episode reward. */
  function Mean(w: seq<real>): (m: real)
    requires w != []
    ensures MinOf(w) <= m <= MaxOf(w)
  {
    MinMaxBound(w);
    SumAtLeast(w, MinOf(w));
    SumAtMost(w, MaxOf(w));
    DivBetween(Sum(w), |w| as real, MinOf(w), MaxOf(w));
    Sum(w) / (|w| as real)
  }

  /** A window whose entries are all at least `lo` totals at least
      `|w| * lo`. */
  lemma {:induction false} SumAtLeast(w: seq<real>, lo: real)
    requires forall i :: 0 <= i < |w| ==> lo <= w[i]
    ensures (|w| as real) * lo <= Sum(w)
  {
    if w != [] {
      var rest := w[1..];
      assert forall i :: 0 <= i < |rest| ==> lo <= rest[i];
      SumAtLeast(rest, lo);
      OneMore(|rest| as real, lo);
      assert |w| as real == |rest| as real + 1.0;
    }
  }

  /** A window whose entries are all at most `hi` totals at most
      `|w| * hi`. */
  lemma {:induction false} SumAtMost(w: seq<real>, hi: real)
    requires forall i :: 0 <= i < |w| ==> w[i] <= hi
    ensures Sum(w) <= (|w| as real) * hi
  {
    if w != [] {
      var rest := w[1..];
      assert forall i :: 0 <= i < |rest| ==> rest[i] <= hi;
      SumAtMost(rest, hi);
      OneMore(|rest| as real, hi);
      assert |w| as real == |rest| as real + 1.0;
    }
  }

  lemma OneMore(c: real, x: real)
    ensures (c + 1.0) * x == x + c * x
  {
  }

  lemma DivBetween(s: real, n: real, lo: real, hi: real)
    requires n > 0.0 && n * lo <= s <= n * hi
    ensures lo <= s / n <= hi
  {
    var q := s / n;
    assert n * q == s;
    assert n * (q - lo) == s - n * lo;
    assert n * (hi - q) == n * hi - s;
  }

  lemma {:induction false} SumConcat(a: seq<real>, b: seq<real>)
    ensures Sum(a + b) == Sum(a) + Sum(b)
  {
    if a == [] {
      assert a + b == b;
    } else {
      SumConcat(a[1..], b);
      assert (a + b)[1..] == a[1..] + b;
    }
  }

  /** The running total moves by the newest reward less the evicted one. */
  lemma SumOfSlide(w: seq<real>, x: real)
    requires w != []
    ensures Sum(SlideWindow(w, x)) == Sum(w) - w[0] + x
  {
    SumConcat(w[1..], [x]);
    assert Sum([x]) == x;
  }

  // ---------------------------------------------------------------------
  // What an episode receives
  // ---------------------------------------------------------------------

  /** What `env.step` reports for one step, with the policy's two draws. */
  datatype StepOutcome = StepOutcome(
    observation: Observation,
    terminated: bool,
    truncated: bool,
    draw: real,
    randomAction: Action)

  /** What one episode receives: the observation of `env.reset` and one
      outcome per step of the step budget. */
  datatype EpisodeInput = EpisodeInput(initial: Observation, steps: seq<StepOutcome>)

  predicate Ends(o: StepOutcome)
  {
    o.terminated || o.truncated
  }

  /** The step at which the episode ends: the first whose outcome is
      terminated or truncated, or the step budget when none is. */
  function FirstEnd(steps: seq<StepOutcome>): (n: nat)
    ensures n <= |steps|
    ensures forall i :: 0 <= i < n ==> !Ends(steps[i])
    ensures n < |steps| ==> Ends(steps[n])
  {
    if steps == [] || Ends(steps[0]) then 0 else 1 + FirstEnd(steps[1..])
  }

  /** The reward of an episode that ends at step `n`: one per step before
      it plus the shaped reward of step `n`, that is `n + 1` when `n >= 195`
      and `n - 200` for an earlier failure. */
  function EpisodeReward(steps: seq<StepOutcome>): (x: real)
    requires FirstEnd(steps) < |steps|
    ensures var n := FirstEnd(steps);
      x == if n < PenaltyStepLimit then n as real - 200.0 else n as real + 1.0
  {
    var n := FirstEnd(steps);
    var o := steps[n];
    n as real + ShapedReward(o.terminated, o.truncated, n)
  }

  // ---------------------------------------------------------------------
  // One episode and the episode loop, on values
  // ---------------------------------------------------------------------

  /** The learning half of the trainer: the Q-table and the memory's
      deque. */
  datatype Learner = Learner(table: Table, buffer: seq<Transition>)

  /** The bookkeeping half: the reward window, the learned flag and
      `final_x`. Nothing in it feeds back into learning. */
  datatype Log = Log(window: seq<real>, learned: bool, finalX: seq<real>)

  predicate TableShaped(t: Table)
  {
    |t| == Pow(NumDigitized, NumComponents) && forall i :: 0 <= i < |t| ==> |t[i]| == NumActions
  }

  predicate LearnerOk(l: Learner)
  {
    TableShaped(l.table) && Fits(l.table, l.buffer) && |l.buffer| <= MemorySize
  }

  predicate LogOk(g: Log)
  {
    |g.window| == NumConsecutiveIterations && |g.finalX| == NumEpisodes
  }

  /** The discretised state in which step `i` acts: that of the reset
      observation for step 0, otherwise that of step `i - 1`'s observation. */
  function StateAt(input: EpisodeInput, i: nat): (s: nat)
    requires i <= |input.steps|
    ensures s < Pow(NumDigitized, NumComponents)
  {
    DigitizeState(if i == 0 then input.initial else input.steps[i - 1].observation, NumDigitized)
  }

  /** The action step `i` takes under table `t`: greedy for step 0, then
      `get_action` with the draws reported by the previous step. */
  function ActionAt(t: Table, input: EpisodeInput, episode: nat, i: nat): (a: Action)
    requires TableShaped(t) && i <= |input.steps|
    ensures i == 0 || Epsilon(episode) <= input.steps[i - 1].draw ==> FirstMaximum(t[StateAt(input, i)], a)
    ensures i > 0 && input.steps[i - 1].draw < Epsilon(episode) ==> a == input.steps[i - 1].randomAction
  {
    var row := t[StateAt(input, i)];
    if i == 0 then Greedy(row)
    else GetAction(row, episode, input.steps[i - 1].draw, input.steps[i - 1].randomAction)
  }

  /** The transition step `i` records under table `t`. */
  function TransitionAt(t: Table, input: EpisodeInput, episode: nat, i: nat): (tr: Transition)
    requires TableShaped(t) && i < |input.steps|
    ensures tr.state < |t| && tr.action < |t[tr.state]|
  {
    var o := input.steps[i];
    Transition(StateAt(input, i), ActionAt(t, input, episode, i), ShapedReward(o.terminated, o.truncated, i))
  }

  /** The transitions the first `n` steps record under table `t`, which the
      episode does not change before its last step. */
  function Recorded(t: Table, input: EpisodeInput, episode: nat, n: nat): (r: seq<Transition>)
    requires TableShaped(t) && n <= |input.steps|
    ensures |r| == n
  {
    if n == 0 then [] else Recorded(t, input, episode, n - 1) + [TransitionAt(t, input, episode, n - 1)]
  }

  /** Entry `i` of the recording is step `i`'s transition. */
  lemma {:induction false} RecordedAt(t: Table, input: EpisodeInput, episode: nat, n: nat, i: nat)
    requires TableShaped(t) && i < n <= |input.steps|
    ensures Recorded(t, input, episode, n)[i] == TransitionAt(t, input, episode, i)
  {
    if i < n - 1 {
      RecordedAt(t, input, episode, n - 1, i);
    }
  }

  /** Every recorded transition names a cell of the table. */
  lemma RecordedFits(t: Table, input: EpisodeInput, episode: nat, n: nat)
    requires TableShaped(t) && n <= |input.steps|
    ensures Fits(t, Recorded(t, input, episode, n))
  {
    var r := Recorded(t, input, episode, n);
    forall tr | tr in r
      ensures tr.state < |t| && tr.action < |t[tr.state]|
    {
      var i :| 0 <= i < |r| && r[i] == tr;
      RecordedAt(t, input, episode, n, i);
    }
  }

  /** Recording one more step appends its transition to the memory. */
  lemma RecordOneMore(b: seq<Transition>, t: Table, input: EpisodeInput, episode: nat, n: nat)
    requires TableShaped(t) && n < |input.steps|
    ensures Appended(Newest(b + Recorded(t, input, episode, n), MemorySize), TransitionAt(t, input, episode, n), MemorySize)
         == Newest(b + Recorded(t, input, episode, n + 1), MemorySize)
  {
    var tr := TransitionAt(t, input, episode, n);
    assert b + Recorded(t, input, episode, n + 1) == b + Recorded(t, input, episode, n) + [tr];
    NewestSnoc(b + Recorded(t, input, episode, n), tr, MemorySize);
  }

  /** The memory once steps `0..n-1` have been recorded into a memory
      holding `b`: the newest `MemorySize` of `b` followed by the steps'
      transitions. */
  function MemoryAfter(b: seq<Transition>, t: Table, input: EpisodeInput, episode: nat, n: nat): (r: seq<Transition>)
    requires TableShaped(t) && Fits(t, b) && n <= |input.steps|
    ensures |r| <= MemorySize && Fits(t, r)
  {
    RecordedFits(t, input, episode, n);
    Newest(b + Recorded(t, input, episode, n), MemorySize)
  }

  /** The step loop from step `i` on, given the memory before step `i`:
      each step appends its transition; the first step that ends the episode
      runs the Monte Carlo update over the memory, which drains it; a run
      that uses up the step budget leaves the table as it was. */
  function StepsFrom(t: Table, buf: seq<Transition>, input: EpisodeInput, episode: nat, i: nat): (r: Learner)
    requires TableShaped(t) && Fits(t, buf) && |buf| <= MemorySize && i <= |input.steps|
    ensures TableShaped(r.table) && Fits(r.table, r.buffer) && |r.buffer| <= MemorySize
    decreases |input.steps| - i
  {
    if i == |input.steps| then Learner(t, buf)
    else
      var mem := Appended(buf, TransitionAt(t, input, episode, i), MemorySize);
      if Ends(input.steps[i]) then Learner(MonteCarloUpdate(t, mem), [])
      else StepsFrom(t, mem, input, episode, i + 1)
  }

  /** The step loop as a whole: an episode that ends at step `n` runs the
      update over the memory holding its steps `0..n` after what was there
      before (the newest 200 of them), and empties it; one that uses up the
      step budget leaves the table as it was and its transitions in the
      memory. */
  lemma {:induction false} StepsFromClosedForm(t: Table, b: seq<Transition>, input: EpisodeInput, episode: nat, i: nat)
    requires TableShaped(t) && Fits(t, b) && i <= FirstEnd(input.steps)
    ensures FirstEnd(input.steps) < |input.steps| ==>
      StepsFrom(t, MemoryAfter(b, t, input, episode, i), input, episode, i) ==
      Learner(MonteCarloUpdate(t, MemoryAfter(b, t, input, episode, FirstEnd(input.steps) + 1)), [])
    ensures FirstEnd(input.steps) == |input.steps| ==>
      StepsFrom(t, MemoryAfter(b, t, input, episode, i), input, episode, i) ==
      Learner(t, MemoryAfter(b, t, input, episode, |input.steps|))
    decreases |input.steps| - i
  {
    var n := FirstEnd(input.steps);
    if i < |input.steps| {
      var mem := MemoryAfter(b, t, input, episode, i);
      var next := MemoryAfter(b, t, input, episode, i + 1);
      RecordOneMore(b, t, input, episode, i);
      assert Appended(mem, TransitionAt(t, input, episode, i), MemorySize) == next;
      if Ends(input.steps[i]) {
        assert n == i;
      } else {
        StepsFromClosedForm(t, b, input, episode, i + 1);
        assert StepsFrom(t, mem, input, episode, i) == StepsFrom(t, next, input, episode, i + 1);
      }
    } else {
      assert n == i;
    }
  }

  /** What one episode does to the table and the memory. */
  function EpisodeLearner(l: Learner, input: EpisodeInput, episode: nat): (r: Learner)
    requires LearnerOk(l) && |input.steps| == MaxNumberOfSteps
    ensures LearnerOk(r)
  {
    StepsFrom(l.table, l.buffer, input, episode, 0)
  }

  /** What one episode does to the bookkeeping: an episode that ends at
      step `n` slides its reward into the window and, once learned, logs the
      cart position of step `n` in its own row of `final_x`; one that uses up
      the step budget changes nothing. */
  function EpisodeLog(g: Log, steps: seq<StepOutcome>, episode: nat): (r: Log)
    requires LogOk(g) && episode < NumEpisodes
    ensures LogOk(r) && r.learned == g.learned
    ensures forall e :: 0 <= e < NumEpisodes && e != episode ==> r.finalX[e] == g.finalX[e]
  {
    var n := FirstEnd(steps);
    if n == |steps| then g
    else
      g.(window := SlideWindow(g.window, EpisodeReward(steps)),
         finalX := if g.learned then g.finalX[episode := steps[n].observation.cartPos] else g.finalX)
  }

  /** The check after each episode: the flag is set exactly when it was
      set already or the window mean reaches the goal. */
  function Checked(g: Log): (r: Log)
    requires LogOk(g)
    ensures LogOk(r) && r.window == g.window && r.finalX == g.finalX
    ensures r.learned <==> g.learned || Mean(g.window) >= GoalAverageReward
  {
    g.(learned := g.learned || Mean(g.window) >= GoalAverageReward)
  }

  predicate FullEpisodes(episodes: seq<EpisodeInput>)
  {
    |episodes| <= NumEpisodes && forall e :: 0 <= e < |episodes| ==> |episodes[e].steps| == MaxNumberOfSteps
  }

  /** The table and the memory after the first `n` episodes. */
  function LearnerAfter(l: Learner, episodes: seq<EpisodeInput>, n: nat): (r: Learner)
    requires LearnerOk(l) && FullEpisodes(episodes) && n <= |episodes|
    ensures LearnerOk(r)
  {
    if n == 0 then l else EpisodeLearner(LearnerAfter(l, episodes, n - 1), episodes[n - 1], n - 1)
  }

  /** The bookkeeping after the first `n` iterations of the episode loop,
      each an episode followed by the check. */
  function LogAfter(g: Log, episodes: seq<EpisodeInput>, n: nat): (r: Log)
    requires LogOk(g) && FullEpisodes(episodes) && n <= |episodes|
    ensures LogOk(r)
  {
    if n == 0 then g else Checked(EpisodeLog(LogAfter(g, episodes, n - 1), episodes[n - 1].steps, n - 1))
  }

  /** The flag after episode `n` is set exactly when it was set before the
      episode or the window that episode leaves has a mean of at least the
      goal. */
  lemma LearnedAfterEpisode(g: Log, episodes: seq<EpisodeInput>, n: nat)
    requires LogOk(g) && FullEpisodes(episodes) && n < |episodes|
    ensures LogAfter(g, episodes, n + 1).learned <==>
      LogAfter(g, episodes, n).learned || Mean(LogAfter(g, episodes, n + 1).window) >= GoalAverageReward
  {
    var ep := EpisodeLog(LogAfter(g, episodes, n), episodes[n].steps, n);
    assert LogAfter(g, episodes, n + 1) == Checked(ep);
  }

  /** Once learned, the trainer stays learned for the rest of the run. */
  lemma {:induction false} LearnedStaysLearned(g: Log, episodes: seq<EpisodeInput>, m: nat, n: nat)
    requires LogOk(g) && FullEpisodes(episodes) && m <= n <= |episodes|
    requires LogAfter(g, episodes, m).learned
    ensures LogAfter(g, episodes, n).learned
    decreases n
  {
    if m < n {
      LearnedStaysLearned(g, episodes, m, n - 1);
      var ep := EpisodeLog(LogAfter(g, episodes, n - 1), episodes[n - 1].steps, n - 1);
      assert ep.learned;
      assert LogAfter(g, episodes, n) == Checked(ep);
    }
  }

  /** The trainer turns learned only after an episode whose window mean
      reaches the goal: a run that starts unlearned and ends learned has
      such an episode, the one where the flag turned on. */
  lemma {:induction false} LearnedOnlyByGoal(g: Log, episodes: seq<EpisodeInput>, n: nat) returns (e: nat)
    requires LogOk(g) && FullEpisodes(episodes) && n <= |episodes|
    requires !g.learned && LogAfter(g, episodes, n).learned
    ensures e < n && !LogAfter(g, episodes, e).learned && LogAfter(g, episodes, e + 1).learned
    ensures Mean(LogAfter(g, episodes, e + 1).window) >= GoalAverageReward
    decreases n
  {
    if LogAfter(g, episodes, n - 1).learned {
      e := LearnedOnlyByGoal(g, episodes, n - 1);
    } else {
      e := n - 1;
    }
  }

  /** Row `e` of `final_x` is written only by episode `e`, and only when
      that episode began learned and ended before the step budget ran out:
      then it holds the cart position of the ending step; otherwise it keeps
      its initial value. */
  lemma FinalXRow(g: Log, episodes: seq<EpisodeInput>, n: nat, e: nat)
    requires LogOk(g) && FullEpisodes(episodes) && n <= |episodes| && e < NumEpisodes
    ensures LogAfter(g, episodes, n).finalX[e] ==
      if e < n && LogAfter(g, episodes, e).learned && FirstEnd(episodes[e].steps) < MaxNumberOfSteps
      then episodes[e].steps[FirstEnd(episodes[e].steps)].observation.cartPos
      else g.finalX[e]
  {
    if e < n {
      RowUntouched(g, episodes, e, e);
      EpisodeLogRow(LogAfter(g, episodes, e), episodes[e].steps, e, e);
      RowKept(g, episodes, e + 1, n, e);
    } else {
      RowUntouched(g, episodes, n, e);
    }
  }

  /** The episodes before episode `e` leave row `e` alone. */
  lemma {:induction false} RowUntouched(g: Log, episodes: seq<EpisodeInput>, n: nat, e: nat)
    requires LogOk(g) && FullEpisodes(episodes) && n <= |episodes| && n <= e < NumEpisodes
    ensures LogAfter(g, episodes, n).finalX[e] == g.finalX[e]
  {
    if n > 0 {
      RowUntouched(g, episodes, n - 1, e);
      EpisodeLogRow(LogAfter(g, episodes, n - 1), episodes[n - 1].steps, n - 1, e);
    }
  }

  /** The episodes after episode `e` leave row `e` alone. */
  lemma {:induction false} RowKept(g: Log, episodes: seq<EpisodeInput>, m: nat, n: nat, e: nat)
    requires LogOk(g) && FullEpisodes(episodes) && e < m <= n <= |episodes|
    ensures LogAfter(g, episodes, n).finalX[e] == LogAfter(g, episodes, m).finalX[e]
    decreases n
  {
    if m < n {
      RowKept(g, episodes, m, n - 1, e);
      var ep := EpisodeLog(LogAfter(g, episodes, n - 1), episodes[n - 1].steps, n - 1);
      EpisodeLogRow(LogAfter(g, episodes, n - 1), episodes[n - 1].steps, n - 1, e);
      assert LogAfter(g, episodes, n) == Checked(ep);
    }
  }

  /** One episode writes at most its own row of `final_x`. */
  lemma EpisodeLogRow(g: Log, steps: seq<StepOutcome>, episode: nat, e: nat)
    requires LogOk(g) && episode < NumEpisodes && e < NumEpisodes
    ensures EpisodeLog(g, steps, episode).finalX[e] ==
      if e == episode && g.learned && FirstEnd(steps) < |steps|
      then steps[FirstEnd(steps)].observation.cartPos else g.finalX[e]
  {
  }

  /** An episode that starts from an empty memory and ends at step `n`
      updates the table from exactly its own `n + 1` transitions, in order:
      the memory holds 200 and an episode has at most 200 steps, so nothing
      is evicted. */
  lemma FreshEpisodeUpdate(l: Learner, input: EpisodeInput, episode: nat)
    requires LearnerOk(l) && |input.steps| == MaxNumberOfSteps
    requires l.buffer == [] && FirstEnd(input.steps) < MaxNumberOfSteps
    ensures var n := FirstEnd(input.steps);
      Fits(l.table, Recorded(l.table, input, episode, n + 1)) &&
      EpisodeLearner(l, input, episode) ==
      Learner(MonteCarloUpdate(l.table, Recorded(l.table, input, episode, n + 1)), [])
  {
    var n := FirstEnd(input.steps);
    var rec := Recorded(l.table, input, episode, n + 1);
    StepsFromClosedForm(l.table, [], input, episode, 0);
    assert [] + Recorded(l.table, input, episode, 0) == [];
    assert [] + rec == rec;
    RecordedFits(l.table, input, episode, n + 1);
  }

  /** An episode that uses up the step budget leaves the table as it was
      and all 200 of its transitions in the memory. */
  lemma RunOutEpisode(l: Learner, input: EpisodeInput, episode: nat)
    requires LearnerOk(l) && |input.steps| == MaxNumberOfSteps
    requires FirstEnd(input.steps) == MaxNumberOfSteps
    ensures EpisodeLearner(l, input, episode) ==
      Learner(l.table, Newest(l.buffer + Recorded(l.table, input, episode, MaxNumberOfSteps), MemorySize))
  {
    StepsFromClosedForm(l.table, l.buffer, input, episode, 0);
    assert l.buffer + Recorded(l.table, input, episode, 0) == l.buffer;
  }

  // ---------------------------------------------------------------------
  // The trainer
  // ---------------------------------------------------------------------

  class Trainer {
    const qTable: array2<real>
    const memory: Memory
    /** `final_x`: the cart position at the end of each episode. */
    const finalX: array<real>
    var totalRewardVec: seq<real>
    var isLearned: bool
    var isRender: bool
    var state: nat
    var action: Action
    var episodeReward: real

    ghost predicate Valid()
      reads this, memory
    {
      qTable.Length0 == Pow(NumDigitized, NumComponents) && qTable.Length1 == NumActions &&
      memory.Valid() && memory.maxSize == MemorySize &&
      (forall tr :: tr in memory.buffer ==> tr.state < qTable.Length0 && tr.action < qTable.Length1) &&
      |totalRewardVec| == NumConsecutiveIterations &&
      finalX.Length == NumEpisodes &&
      state < qTable.Length0 &&
      isRender == isLearned
    }

    /** The learning state that survives from one episode to the next. */
    ghost function LearnerOf(): (l: Learner)
      reads this, memory, qTable
      requires Valid()
      ensures LearnerOk(l)
    {
      Learner(TableOf(qTable), memory.buffer)
    }

    /** The bookkeeping that survives from one episode to the next. */
    ghost function LogOf(): (g: Log)
      reads this, memory, finalX
      requires Valid()
      ensures LogOk(g)
    {
      Log(totalRewardVec, isLearned, finalX[..])
    }

    /** The module-level set-up, from a given initial table. */
    constructor (q: array2<real>)
      requires q.Length0 == Pow(NumDigitized, NumComponents) && q.Length1 == NumActions
      ensures Valid() && qTable == q && fresh(memory) && fresh(finalX)
      ensures memory.buffer == [] && totalRewardVec == seq(NumConsecutiveIterations, _ => 0.0)
      ensures !isLearned && !isRender
      ensures forall e :: 0 <= e < finalX.Length ==> finalX[e] == 0.0
    {
      qTable := q;
      memory := new Memory(MemorySize);
      finalX := new real[NumEpisodes](_ => 0.0);
      totalRewardVec := seq(NumConsecutiveIterations, _ => 0.0);
      isLearned, isRender := false, false;
      state, action, episodeReward := 0, 0, 0.0;
    }

    /** Episode start: discretise the reset observation, act greedily. */
    method BeginEpisode(initial: Observation)
      requires Valid()
      modifies this
      ensures Valid()
      ensures state == DigitizeState(initial, NumDigitized)
      ensures action == Greedy(TableOf(qTable)[state]) && episodeReward == 0.0
      ensures totalRewardVec == old(totalRewardVec)
      ensures isLearned == old(isLearned) && isRender == old(isRender)
    {
      state := DigitizeState(initial, NumDigitized);
      action := Greedy(Row(qTable, state));
      episodeReward := 0.0;
    }

    /** One pass of the step loop: shape the reward, record the transition,
        choose the next action and, when the episode ends, update the table,
        slide the window and log the final cart position once learned. */
    method Step(episode: nat, t: nat, o: StepOutcome) returns (finished: bool)
      requires Valid() && episode < finalX.Length
      modifies this, memory, qTable, finalX
      ensures Valid()
      ensures finished == Ends(o)
      ensures isLearned == old(isLearned) && isRender == old(isRender)
      ensures state == DigitizeState(o.observation, NumDigitized)
      ensures action == GetAction(old(TableOf(qTable))[state], episode, o.draw, o.randomAction)
      ensures episodeReward == old(episodeReward) + ShapedReward(o.terminated, o.truncated, t)
      ensures var recorded := Appended(old(memory.buffer),
                Transition(old(state), old(action), ShapedReward(o.terminated, o.truncated, t)), MemorySize);
        if finished then
          memory.buffer == [] &&
          totalRewardVec == SlideWindow(old(totalRewardVec), episodeReward) &&
          TableOf(qTable) == MonteCarloUpdate(old(TableOf(qTable)), recorded)
        else
          memory.buffer == recorded && totalRewardVec == old(totalRewardVec) && unchanged(qTable)
      ensures finalX[..] == if finished && isLearned
        then old(finalX[..])[episode := o.observation.cartPos] else old(finalX[..])
    {
      var reward := ShapedReward(o.terminated, o.truncated, t);
      memory.Add(Transition(state, action, reward));
      var nextState := DigitizeState(o.observation, NumDigitized);
      var nextAction := GetAction(Row(qTable, nextState), episode, o.draw, o.randomAction);
      action := nextAction;
      state := nextState;
      episodeReward := episodeReward + reward;
      finished := o.terminated || o.truncated;
      if finished {
        EndEpisode(episode, o.observation.cartPos);
      }
    }

    /** The end of an episode: update the table from the memory (which
        empties it), slide the episode reward into the window and, once
        learned, log the final cart position in the episode's row. */
    method EndEpisode(episode: nat, cartPos: real)
      requires Valid() && episode < finalX.Length
      modifies this, memory, qTable, finalX
      ensures Valid()
      ensures memory.buffer == [] && TableOf(qTable) == MonteCarloUpdate(old(TableOf(qTable)), old(memory.buffer))
      ensures totalRewardVec == SlideWindow(old(totalRewardVec), episodeReward)
      ensures finalX[..] == if isLearned then old(finalX[..])[episode := cartPos] else old(finalX[..])
      ensures isLearned == old(isLearned) && isRender == old(isRender)
      ensures state == old(state) && action == old(action) && episodeReward == old(episodeReward)
    {
      ghost var t0 := TableOf(qTable);
      ghost var recorded := memory.buffer;
      ghost var popped := UpdateQTableMonteCarlo(qTable, memory);
      TableOfCells(qTable, MonteCarloUpdate(t0, recorded));
      totalRewardVec := SlideWindow(totalRewardVec, episodeReward);
      if isLearned {
        finalX[episode] := cartPos;
      }
    }

    /** The trainer is about to run step `t` of the episode `input` that
        began from the learning state `l0` and bookkeeping `g0`: no step
        before `t` ended it, the table and the bookkeeping are those it began
        with, the state and action are those of step `t`, and what is left of
        the step loop leads to `after`. */
    ghost predicate AtStep(episode: nat, input: EpisodeInput, t: nat, l0: Learner, g0: Log, after: Learner)
      reads this, memory, qTable, finalX
    {
      Valid() && LearnerOk(l0) &&
      t <= |input.steps| && t <= FirstEnd(input.steps) && episodeReward == t as real &&
      LogOf() == g0 && TableOf(qTable) == l0.table &&
      state == StateAt(input, t) && action == ActionAt(l0.table, input, episode, t) &&
      Fits(l0.table, memory.buffer) && StepsFrom(l0.table, memory.buffer, input, episode, t) == after
    }

    /** `Step` at step `t` of an episode, seen against the episode's
        specification: it either is the episode's first ending step and
        leaves the table, memory and bookkeeping that `EpisodeLearner` and
        `EpisodeLog` predict, or moves the trainer on to step `t + 1`. */
    method StepWithin(episode: nat, input: EpisodeInput, t: nat, ghost l0: Learner, ghost g0: Log, ghost after: Learner)
      returns (finished: bool)
      requires episode < finalX.Length && |input.steps| == MaxNumberOfSteps && t < MaxNumberOfSteps
      requires AtStep(episode, input, t, l0, g0, after)
      modifies this, memory, qTable, finalX
      ensures Valid() && isRender == old(isRender)
      ensures finished == (t == FirstEnd(input.steps))
      ensures finished ==>
        LearnerOf() == after && LogOf() == EpisodeLog(g0, input.steps, episode) &&
        episodeReward == EpisodeReward(input.steps)
      ensures !finished ==> AtStep(episode, input, t + 1, l0, g0, after)
    {
      ghost var mem := Appended(memory.buffer, TransitionAt(l0.table, input, episode, t), MemorySize);
      finished := Step(episode, t, input.steps[t]);
      if finished {
        assert FirstEnd(input.steps) == t;
        assert after == Learner(MonteCarloUpdate(l0.table, mem), []);
        assert episodeReward == EpisodeReward(input.steps);
        assert LogOf() == g0.(window := SlideWindow(g0.window, EpisodeReward(input.steps)),
          finalX := if g0.learned then g0.finalX[episode := input.steps[t].observation.cartPos] else g0.finalX);
      } else {
        assert FirstEnd(input.steps) != t;
      }
    }

    /** One episode: at most `MaxNumberOfSteps` steps, stopping at the first
        step whose outcome ends the episode; its effect is `EpisodeLearner`
        on the table and memory and `EpisodeLog` on the bookkeeping. */
    method RunEpisode(episode: nat, initial: Observation, steps: seq<StepOutcome>) returns (t: nat, finished: bool)
      requires Valid() && episode < finalX.Length && |steps| == MaxNumberOfSteps
      modifies this, memory, qTable, finalX
      ensures Valid()
      ensures LearnerOf() == EpisodeLearner(old(LearnerOf()), EpisodeInput(initial, steps), episode)
      ensures LogOf() == EpisodeLog(old(LogOf()), steps, episode)
      ensures isRender == old(isRender)
      ensures t == FirstEnd(steps) && finished == (t < MaxNumberOfSteps)
      ensures episodeReward == if finished then EpisodeReward(steps) else MaxNumberOfSteps as real
    {
      ghost var l0, g0 := LearnerOf(), LogOf();
      var input := EpisodeInput(initial, steps);
      ghost var after := EpisodeLearner(l0, input, episode);
      BeginEpisode(initial);
      t := 0;
      finished := false;
      while t < MaxNumberOfSteps
        invariant AtStep(episode, input, t, l0, g0, after)
        invariant !finished && isRender == old(isRender)
      {
        finished := StepWithin(episode, input, t, l0, g0, after);
        if finished {
          break;
        }
        t := t + 1;
      }
      if !finished {
        assert FirstEnd(steps) == t;
        assert after == Learner(l0.table, memory.buffer);
      }
    }

    /** The post-episode check: latch `isLearned` (and `isRender` with it)
        once the window mean reaches the goal; never clear it. */
    method CheckLearned()
      requires Valid()
      modifies this
      ensures Valid()
      ensures LogOf() == Checked(old(LogOf())) && LearnerOf() == old(LearnerOf())
      ensures state == old(state) && action == old(action) && episodeReward == old(episodeReward)
    {
      if Mean(totalRewardVec) >= GoalAverageReward {
        isLearned := true;
        if !isRender {
          isRender := true;
        }
      }
    }

    /** The episode loop: its effect is `LearnerAfter` and `LogAfter` over
        all the episodes. */
    method Train(episodes: seq<EpisodeInput>)
      requires Valid() && |episodes| == finalX.Length && FullEpisodes(episodes)
      modifies this, memory, qTable, finalX
      ensures Valid()
      ensures LearnerOf() == LearnerAfter(old(LearnerOf()), episodes, |episodes|)
      ensures LogOf() == LogAfter(old(LogOf()), episodes, |episodes|)
      ensures old(isLearned) ==> isLearned
    {
      for episode := 0 to |episodes|
        invariant Valid()
        invariant LearnerOf() == LearnerAfter(old(LearnerOf()), episodes, episode)
        invariant LogOf() == LogAfter(old(LogOf()), episodes, episode)
      {
        ghost var l, g := LearnerOf(), LogOf();
        var t, finished := RunEpisode(episode, episodes[episode].initial, episodes[episode].steps);
        assert EpisodeInput(episodes[episode].initial, episodes[episode].steps) == episodes[episode];
        assert LearnerOf() == EpisodeLearner(l, episodes[episode], episode);
        ghost var g' := LogOf();
        CheckLearned();
        assert LogOf() == Checked(g');
      }
      if old(isLearned) {
        LearnedStaysLearned(old(LogOf()), episodes, 0, |episodes|);
      }
    }
  }
}
