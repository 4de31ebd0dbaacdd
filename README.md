# Tabular Monte Carlo CartPole trainer, modelled in Dafny

This project models the learning core of a tabular Monte Carlo control
trainer for the CartPole (inverted pendulum on a cart) task, as written in
`montecarlo/main.py`:

- **Discretizer** (`discretizer.dfy`, module `Discretizer`): each of the four
  observation components (cart position, cart velocity, pole angle, pole
  angular velocity) is clipped into one of `d` bins by the `d - 1` interior
  points of `linspace(lo, hi, d + 1)`; the bin index is numpy's `digitize`
  (the number of boundaries at most the value); the four indices are packed
  into one state as a base-`d` number with the cart position as least
  significant digit. Values are exact `real`s and `d` is a parameter; the
  trainer uses `d = 6`.
- **Policy** (`policy.dfy`, module `Policy`): epsilon-greedy selection with
  `epsilon = 0.5 / (episode + 1)`; the uniform draw and the random fallback
  action are inputs; the greedy choice is `np.argmax` over the state's row
  (first index of the maximum).
- **Episode memory** (`memory.dfy`, module `EpisodeMemory`): the
  `deque(maxlen=max_size)` of `(state, action, reward)` transitions as a
  class whose `buffer` field (a `seq`) is reassigned by `Add` (append,
  evicting the oldest when full) and `Sample` (pop the newest).
- **Monte Carlo update** (`montecarlo.dfy`, module `MonteCarlo`): the method
  drains the memory backward keeping the discounted accumulator `g` and
  updates the `array2` Q-table in place; it is proved equal to a reference
  backward pass (`UpdatedFrom`) that recomputes every discounted return from
  scratch. The loop invariant is that after the last `k` transitions have
  been popped, `g` is the discounted return of those `k` rewards.
- **Training loop** (`trainer.dfy`, module `Training`): the module-level
  state becomes a `Trainer` object (`qTable`, `totalRewardVec`, `isLearned`,
  `isRender`, `finalX`, the memory, and the loop variables `state`, `action`,
  `episodeReward`); its methods are the episode start, one pass of the step
  loop (reward shaping, recording, next action, end-of-episode update,
  window slide and `final_x` write), one episode, the post-episode
  "learned" latch and the episode loop. The environment's outputs (reset
  observation, step observation and the two termination flags) and the
  policy's draws are parameters.

What survives from one episode to the next splits in two. The `Learner`
(Q-table and memory) is what learning reads and writes; the `Log` (reward
window, learned flag and `final_x`) is bookkeeping that never feeds back into
learning. `EpisodeLearner` and `EpisodeLog` say on values what one episode
does to each, and `LearnerAfter` and `LogAfter` what the episode loop does.
`Trainer.RunEpisode` and `Trainer.Train` are proved to have exactly those
effects on the object's fields. The lemmas beside them give the closed
forms:
- an ending episode runs the Monte Carlo update over the newest 200 of the
  memory's old contents and its own steps `0..n` taken together, and
  empties the memory;
- an episode that uses up the step budget leaves the table alone and its
  200 transitions in the memory;
- the learned flag turns on only after an episode whose window mean
  reaches 195, and never turns off;
- row `e` of `final_x` holds the last cart position of episode `e` exactly
  when that episode began learned and ended before the budget ran out.

The reward shaping follows the code: a termination at step index `t` is
penalised with -200 exactly when `t < 195`, so index 194 is penalised and
195 is not (`Training.ShapingBoundary`).

## Model

| member | source | states |
|---|---|---|
| `Discretizer.Boundary` | montecarlo/main.py:10-11 | the last `linspace` point is `hi` itself, and for `lo < hi` every earlier interior point lies strictly inside `(lo, hi)` |
| `Discretizer.Bins` | montecarlo/main.py:10-11 | `bins(lo, hi, d)` has exactly `d - 1` boundaries |
| `Discretizer.BinsInterior` | montecarlo/main.py:10-11 | for `lo < hi` every boundary lies strictly inside `(lo, hi)` and the boundaries strictly increase |
| `Discretizer.Digitize` | montecarlo/main.py:18-21 | the bin index of a value is at most the number of boundaries, so it lies in `[0, d - 1]` |
| `Discretizer.DigitizeBracket` | montecarlo/main.py:18-21 | on sorted boundaries the index `k` satisfies numpy's `bins[k-1] <= x < bins[k]` |
| `Discretizer.DigitizeIsBracketIndex` | montecarlo/main.py:18-21 | the bracket condition holds for `k` if and only if `k` is the bin index (both directions) |
| `Discretizer.DigitizeMonotone` | montecarlo/main.py:18-21 | raising the value never lowers its bin index |
| `Discretizer.EncodeHorner` | montecarlo/main.py:23 | the weighted sum `sum(x * d**i)` equals the Horner form `ds[0] + d * rest` |
| `Discretizer.Encode` | montecarlo/main.py:23 | the weighted sum `sum(x * d**i)` of digits below `d` is a state below `d^n` |
| `Discretizer.Decode` | montecarlo/main.py:23 | base-`d` decoding yields `n` digits, each below `d` |
| `Discretizer.DecodeEncode` | montecarlo/main.py:23 | decoding a packed state returns the original digits |
| `Discretizer.EncodeInjective` | montecarlo/main.py:23 | distinct digit vectors of equal length give distinct states |
| `Discretizer.EncodeMonotone` | montecarlo/main.py:23 | raising one digit with the others fixed never lowers the state |
| `Discretizer.DigitOf` | montecarlo/main.py:17-22 | each component's digit, against its own clip range, is below `d` |
| `Discretizer.Digits` | montecarlo/main.py:16-22 | the `digitized` list has four digits, each below `d` |
| `Discretizer.DigitizeState` | montecarlo/main.py:15-23 | `digitize_state` always returns a state in `[0, d^4)` |
| `Discretizer.DigitizeStateDecodes` | montecarlo/main.py:15-23 | decoding the state base `d` gives back the four digits, cart position first |
| `Discretizer.DigitizeStateInjective` | montecarlo/main.py:15-23 | two observations with the same state have the same four digits |
| `Discretizer.DigitizeStateMonotone` | montecarlo/main.py:15-23 | raising one component with the others fixed never lowers its digit, leaves the other digits and never lowers the state |
| `Discretizer.DigitOfIsBracket` | montecarlo/main.py:17-22 | with the source's clip ranges each digit is numpy's bracket index |
| `Policy.Epsilon` | montecarlo/main.py:28 | `0 < epsilon <= 0.5` for every episode index |
| `Policy.EpsilonDecreasing` | montecarlo/main.py:28 | epsilon strictly decreases with the episode index |
| `Policy.EpsilonVanishes` | montecarlo/main.py:28 | for every positive bound there is an episode from which on epsilon is below it |
| `Policy.ArgMaxUpTo` | montecarlo/main.py:30 | `np.argmax`: an index of a maximal entry, and every earlier entry is strictly smaller (ties go to the lowest index) |
| `Policy.Greedy` | montecarlo/main.py:30 | the greedy action holds the row's maximum and is its first occurrence |
| `Policy.GetAction` | montecarlo/main.py:27-33 | when `epsilon <= draw` the result is the first index of the row's maximum, otherwise it is the supplied random action; it is always an action in `{0, 1}` |
| `Policy.GreedyFromHalf` | montecarlo/main.py:28-30 | a draw of at least 0.5 is always exploited |
| `EpisodeMemory.Appended` | montecarlo/main.py:39-42 | an append never takes the deque over its `maxlen` and brings in no element other than the new one |
| `EpisodeMemory.AppendedThenPopped` | montecarlo/main.py:39-45 | after `add(x)` the element `sample()` returns is `x`; the rest is the old contents, minus the oldest element when the deque was full |
| `EpisodeMemory.AddAll` | montecarlo/main.py:39-42 | a run of appends never exceeds `maxlen` |
| `EpisodeMemory.AddAllKeepsNewest` | montecarlo/main.py:39-42 | the deque holds exactly the newest `maxlen` elements appended, in insertion order |
| `EpisodeMemory.Newest` | montecarlo/main.py:39 | the reference contents of a bounded deque: at most `maxlen` elements, all taken from what was appended |
| `EpisodeMemory.NewestSnoc` | montecarlo/main.py:41-42 | appending to a deque holding the newest elements of `s` leaves the newest elements of `s + [x]` |
| `EpisodeMemory.NewestOfNewest` | montecarlo/main.py:39-42 | truncating to the newest `maxlen` before more appends changes nothing |
| `EpisodeMemory.AddAllBelowCapacity` | montecarlo/main.py:39-42 | below capacity nothing is evicted |
| `EpisodeMemory.DrainIsLifo` | montecarlo/main.py:41-45 | after adding `t1, t2, t3` draining yields `t3, t2, t1` |
| `EpisodeMemory.Memory.constructor` | montecarlo/main.py:38-39 | a new memory is empty with the given capacity |
| `EpisodeMemory.Memory.Add` | montecarlo/main.py:41-42 | `add` is the bounded deque append |
| `EpisodeMemory.Memory.Sample` | montecarlo/main.py:44-45 | `sample` returns the most recent transition and removes it |
| `EpisodeMemory.Memory.Len` | montecarlo/main.py:47-48 | `len` is the number of stored transitions and never exceeds `max_size` |
| `MonteCarlo.MovedToward` | montecarlo/main.py:61 | only cell `(s, a)` changes, moving `alpha` of the way toward the target |
| `MonteCarlo.UpdatedFrom` | montecarlo/main.py:57-62 | the reference backward pass keeps the table's shape |
| `MonteCarlo.MonteCarloUpdate` | montecarlo/main.py:52-64 | the whole update keeps the table's shape |
| `MonteCarlo.ReturnStep` | montecarlo/main.py:59-62 | the return from step `k` is `r_k + gamma *` the return from `k + 1`, the accumulator's recurrence |
| `MonteCarlo.CellUntouchedBetween` | montecarlo/main.py:57-62 | a cell named by no transition in a stretch of the memory is not changed while that stretch is processed |
| `MonteCarlo.UnnamedCellUnchanged` | montecarlo/main.py:53-64 | cells named by no transition in memory are unchanged |
| `MonteCarlo.SingleVisit` | montecarlo/main.py:57-62 | a cell visited once, at step `i`, moves `alpha` of the way toward the discounted return from step `i` on |
| `MonteCarlo.TwoStepEpisode` | montecarlo/main.py:53-62 | for `[(s0,a0,1), (s1,a1,-200)]`, `Q[s1,a1]` moves halfway toward -200 and `Q[s0,a0]` halfway toward -197 |
| `MonteCarlo.Row` | montecarlo/main.py:30 | `q_table[s]` has one entry per action, each the table's cell |
| `MonteCarlo.TableOfCells` | montecarlo/main.py:61 | lifts the in-place cell writes of line 61 to the table's value: a table agreeing with the array cell by cell is the array's value |
| `MonteCarlo.UpdateQTableMonteCarlo` | montecarlo/main.py:52-64 | the loop ends with the memory empty, pops the transitions in reverse order of insertion, and leaves every cell equal to the reference backward pass |
| `Training.ShapedReward` | montecarlo/main.py:103-110 | the shaped reward is -200 or 1, and it is -200 exactly for a termination with `t < 195` |
| `Training.ShapingBoundary` | montecarlo/main.py:103-110 | termination at index 194 is penalised, at 195 it is not; a truncation at 199 earns 1 |
| `Training.SlideWindow` | montecarlo/main.py:131-132 | the window keeps its length, drops index 0 and ends with the new episode reward |
| `Training.SlidesKeepLatest` | montecarlo/main.py:131-132 | after any number of slides the window holds the most recent entries, in order |
| `Training.SumOfSlide` | montecarlo/main.py:131-132 | a slide changes the window's total by the new reward minus the evicted one |
| `Training.Mean` | montecarlo/main.py:137-138 | `total_reward_vec.mean()` lies between the window's smallest and largest episode reward |
| `Training.MinMaxBound` | montecarlo/main.py:137-138 | the smallest and largest entries bound every entry of the window and occur in it |
| `Training.FirstEnd` | montecarlo/main.py:92-135 | the episode ends at the first step reported terminated or truncated: no earlier step ends it, and with no such step it runs the whole budget |
| `Training.EpisodeReward` | montecarlo/main.py:90-122 | an episode ending at step `n` earns `n - 200` when `n < 195` and `n + 1` otherwise |
| `Training.StateAt` | montecarlo/main.py:88-120 | the state step `i` acts in is a row of the `6^4`-row table |
| `Training.ActionAt` | montecarlo/main.py:89-119 | the action of step `i` holds the largest value in its state's row with every earlier action strictly smaller (the first index of the maximum) when `i == 0` or epsilon is at most the previous step's draw, and is the previous step's random action otherwise |
| `Training.TransitionAt` | montecarlo/main.py:114 | the transition step `i` records names a cell of the table |
| `Training.Recorded` | montecarlo/main.py:114 | the first `n` steps record `n` transitions |
| `Training.RecordedAt` | montecarlo/main.py:114 | entry `i` of the recording is step `i`'s transition |
| `Training.RecordedFits` | montecarlo/main.py:114 | every recorded transition names a cell of the table |
| `Training.RecordOneMore` | montecarlo/main.py:114 | recording one more step is one bounded deque append |
| `Training.MemoryAfter` | montecarlo/main.py:114 | the memory after recording steps stays within its 200 entries and names only cells of the table |
| `Training.StepsFrom` | montecarlo/main.py:92-135 | the step loop keeps the table's shape and a memory within 200 entries naming cells of the table |
| `Training.StepsFromClosedForm` | montecarlo/main.py:92-135 | an episode ending at step `n` updates the table from the newest 200 of the old contents and its steps `0..n` taken together, and empties the memory; one that runs the budget leaves the table and the memory holds the newest 200 of the old contents and its 200 steps taken together |
| `Training.EpisodeLearner` | montecarlo/main.py:86-135 | one episode keeps the table's shape and the memory within its capacity |
| `Training.EpisodeLog` | montecarlo/main.py:125-134 | one episode leaves the flag, the window length and every row of `final_x` but its own unchanged |
| `Training.EpisodeLogRow` | montecarlo/main.py:125-134 | an episode writes its own row of `final_x` exactly when it began learned and ended, with the cart position of its ending step |
| `Training.Checked` | montecarlo/main.py:137-144 | the flag after the check is set if and only if it was set or the window mean reaches 195; window and `final_x` unchanged |
| `Training.LearnerAfter` | montecarlo/main.py:85-135 | the episode loop keeps the table's shape and the memory within its capacity |
| `Training.LogAfter` | montecarlo/main.py:85-144 | the episode loop keeps the window at 100 entries and `final_x` at 2000 rows |
| `Training.LearnedAfterEpisode` | montecarlo/main.py:137-140 | after episode `n` the flag is set if and only if it was set before or the window that episode leaves has mean at least 195 |
| `Training.LearnedStaysLearned` | montecarlo/main.py:137-140 | once the flag is set it stays set for every later episode |
| `Training.LearnedOnlyByGoal` | montecarlo/main.py:137-140 | a run that starts unlearned and ends learned has an episode after which the flag first turns on, and that episode's window mean reaches 195 |
| `Training.FinalXRow` | montecarlo/main.py:79-134 | row `e` of `final_x` holds episode `e`'s ending cart position if that episode began learned and ended before the budget, and its initial value otherwise |
| `Training.RowUntouched` | montecarlo/main.py:133-134 | the episodes before episode `e` leave row `e` of `final_x` alone |
| `Training.RowKept` | montecarlo/main.py:133-134 | the episodes after episode `e` leave row `e` of `final_x` alone |
| `Training.FreshEpisodeUpdate` | montecarlo/main.py:114-127 | from an empty memory, an episode ending at step `n` updates the table from exactly its own `n + 1` transitions and empties the memory |
| `Training.RunOutEpisode` | montecarlo/main.py:92-114 | an episode that uses up the step budget leaves the table as it was and its 200 transitions as the newest in the memory |
| `Training.Trainer.constructor` | montecarlo/main.py:75-81 | memory of capacity 200 and empty, window of 100 zeros, `final_x` of 2000 zeros, both flags cleared |
| `Training.Trainer.BeginEpisode` | montecarlo/main.py:87-90 | the episode starts in the discretised reset state with the greedy action and zero reward |
| `Training.Trainer.Step` | montecarlo/main.py:100-135 | records the shaped transition, moves to the next state and action (chosen before the table update), and on termination replaces the table by the Monte Carlo update of the memory, empties the memory, slides the window and writes `final_x[episode]` only when learned; otherwise the table and window are unchanged |
| `Training.Trainer.EndEpisode` | montecarlo/main.py:125-134 | the table becomes the Monte Carlo update of the memory, the memory empties, the window slides in the episode reward and, when learned, `final_x[episode]` gets the cart position |
| `Training.Trainer.StepWithin` | montecarlo/main.py:92-135 | a pass of the step loop either is the episode's first ending step and leaves the table, memory and bookkeeping `EpisodeLearner` and `EpisodeLog` predict, or keeps the loop's invariant for the next step |
| `Training.Trainer.RunEpisode` | montecarlo/main.py:86-135 | the episode stops at its first ending step; the table and memory become `EpisodeLearner` of the old ones and the window, flag and `final_x` become `EpisodeLog` of the old ones; the total reward is `EpisodeReward`, or 200 when the budget runs out |
| `Training.Trainer.CheckLearned` | montecarlo/main.py:137-144 | the bookkeeping becomes `Checked` of the old one: `isLearned` is set when the window mean reaches 195 and never cleared, `isRender` latched with it; table and memory unchanged |
| `Training.Trainer.Train` | montecarlo/main.py:85-144 | after the episode loop the table and memory are `LearnerAfter` and the window, flag and `final_x` are `LogAfter` of the initial ones, and a set flag stays set |

## Left out

- The environment (`gym.make`, `env.reset`, `env.step`, `env.render`), `time.sleep`, `print` and `np.savetxt`: their outputs are parameters (`EpisodeInput`, `StepOutcome`) and their side effects are not modelled. The raw reward of `env.step` is dropped because every branch of the shaping overwrites it.
- The environment's answer to an action: a step outcome is an input independent of the chosen action, so every property is proved for every possible trace, not for CartPole's dynamics.
- `np.random.uniform`, `np.random.choice` and the random initial Q-table: the draw and the random action are inputs and the trainer starts from any given table.
- Floating point: boundaries, epsilon, the Q-update and the window mean use exact `real` arithmetic, so nothing claims bit-exact agreement with numpy; the integer rewards of the source are reals here.
- `Discretizer.DigitizeState`: requires at least one bin; with zero bins the source still returns 0, but the range `[0, 0)` is then empty.
- `EpisodeMemory.Memory.Sample`: popping an empty deque raises in the source; here a non-empty buffer is a precondition, which the only caller (the update loop) establishes by testing `len() > 0`.
- The flags `islearned` and `isrender` are the integers 0 and 1 in the source and booleans here.
- `final_x` is a `2000 x 1` array in the source and a one-dimensional array of length 2000 here.
- The commented-out video recording and Q-table dump.
- The per-episode specification chooses every action of an episode from the table as it was when the episode began (`ActionAt`); this is the source's behaviour because the table changes only at the episode's last step, after that step's next action has been chosen.
- Between episodes the memory is described as the newest 200 of its old contents and the new transitions taken together (`Newest` of the concatenation), which `EpisodeMemory.AddAllKeepsNewest` proves equal to appending them one by one.
