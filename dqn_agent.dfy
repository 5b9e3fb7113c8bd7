/** The decision and bookkeeping logic of dqn_agent.py: the epsilon-greedy
    policy, the bootstrapped TD target and its loss, the clipped staircase
    learning rate, the step counters of the training loop, and the episode
    returns of an evaluation. Q-values are given vectors and the
    environment is a recording (see Environment.Env); the network, the
    optimizer and all logging are outside the model. */
module DqnAgent {
  import opened Environment
  import Arith

  // ---------------------------------------------------------------------
  // policy: epsilon-greedy over given Q-values.
  // ---------------------------------------------------------------------

  /** k is the first index of a largest value of q. */
  predicate IsFirstMax(q: seq<real>, k: nat) {
    && k < |q|
    && (forall j :: 0 <= j < |q| ==> q[j] <= q[k])
    && (forall j :: 0 <= j < k ==> q[j] < q[k])
  }

  /** The index np.argmax returns: the first index of a largest value. */
  function Argmax(q: seq<real>): (k: nat)
    requires |q| > 0
    ensures IsFirstMax(q, k)
  {
    if |q| == 1 then 0
    else
      var k := Argmax(q[..|q| - 1]);
      if q[|q| - 1] > q[k] then |q| - 1 else k
  }

  /** The first maximum is unique, so IsFirstMax pins Argmax down. */
  lemma FirstMaxUnique(q: seq<real>, k: nat)
    requires |q| > 0
    ensures IsFirstMax(q, k) <==> k == Argmax(q)
  {
    if IsFirstMax(q, k) {
      var a := Argmax(q);
      assert q[a] == q[k];
    }
  }

  /** policy(state, epsilon): with `q` the network's Q-values for the state
      and `u` the uniform draw, act greedily when u > epsilon and take the
      environment's random action otherwise. */
  function Policy(q: seq<real>, epsilon: real, u: real, randomAction: nat): (a: nat)
    requires |q| > 0
    ensures u > epsilon ==> IsFirstMax(q, a)
    ensures u <= epsilon ==> a == randomAction
  {
    var bestAction := Argmax(q);
    if u > epsilon then bestAction else randomAction
  }

  // ---------------------------------------------------------------------
  // The TD target, the gathered predictions, the difference and the loss.
  // ---------------------------------------------------------------------

  /** tf.reduce_max over one row. */
  function MaxValue(q: seq<real>): (r: real)
    requires |q| > 0
    ensures forall j :: 0 <= j < |q| ==> q[j] <= r
    ensures exists j :: 0 <= j < |q| && q[j] == r
  {
    if |q| == 1 then q[0]
    else
      var m := MaxValue(q[..|q| - 1]);
      assert exists j :: 0 <= j < |q| - 1 && q[j] == m;
      if q[|q| - 1] > m then q[|q| - 1] else m
  }

  /** The row maximum is the value at the greedy action. */
  lemma MaxValueAtArgmax(q: seq<real>)
    requires |q| > 0
    ensures MaxValue(q) == q[Argmax(q)]
  {
  }

  /** The float a boolean terminal flag is fed as. */
  function AsFloat(b: bool): real {
    if b then 1.0 else 0.0
  }

  /** The bootstrapped target of one row:
      reward + gamma * max(qNext) * (1 - isTerminal). */
  function TdTarget(reward: real, gamma: real, qNext: seq<real>, isTerminal: bool): (r: real)
    requires |qNext| > 0
    ensures isTerminal ==> r == reward
    ensures !isTerminal ==> r == reward + gamma * qNext[Argmax(qNext)]
    ensures !isTerminal && gamma >= 0.0 ==>
      forall j :: 0 <= j < |qNext| ==> reward + gamma * qNext[j] <= r
  {
    var best := gamma * MaxValue(qNext);
    var t := reward + best * (1.0 - AsFloat(isTerminal));
    assert t == if isTerminal then reward else reward + best by {
      Arith.MulUnit(best);
    }
    ScaledMax(gamma, qNext);
    MaxValueAtArgmax(qNext);
    t
  }

  /** A non-negative discount keeps the row maximum on top. */
  lemma ScaledMax(gamma: real, q: seq<real>)
    requires |q| > 0
    ensures gamma >= 0.0 ==> forall j :: 0 <= j < |q| ==> gamma * q[j] <= gamma * MaxValue(q)
  {
    if gamma >= 0.0 {
      forall j | 0 <= j < |q|
        ensures gamma * q[j] <= gamma * MaxValue(q)
      {
        Arith.MulMonotone(gamma, q[j], MaxValue(q));
      }
    }
  }

  /** The example of a non-terminal row: reward 1, gamma 0.9, next-state
      values [2, 5] give the target 5.5. */
  lemma TdTargetExample()
    ensures TdTarget(1.0, 0.9, [2.0, 5.0], false) == 5.5
  {
    assert MaxValue([2.0, 5.0]) == 5.0 by {
      assert [2.0, 5.0][..1] == [2.0];
    }
  }

  /** A terminal row's target is its reward, whatever the next-state values. */
  lemma TdTargetExampleTerminal(qNext: seq<real>)
    requires |qNext| > 0
    ensures TdTarget(5.0, 0.9, qNext, true) == 5.0
  {
  }

  predicate RowsNonEmpty(q: seq<seq<real>>) {
    forall k :: 0 <= k < |q| ==> |q[k]| > 0
  }

  /** The batch of targets, one per row: a terminal row's reward, and
      otherwise the reward plus the discounted value of the greedy action
      in the next state. */
  function Targets(rewards: seq<real>, gamma: real, qTarget: seq<seq<real>>, terminals: seq<bool>): (r: seq<real>)
    requires |rewards| == |qTarget| == |terminals| && RowsNonEmpty(qTarget)
    ensures |r| == |rewards|
    ensures forall k :: 0 <= k < |r| && terminals[k] ==> r[k] == rewards[k]
    ensures forall k :: 0 <= k < |r| && !terminals[k] ==>
      r[k] == rewards[k] + gamma * qTarget[k][Argmax(qTarget[k])]
  {
    forall k | 0 <= k < |rewards|
      ensures MaxValue(qTarget[k]) == qTarget[k][Argmax(qTarget[k])]
    {
      MaxValueAtArgmax(qTarget[k]);
    }
    seq(|rewards|, k requires 0 <= k < |rewards| => TdTarget(rewards[k], gamma, qTarget[k], terminals[k]))
  }

  predicate ActionsInRange(q: seq<seq<real>>, actions: seq<nat>) {
    forall r, c :: 0 <= r < |q| && 0 <= c < |actions| ==> actions[c] < |q[r]|
  }

  /** tf.gather(q, actions, axis=1): entry [r][c] is q[r][actions[c]]. */
  function Gather(q: seq<seq<real>>, actions: seq<nat>): (g: seq<seq<real>>)
    requires ActionsInRange(q, actions)
  {
    seq(|q|, r requires 0 <= r < |q| =>
      seq(|actions|, c requires 0 <= c < |actions| => q[r][actions[c]]))
  }

  /** tf.diag_part of a square matrix. */
  function DiagPart(g: seq<seq<real>>): seq<real>
    requires forall r :: 0 <= r < |g| ==> |g[r]| == |g|
  {
    seq(|g|, k requires 0 <= k < |g| => g[k][k])
  }

  /** The difference `target - diag_part(gather(q, action, axis=1))`:
      for each row k, the target minus the predicted value of the action
      actually taken in that row. */
  function Diff(targets: seq<real>, q: seq<seq<real>>, actions: seq<nat>): (d: seq<real>)
    requires |targets| == |q| == |actions| && ActionsInRange(q, actions)
    ensures |d| == |targets|
    ensures forall k :: 0 <= k < |d| ==> d[k] == targets[k] - q[k][actions[k]]
  {
    var taken := DiagPart(Gather(q, actions));
    seq(|targets|, k requires 0 <= k < |targets| => targets[k] - taken[k])
  }

  function SumSquares(d: seq<real>): (s: real)
    ensures s >= 0.0
  {
    if |d| == 0 then 0.0 else SumSquares(d[..|d| - 1]) + d[|d| - 1] * d[|d| - 1]
  }

  /** tf.reduce_mean(diff ** 2): the mean squared TD error of a batch. An
      empty batch would give NaN, so the batch is non-empty. */
  function Loss(d: seq<real>): (l: real)
    requires |d| > 0
    ensures l >= 0.0
  {
    SumSquares(d) / (|d| as real)
  }

  /** The loss of the differences [1, 3] is (1 + 9) / 2 = 5. */
  lemma LossExample()
    ensures Loss([1.0, 3.0]) == 5.0
  {
    assert [1.0, 3.0][..1] == [1.0];
    assert [1.0][..0] == [];
  }

  lemma {:induction false} SumSquaresOfZeros(d: seq<real>)
    requires forall k :: 0 <= k < |d| ==> d[k] == 0.0
    ensures SumSquares(d) == 0.0
  {
    if |d| > 0 {
      var init := d[..|d| - 1];
      assert forall k :: 0 <= k < |init| ==> init[k] == d[k];
      SumSquaresOfZeros(init);
    }
  }

  /** A batch whose every target is met has zero loss. */
  lemma LossOfPerfectFit(d: seq<real>)
    requires |d| > 0
    requires forall k :: 0 <= k < |d| ==> d[k] == 0.0
    ensures Loss(d) == 0.0
  {
    SumSquaresOfZeros(d);
  }

  // ---------------------------------------------------------------------
  // The learning rate: staircase exponential decay, clipped from below.
  // ---------------------------------------------------------------------

  function Pow(b: real, n: nat): real {
    if n == 0 then 1.0 else b * Pow(b, n - 1)
  }

  /** tf.train.exponential_decay with staircase=True at `step`. */
  function Decayed(baseLr: real, step: nat, decaySteps: nat, decayRate: real): real
    requires decaySteps > 0
  {
    baseLr * Pow(decayRate, step / decaySteps)
  }

  /** tf.maximum(decayed, lr_clip): the schedule never goes below the clip
      and equals the decayed rate whenever that is above it. */
  function LearningRate(baseLr: real, step: nat, decaySteps: nat, decayRate: real, lrClip: real): (r: real)
    requires decaySteps > 0
    ensures r >= lrClip && r >= Decayed(baseLr, step, decaySteps, decayRate)
    ensures r == lrClip || r == Decayed(baseLr, step, decaySteps, decayRate)
  {
    var decayed := Decayed(baseLr, step, decaySteps, decayRate);
    if decayed >= lrClip then decayed else lrClip
  }

  lemma {:induction false} PowNonIncreasing(b: real, m: nat, n: nat)
    requires 0.0 <= b <= 1.0 && m <= n
    ensures 0.0 <= Pow(b, n) <= Pow(b, m)
    decreases n
  {
    if m < n {
      PowNonIncreasing(b, m, n - 1);
      assert Pow(b, n) == b * Pow(b, n - 1);
      assert b * Pow(b, n - 1) <= Pow(b, n - 1);
    } else {
      PowNonNegative(b, n);
    }
  }

  lemma {:induction false} PowNonNegative(b: real, n: nat)
    requires b >= 0.0
    ensures Pow(b, n) >= 0.0
  {
    if n > 0 {
      PowNonNegative(b, n - 1);
    }
  }

  /** With a decay rate in [0, 1] and a non-negative base rate, the
      learning rate never increases as training proceeds. */
  lemma {:induction false} LearningRateNonIncreasing(baseLr: real, s1: nat, s2: nat, decaySteps: nat, decayRate: real, lrClip: real)
    requires decaySteps > 0 && s1 <= s2
    requires baseLr >= 0.0 && 0.0 <= decayRate <= 1.0
    ensures LearningRate(baseLr, s2, decaySteps, decayRate, lrClip) <= LearningRate(baseLr, s1, decaySteps, decayRate, lrClip)
  {
    Arith.DivMonotone(s1, s2, decaySteps);
    PowNonIncreasing(decayRate, s1 / decaySteps, s2 / decaySteps);
    assert baseLr * Pow(decayRate, s2 / decaySteps) <= baseLr * Pow(decayRate, s1 / decaySteps);
  }

  /** Every `decaySteps` steps the decayed rate is multiplied by the decay
      rate once more. */
  lemma DecayedNextStair(baseLr: real, step: nat, decaySteps: nat, decayRate: real)
    requires decaySteps > 0
    ensures Decayed(baseLr, step + decaySteps, decaySteps, decayRate)
         == decayRate * Decayed(baseLr, step, decaySteps, decayRate)
  {
    Arith.DivUnique(step + decaySteps, decaySteps, step / decaySteps + 1, step % decaySteps);
  }

  // ---------------------------------------------------------------------
  // train: the iteration counter, the episode bookkeeping, the evaluation
  // and checkpoint cadences, without experience replay.
  // ---------------------------------------------------------------------

  /** `i % d == 0` for a positive d. */
  predicate IsMultiple(i: nat, d: nat) {
    d > 0 && i % d == 0
  }

  /** The multiples of d among 1..n, in increasing order: the iterations
      after which a cadence of d fires. */
  function Multiples(n: nat, d: nat): seq<nat> {
    if n == 0 then []
    else Multiples(n - 1, d) + (if IsMultiple(n, d) then [n] else [])
  }

  lemma {:induction false} MultiplesMembers(n: nat, d: nat)
    ensures forall s :: s in Multiples(n, d) <==> 1 <= s <= n && IsMultiple(s, d)
  {
    if n > 0 {
      MultiplesMembers(n - 1, d);
    }
  }

  lemma {:induction false} MultiplesIncreasing(n: nat, d: nat)
    ensures forall j, k :: 0 <= j < k < |Multiples(n, d)| ==> Multiples(n, d)[j] < Multiples(n, d)[k]
  {
    if n > 0 {
      MultiplesIncreasing(n - 1, d);
      MultiplesMembers(n - 1, d);
      var m := Multiples(n - 1, d);
      assert forall j :: 0 <= j < |m| ==> m[j] in m;
    }
  }

  /** A cadence of d fires n / d times in n iterations. */
  lemma {:induction false} MultiplesCount(n: nat, d: nat)
    requires d > 0
    ensures |Multiples(n, d)| == n / d
  {
    if n > 0 {
      MultiplesCount(n - 1, d);
      Arith.DivStep(n, d);
    }
  }

  /** The number of env.reset calls made before the iteration with counter
      i begins: the first one before the loop, one per terminal step and
      one per evaluation. */
  function ResetCount(env: Env, stepsPerEval: nat, i: nat): (r: nat)
    ensures r >= 1
  {
    if i == 0 then 1
    else
      ResetCount(env, stepsPerEval, i - 1)
      + (if env.step(i - 1).done then 1 else 0)
      + (if IsMultiple(i, stepsPerEval) then 1 else 0)
  }

  /** The state the iteration with counter i acts in: a fresh reset at the
      start, after a terminal step and after an evaluation, otherwise the
      previous step's next state. */
  function TrainState(env: Env, stepsPerEval: nat, i: nat): Observation {
    if i == 0 || env.step(i - 1).done || IsMultiple(i, stepsPerEval) then
      env.reset(ResetCount(env, stepsPerEval, i) - 1)
    else
      env.step(i - 1).nextState
  }

  /** episode_start once i iterations are done. */
  function EpisodeStart(env: Env, stepsPerEval: nat, i: nat): (r: nat)
    ensures r <= i
  {
    if i == 0 then 0
    else if env.step(i - 1).done || IsMultiple(i, stepsPerEval) then i
    else EpisodeStart(env, stepsPerEval, i - 1)
  }

  /** The transition of the iteration with counter i: the policy acts on
      the iteration's Q-values, epsilon and uniform draw. */
  function TrainStep(env: Env, stepsPerEval: nat, qValues: nat -> seq<real>,
                     epsilon: nat -> real, u: nat -> real, i: nat): Transition
    requires |qValues(i)| > 0
  {
    var action := Policy(qValues(i), epsilon(i), u(i), env.sampleAction(i));
    Record(TrainState(env, stepsPerEval, i), action, env.step(i))
  }

  /** The episode lengths logged in the first n iterations, one per
      terminal step. */
  function LoggedLengths(env: Env, stepsPerEval: nat, n: nat): seq<nat> {
    if n == 0 then []
    else
      LoggedLengths(env, stepsPerEval, n - 1)
      + (if env.step(n - 1).done then [n - EpisodeStart(env, stepsPerEval, n - 1)] else [])
  }

  function Total(s: seq<nat>): nat {
    if |s| == 0 then 0 else Total(s[..|s| - 1]) + s[|s| - 1]
  }

  /** Every logged episode length is at least 1. */
  lemma {:induction false} LoggedLengthsPositive(env: Env, stepsPerEval: nat, n: nat)
    ensures forall k :: 0 <= k < |LoggedLengths(env, stepsPerEval, n)| ==> LoggedLengths(env, stepsPerEval, n)[k] >= 1
  {
    if n > 0 {
      LoggedLengthsPositive(env, stepsPerEval, n - 1);
    }
  }

  /** Logged episodes never overlap: their lengths add up to at most the
      current episode start, hence to at most the iterations run. */
  lemma {:induction false} LoggedLengthsFit(env: Env, stepsPerEval: nat, n: nat)
    ensures Total(LoggedLengths(env, stepsPerEval, n)) <= EpisodeStart(env, stepsPerEval, n) <= n
  {
    if n > 0 {
      LoggedLengthsFit(env, stepsPerEval, n - 1);
      var s := LoggedLengths(env, stepsPerEval, n);
      if env.step(n - 1).done {
        assert s[..|s| - 1] == LoggedLengths(env, stepsPerEval, n - 1);
        assert s[|s| - 1] == n - EpisodeStart(env, stepsPerEval, n - 1);
      } else {
        assert s == LoggedLengths(env, stepsPerEval, n - 1);
      }
    }
  }

  /** An iteration continues the previous one's episode exactly when the
      previous step was not terminal and no evaluation intervened. */
  lemma TrainChaining(env: Env, stepsPerEval: nat, qValues: nat -> seq<real>,
                      epsilon: nat -> real, u: nat -> real, i: nat)
    requires i > 0 && |qValues(i)| > 0 && |qValues(i - 1)| > 0
    ensures !env.step(i - 1).done && !IsMultiple(i, stepsPerEval) ==>
      TrainStep(env, stepsPerEval, qValues, epsilon, u, i).state
        == TrainStep(env, stepsPerEval, qValues, epsilon, u, i - 1).nextState
    ensures env.step(i - 1).done || IsMultiple(i, stepsPerEval) ==>
      TrainStep(env, stepsPerEval, qValues, epsilon, u, i).state
        == env.reset(ResetCount(env, stepsPerEval, i) - 1)
      && EpisodeStart(env, stepsPerEval, i) == i
  {
  }

  /** max_iter // 3 is the checkpoint cadence. */
  function SaveEvery(maxIter: nat): nat {
    maxIter / 3
  }

  /** Besides the saves before and after the loop, training of at least
      three iterations saves three to five times inside it. */
  lemma SavesInLoop(maxIter: nat)
    requires maxIter >= 3
    ensures 3 <= |Multiples(maxIter, SaveEvery(maxIter))| <= 5
  {
    Arith.ThirdsFit(maxIter);
    MultiplesCount(maxIter, SaveEvery(maxIter));
  }

  /** The non-replay training loop. `qValues(i)`, `epsilon(i)` and `u(i)`
      are the network's Q-values, the decayed epsilon and the uniform draw
      of iteration i. The results are the transitions trained on, the
      iterations after which an evaluation ran, the logged episode lengths
      and the global steps of the checkpoint saves. */
  method Train(maxIter: nat, stepsPerEval: nat, env: Env, qValues: nat -> seq<real>,
               epsilon: nat -> real, u: nat -> real)
    returns (steps: seq<Transition>, evalSteps: seq<nat>, lengths: seq<nat>, saves: seq<nat>)
    requires maxIter > 0 ==> maxIter >= 3 && stepsPerEval > 0
    requires forall i: nat :: i < maxIter ==> |qValues(i)| > 0
    ensures |steps| == maxIter
    ensures forall i :: 0 <= i < maxIter ==> steps[i] == TrainStep(env, stepsPerEval, qValues, epsilon, u, i)
    ensures evalSteps == Multiples(maxIter, stepsPerEval)
    ensures lengths == LoggedLengths(env, stepsPerEval, maxIter)
    ensures saves == [0] + Multiples(maxIter, SaveEvery(maxIter)) + [maxIter]
  {
    var saveEvery := maxIter / 3;
    saves := [0];
    var i := 0;
    var episodeStart := 0;
    var resets := 1;
    var state := env.reset(0);
    steps, evalSteps, lengths := [], [], [];
    while i < maxIter
      invariant i <= maxIter
      invariant resets == ResetCount(env, stepsPerEval, i)
      invariant state == TrainState(env, stepsPerEval, i)
      invariant episodeStart == EpisodeStart(env, stepsPerEval, i)
      invariant |steps| == i
      invariant forall k :: 0 <= k < i ==> steps[k] == TrainStep(env, stepsPerEval, qValues, epsilon, u, k)
      invariant evalSteps == Multiples(i, stepsPerEval)
      invariant lengths == LoggedLengths(env, stepsPerEval, i)
      invariant saves == [0] + Multiples(i, saveEvery)
    {
      var action := Policy(qValues(i), epsilon(i), u(i), env.sampleAction(i));
      var result := env.step(i);
      steps := steps + [Record(state, action, result)];
      i := i + 1;
      if result.done {
        state := env.reset(resets);
        resets := resets + 1;
        lengths := lengths + [i - episodeStart];
        episodeStart := i;
      } else {
        state := result.nextState;
      }
      if i % stepsPerEval == 0 {
        evalSteps := evalSteps + [i];
        state := env.reset(resets);
        resets := resets + 1;
        episodeStart := i;
      }
      if i % saveEvery == 0 {
        saves := saves + [i];
      }
    }
    saves := saves + [maxIter];
  }

  // ---------------------------------------------------------------------
  // evaluate: the total reward of each of the first episodes.
  // ---------------------------------------------------------------------

  /** The index of the first terminal step, or |rs| when there is none. */
  function FirstDone(rs: seq<StepResult>): (n: nat)
    ensures n <= |rs|
    ensures n < |rs| ==> rs[n].done
    ensures forall j :: 0 <= j < n ==> !rs[j].done
  {
    if |rs| == 0 then 0
    else if rs[0].done then 0
    else 1 + FirstDone(rs[1..])
  }

  function DoneCount(rs: seq<StepResult>): nat {
    if |rs| == 0 then 0 else (if rs[0].done then 1 else 0) + DoneCount(rs[1..])
  }

  /** The sum of the rewards of some steps, accumulated in order. */
  function SumRewards(rs: seq<StepResult>): real {
    if |rs| == 0 then 0.0 else SumRewards(rs[..|rs| - 1]) + rs[|rs| - 1].reward
  }

  /** The return of every complete episode of a step sequence, in order:
      each episode runs up to and including its terminal step. */
  function Returns(rs: seq<StepResult>): seq<real>
    decreases |rs|
  {
    var n := FirstDone(rs);
    if n == |rs| then [] else [SumRewards(rs[..n + 1])] + Returns(rs[n + 1..])
  }

  /** The steps after the last terminal one: the episode still unfinished. */
  function Unfinished(rs: seq<StepResult>): seq<StepResult>
    decreases |rs|
  {
    var n := FirstDone(rs);
    if n == |rs| then rs else Unfinished(rs[n + 1..])
  }

  function SumAll(v: seq<real>): real {
    if |v| == 0 then 0.0 else v[0] + SumAll(v[1..])
  }

  lemma {:induction false} DoneCountSplit(a: seq<StepResult>, b: seq<StepResult>)
    ensures DoneCount(a + b) == DoneCount(a) + DoneCount(b)
    decreases |a|
  {
    if |a| > 0 {
      assert (a + b)[1..] == a[1..] + b;
      DoneCountSplit(a[1..], b);
    } else {
      assert a + b == b;
    }
  }

  lemma {:induction false} DoneCountNone(a: seq<StepResult>)
    requires forall j :: 0 <= j < |a| ==> !a[j].done
    ensures DoneCount(a) == 0
  {
    if |a| > 0 {
      DoneCountNone(a[1..]);
    }
  }

  lemma {:induction false} SumRewardsSplit(a: seq<StepResult>, b: seq<StepResult>)
    ensures SumRewards(a + b) == SumRewards(a) + SumRewards(b)
    decreases |b|
  {
    if |b| > 0 {
      assert (a + b)[..|a + b| - 1] == a + b[..|b| - 1];
      SumRewardsSplit(a, b[..|b| - 1]);
    } else {
      assert a + b == a;
    }
  }

  /** There is one return per terminal step. */
  lemma {:induction false} ReturnsCount(rs: seq<StepResult>)
    ensures |Returns(rs)| == DoneCount(rs)
    decreases |rs|
  {
    var n := FirstDone(rs);
    if n == |rs| {
      DoneCountNone(rs);
    } else {
      ReturnsCount(rs[n + 1..]);
      assert rs == rs[..n] + [rs[n]] + rs[n + 1..];
      DoneCountSplit(rs[..n] + [rs[n]], rs[n + 1..]);
      DoneCountSplit(rs[..n], [rs[n]]);
      DoneCountNone(rs[..n]);
    }
  }

  /** No reward is lost or counted twice: the returns of the complete
      episodes and the rewards of the unfinished one add up to all the
      rewards. */
  lemma {:induction false} ReturnsTotal(rs: seq<StepResult>)
    ensures SumAll(Returns(rs)) + SumRewards(Unfinished(rs)) == SumRewards(rs)
    decreases |rs|
  {
    var n := FirstDone(rs);
    if n < |rs| {
      ReturnsTotal(rs[n + 1..]);
      assert rs == rs[..n + 1] + rs[n + 1..];
      SumRewardsSplit(rs[..n + 1], rs[n + 1..]);
    }
  }

  lemma SuffixSlices(rs: seq<StepResult>, k: nat, m: nat)
    requires k + m <= |rs|
    ensures rs[k..][..m] == rs[k..k + m] && rs[k..][m..] == rs[k + m..]
  {
  }

  lemma SplitHead(v: seq<real>, e: nat, x: real, tail: seq<real>)
    requires e <= |v| && v[e..] == [x] + tail
    ensures e < |v| && v[e] == x && v[e + 1..] == tail
  {
    assert v[e..][0] == x;
    assert v[e + 1..] == v[e..][1..];
  }

  lemma ReturnsStep(rs: seq<StepResult>)
    requires FirstDone(rs) < |rs|
    ensures Returns(rs) == [SumRewards(rs[..FirstDone(rs) + 1])] + Returns(rs[FirstDone(rs) + 1..])
  {
  }

  lemma PrefixExtend(v: seq<real>, w: seq<real>, all: seq<real>, e: nat)
    requires e < |v| == |w| && e < |all|
    requires v[..e] == all[..e] && w == v[e := all[e]]
    ensures w[..e + 1] == all[..e + 1]
  {
    assert forall j :: 0 <= j < e ==> v[..e][j] == all[..e][j];
  }

  /** An episode that runs from step k to the first terminal step after it
      contributes the next return. */
  lemma EpisodeBoundary(rs: seq<StepResult>, k: nat, next: nat, r: real)
    requires k <= |rs| && FirstDone(rs[k..]) < |rs| - k
    requires next == k + FirstDone(rs[k..]) + 1 && r == SumRewards(rs[k..next])
    ensures next <= |rs| && Returns(rs[k..]) == [r] + Returns(rs[next..])
  {
    var rest := rs[k..];
    var m := FirstDone(rest);
    ReturnsStep(rest);
    assert Returns(rest) == [SumRewards(rest[..m + 1])] + Returns(rest[m + 1..]);
    SuffixSlices(rs, k, m + 1);
    assert rest[..m + 1] == rs[k..next];
    assert rest[m + 1..] == rs[next..];
  }

  /** The inner loop of evaluate: step from step index k until a terminal
      step, accumulating the rewards. */
  method RunEpisode(results: seq<StepResult>, k: nat) returns (episodeReward: real, next: nat)
    requires k <= |results| && FirstDone(results[k..]) < |results| - k
    ensures next == k + FirstDone(results[k..]) + 1
    ensures episodeReward == SumRewards(results[k..next])
  {
    ghost var n := FirstDone(results[k..]);
    var done := false;
    episodeReward := 0.0;
    next := k;
    while !done
      invariant k <= next <= k + n + 1
      invariant !done ==> next <= k + n
      invariant done ==> next == k + n + 1
      invariant episodeReward == SumRewards(results[k..next])
      decreases k + n + 1 - next
    {
      assert results[next] == results[k..][next - k];
      assert results[k..next + 1][..next - k] == results[k..next];
      episodeReward := episodeReward + results[next].reward;
      done := results[next].done;
      next := next + 1;
    }
  }

  /** evaluate(env_name, num_episodes, epsilon) on an environment whose
      successive step results are `results`: entry e of the result is the
      return of episode e. The environment must end at least num_episodes
      episodes, or the source loops forever. */
  method Evaluate(numEpisodes: nat, results: seq<StepResult>) returns (rewards: array<real>)
    requires DoneCount(results) >= numEpisodes
    ensures fresh(rewards) && rewards.Length == numEpisodes
    ensures forall e :: 0 <= e < numEpisodes ==> e < |Returns(results)| && rewards[e] == Returns(results)[e]
  {
    rewards := new real[numEpisodes](_ => 0.0);
    ReturnsCount(results);
    ghost var all := Returns(results);
    var e: nat, k: nat := 0, 0;
    while e < numEpisodes
      invariant e <= numEpisodes && k <= |results|
      invariant rewards[..e] == all[..e]
      invariant Returns(results[k..]) == all[e..]
    {
      var episodeReward, next := RunEpisode(results, k);
      EpisodeBoundary(results, k, next, episodeReward);
      SplitHead(all, e, episodeReward, Returns(results[next..]));
      ghost var before := rewards[..];
      rewards[e] := episodeReward;
      assert rewards[..] == before[e := episodeReward];
      PrefixExtend(before, rewards[..], all, e);
      e, k := e + 1, next;
    }
    assert all[..numEpisodes] == rewards[..];
  }
}
