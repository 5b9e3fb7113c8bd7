/** The replay memory of replay_memory.py: a list of transitions that is
    filled by a random-policy burn-in, grows by `Append` up to `memorySize`
    entries and then overwrites its slots in ring order, and from which
    batches of distinct transitions are sampled. */
module Replay {
  import opened Environment
  import Arith

  function Min(a: nat, b: nat): nat { if a <= b then a else b }
  function Max(a: nat, b: nat): nat { if a <= b then b else a }

  // ---------------------------------------------------------------------
  // Burn-in: what the constructor records.
  // ---------------------------------------------------------------------

  /** The number of episodes that ended within the first k burn-in steps.
      A step that starts an episode observes reset number EndedBefore(env, k). */
  function EndedBefore(env: Env, k: nat): (r: nat)
    ensures r <= k
  {
    if k == 0 then 0 else EndedBefore(env, k - 1) + (if env.step(k - 1).done then 1 else 0)
  }

  /** The state in which burn-in takes its k-th step: a fresh reset at the
      start and after a step that ended the episode, otherwise the previous
      step's next state. */
  function BurnInState(env: Env, k: nat): Observation {
    if k == 0 || env.step(k - 1).done then env.reset(EndedBefore(env, k))
    else env.step(k - 1).nextState
  }

  /** The transition burn-in records at its k-th step. */
  function BurnInStep(env: Env, k: nat): Transition {
    Record(BurnInState(env, k), env.sampleAction(k), env.step(k))
  }

  /** The first n transitions of a burn-in run. */
  function BurnInTrace(env: Env, n: nat): seq<Transition> {
    seq(n, k requires 0 <= k < n => BurnInStep(env, k))
  }

  /** Burn-in records exactly n transitions, whatever episodes end on the
      way; each takes the action drawn for its step and the environment's
      answer to it; each starts where the previous one ended, unless that
      one ended its episode, and then it starts from the next reset. */
  lemma BurnInShape(env: Env, n: nat)
    ensures |BurnInTrace(env, n)| == n
    ensures n > 0 ==> BurnInTrace(env, n)[0].state == env.reset(0)
    ensures forall k :: 0 <= k < n ==>
      var t := BurnInTrace(env, n)[k];
      t.action == env.sampleAction(k) && t.reward == env.step(k).reward &&
      t.nextState == env.step(k).nextState && t.done == env.step(k).done
    ensures forall k :: 0 < k < n ==>
      var t := BurnInTrace(env, n);
      (!t[k - 1].done ==> t[k].state == t[k - 1].nextState) &&
      (t[k - 1].done ==> t[k].state == env.reset(EndedBefore(env, k)))
  {
  }

  /** Burn-in consumes the resets in order: the reset index never
      decreases, and grows by at most one per step. */
  lemma {:induction false} BurnInResetsInOrder(env: Env, j: nat, k: nat)
    requires j <= k
    ensures EndedBefore(env, j) <= EndedBefore(env, k)
    ensures EndedBefore(env, k) - EndedBefore(env, j) <= k - j
    decreases k
  {
    if j < k {
      BurnInResetsInOrder(env, j, k - 1);
    }
  }

  // ---------------------------------------------------------------------
  // Sampling: a choice of distinct indices, and the batch it picks.
  // ---------------------------------------------------------------------

  predicate InRange(idx: seq<nat>, size: nat) {
    forall k :: 0 <= k < |idx| ==> idx[k] < size
  }

  predicate Distinct(idx: seq<nat>) {
    forall a, b :: 0 <= a < |idx| && 0 <= b < |idx| && a != b ==> idx[a] != idx[b]
  }

  /** What a draw of `batchSize` indices without replacement out of
      `size` can return. */
  predicate ValidChoice(idx: seq<nat>, size: nat, batchSize: nat) {
    |idx| == batchSize && InRange(idx, size) && Distinct(idx)
  }

  /** The transitions at the chosen indices, in the order of the choice. */
  function Pick<T>(m: seq<T>, idx: seq<nat>): seq<T>
    requires InRange(idx, |m|)
  {
    seq(|idx|, k requires 0 <= k < |idx| => m[idx[k]])
  }

  /** idx with its p-th entry removed. */
  function RemoveAt(idx: seq<nat>, p: nat): (r: seq<nat>)
    requires p < |idx|
    ensures |r| == |idx| - 1
  {
    idx[..p] + idx[p + 1..]
  }

  /** Removing the entry equal to `size - 1` from a distinct in-range
      choice leaves a distinct choice within `size - 1`. */
  lemma {:induction false} RemoveLargest(idx: seq<nat>, size: nat, p: nat)
    requires size > 0 && p < |idx| && idx[p] == size - 1
    requires InRange(idx, size) && Distinct(idx)
    ensures InRange(RemoveAt(idx, p), size - 1) && Distinct(RemoveAt(idx, p))
    ensures multiset(RemoveAt(idx, p)) + multiset{idx[p]} == multiset(idx)
  {
    var r := RemoveAt(idx, p);
    forall k | 0 <= k < |r|
      ensures r[k] == idx[if k < p then k else k + 1]
    {
    }
    forall k | 0 <= k < |r|
      ensures r[k] < size - 1
    {
      var k' := if k < p then k else k + 1;
      assert idx[k'] < size && idx[k'] != idx[p];
    }
    forall a, b | 0 <= a < |r| && 0 <= b < |r| && a != b
      ensures r[a] != r[b]
    {
      var a', b' := if a < p then a else a + 1, if b < p then b else b + 1;
      assert idx[a'] != idx[b'];
    }
    assert idx == idx[..p] + [idx[p]] + idx[p + 1..];
  }

  /** No-replacement sampling needs enough entries: a choice of distinct
      indices below `size` has at most `size` entries. */
  lemma {:induction false} ChoiceFits(idx: seq<nat>, size: nat)
    requires InRange(idx, size) && Distinct(idx)
    ensures |idx| <= size
    decreases size
  {
    if |idx| > 0 {
      assert idx[0] < size;
      if p :| 0 <= p < |idx| && idx[p] == size - 1 {
        RemoveLargest(idx, size, p);
        ChoiceFits(RemoveAt(idx, p), size - 1);
      } else {
        assert InRange(idx, size - 1);
        ChoiceFits(idx, size - 1);
      }
    }
  }

  /** A batch of `batchSize` distinct indices out of `size` exists exactly
      when `batchSize <= size` (the condition under which the draw in
      `sample` succeeds). */
  lemma ChoiceExistsIff(size: nat, batchSize: nat)
    ensures (exists idx :: ValidChoice(idx, size, batchSize)) <==> batchSize <= size
  {
    if batchSize <= size {
      var idx: seq<nat> := seq(batchSize, k requires 0 <= k < batchSize => k);
      assert ValidChoice(idx, size, batchSize);
    }
    if idx :| ValidChoice(idx, size, batchSize) {
      ChoiceFits(idx, size);
    }
  }

  lemma PickConcat<T>(m: seq<T>, a: seq<nat>, b: seq<nat>)
    requires InRange(a, |m|) && InRange(b, |m|)
    ensures InRange(a + b, |m|) && Pick(m, a + b) == Pick(m, a) + Pick(m, b)
  {
  }

  lemma PickPrefix<T>(m: seq<T>, n: nat, idx: seq<nat>)
    requires n <= |m| && InRange(idx, n)
    ensures Pick(m, idx) == Pick(m[..n], idx)
  {
  }

  /** Sampling without replacement: the picked transitions form a
      sub-multiset of the memory, so no stored transition is picked more
      often than it is stored. */
  lemma {:induction false} PickWithoutReplacement<T>(m: seq<T>, idx: seq<nat>)
    requires InRange(idx, |m|) && Distinct(idx)
    ensures multiset(Pick(m, idx)) <= multiset(m)
    decreases |m|
  {
    if |idx| == 0 {
      assert Pick(m, idx) == [];
    } else {
      assert idx[0] < |m|;
      var n := |m| - 1;
      var init := m[..n];
      assert m == init + [m[n]];
      if p :| 0 <= p < |idx| && idx[p] == n {
        var before, after := idx[..p], idx[p + 1..];
        assert idx == before + [n] + after;
        RemoveLargest(idx, |m|, p);
        PickWithoutReplacement(init, before + after);
        PickConcat(m, before + [n], after);
        PickConcat(m, before, [n]);
        PickConcat(m, before, after);
        PickPrefix(m, n, before + after);
        assert Pick(m, [n]) == [m[n]];
        calc {
          multiset(Pick(m, idx));
          multiset(Pick(m, before) + [m[n]] + Pick(m, after));
          multiset(Pick(init, before + after)) + multiset{m[n]};
        }
      } else {
        assert InRange(idx, n);
        PickWithoutReplacement(init, idx);
        PickPrefix(m, n, idx);
      }
    }
  }

  // ---------------------------------------------------------------------
  // Ring order of the slots once the memory is full.
  // ---------------------------------------------------------------------

  /** The `size` slots of `memory` hold the last `size` entries of `window`:
      slot j holds the entry `(j - oldest) mod size` places after the
      oldest one still kept, so `oldest` is the slot evicted next. */
  predicate RingHolds(memory: seq<Transition>, oldest: nat, size: nat, window: seq<Transition>) {
    && size <= |memory| && size <= |window|
    && forall j :: 0 <= j < size ==>
         memory[j] == window[|window| - size + (j - oldest) % size]
  }

  /** Overwriting slot `oldest` and advancing `oldest` by one round the
      ring moves every other slot one place closer to the front of the
      window and puts the new entry at its end. */
  lemma RingSlotStep(j: int, oldest: int, size: int)
    requires 0 <= j < size && 0 <= oldest < size
    ensures j != oldest ==> (j - (oldest + 1) % size) % size == (j - oldest) % size - 1
    ensures (oldest - (oldest + 1) % size) % size == size - 1
  {
    Arith.ModWrap(oldest + 1, size);
    Arith.ModRange(j - oldest, size);
    Arith.ModRange(j - (oldest + 1) % size, size);
    Arith.ModRange(oldest - (oldest + 1) % size, size);
  }

  /** Overwriting the oldest slot and advancing `oldest` keeps the ring in
      order for the window extended by the new transition. */
  lemma RingStep(memory: seq<Transition>, oldest: nat, size: nat, window: seq<Transition>, t: Transition)
    requires 0 <= oldest < size
    requires RingHolds(memory, oldest, size, window)
    ensures RingHolds(memory[oldest := t], (oldest + 1) % size, size, window + [t])
  {
    var m', o', w' := memory[oldest := t], (oldest + 1) % size, window + [t];
    forall j | 0 <= j < size
      ensures m'[j] == w'[|w'| - size + (j - o') % size]
    {
      RingSlotStep(j, oldest, size);
      Arith.ModRange(j - oldest, size);
    }
  }

  /** A memory that has just reached `size` entries, in insertion order,
      is a ring with oldest slot 0. */
  lemma RingStart(memory: seq<Transition>, size: nat)
    requires |memory| == size
    ensures RingHolds(memory, 0, size, memory)
  {
    forall j | 0 <= j < size
      ensures memory[j] == memory[|memory| - size + (j - 0) % size]
    {
      Arith.ModRange(j, size);
    }
  }

  /** The slot read k places after `oldest`, going round the ring. */
  function RingRead(memory: seq<Transition>, oldest: nat, size: nat, k: nat): Transition
    requires k < size <= |memory|
  {
    memory[(oldest + k) % size]
  }

  /** The k-th of the last `size` entries of the window. */
  function Recent(window: seq<Transition>, size: nat, k: nat): Transition
    requires k < size <= |window|
  {
    window[|window| - size + k]
  }

  /** Reading the slots from `oldest` round the ring yields the last `size`
      entries of the window in insertion order. */
  lemma {:induction false} RingOrder(memory: seq<Transition>, oldest: nat, size: nat, window: seq<Transition>)
    requires oldest < size && RingHolds(memory, oldest, size, window)
    ensures forall k: nat :: k < size ==>
      RingRead(memory, oldest, size, k) == Recent(window, size, k)
  {
    forall k: nat | k < size
      ensures RingRead(memory, oldest, size, k) == Recent(window, size, k)
    {
      Arith.ModWrap(oldest + k, size);
      var j := (oldest + k) % size;
      Arith.ModRange(j - oldest, size);
    }
  }

  /** Burn-in with a random policy, as the constructor of replay_memory.py
      runs it: reset the environment, take random actions until an episode
      ends or `burnIn` transitions have been recorded, and reset again as
      often as needed. */
  method RunBurnIn(burnIn: nat, env: Env) returns (recorded: seq<Transition>)
    ensures recorded == BurnInTrace(env, burnIn)
  {
    recorded := [];
    var i: nat := 0;
    var resets: nat := 0;
    while i < burnIn
      invariant i <= burnIn && |recorded| == i
      invariant forall k :: 0 <= k < i ==> recorded[k] == BurnInStep(env, k)
      invariant i < burnIn ==> (i == 0 || env.step(i - 1).done) && resets == EndedBefore(env, i)
      decreases burnIn - i
    {
      var done := false;
      var state := env.reset(resets);
      resets := resets + 1;
      ghost var start := i;
      while !done && i < burnIn
        invariant start <= i <= burnIn && |recorded| == i
        invariant i == start ==> !done
        invariant forall k :: 0 <= k < i ==> recorded[k] == BurnInStep(env, k)
        invariant !done ==> state == BurnInState(env, i) && resets == EndedBefore(env, i) + 1
        invariant done ==> i > 0 && env.step(i - 1).done && resets == EndedBefore(env, i)
      {
        var action := env.sampleAction(i);
        var result := env.step(i);
        recorded := recorded + [Record(state, action, result)];
        state := result.nextState;
        done := result.done;
        i := i + 1;
      }
    }
    assert recorded == BurnInTrace(env, burnIn);
  }

  // ---------------------------------------------------------------------
  // The invariant of the replay memory, on values.
  // ---------------------------------------------------------------------

  /** The transitions that compete for the first `size` slots: the burn-in
      entries that fit there, then everything appended. */
  function Window(burnedIn: seq<Transition>, appended: seq<Transition>, size: nat): seq<Transition> {
    burnedIn[..Min(|burnedIn|, size)] + appended
  }

  /** What ties the stored list to the history of insertions (`burnedIn`
      by the constructor, then `appended` by Append).
      - `oldest` is 0 or a slot below the capacity.
      - While not full, the memory is every insertion in order, and
        `oldest` is still 0.
      - Once full, its length is fixed at the larger of burn-in and
        capacity; burn-in entries beyond the capacity stay where they are;
        the first `size` slots are a ring over the window. */
  predicate Consistent(memory: seq<Transition>, oldest: nat, size: nat,
                       burnedIn: seq<Transition>, appended: seq<Transition>)
  {
    && (oldest == 0 || oldest < size)
    && (|memory| < size ==> oldest == 0 && memory == burnedIn + appended)
    && (|memory| >= size ==>
          && |memory| == Max(|burnedIn|, size)
          && (|burnedIn| > size ==> memory[size..] == burnedIn[size..])
          && RingHolds(memory, oldest, size, Window(burnedIn, appended, size)))
  }

  /** Right after burn-in the invariant holds, whatever the burn-in length. */
  lemma ConsistentAfterBurnIn(memory: seq<Transition>, size: nat)
    ensures Consistent(memory, 0, size, memory, [])
  {
    if |memory| >= size {
      var w := Window(memory, [], size);
      assert w == memory[..size];
      forall j | 0 <= j < size
        ensures memory[j] == w[|w| - size + (j - 0) % size]
      {
        Arith.ModRange(j, size);
      }
    }
  }

  /** Growing a memory below capacity keeps the invariant; reaching the
      capacity starts the ring at slot 0. */
  lemma ConsistentAfterGrow(memory: seq<Transition>, oldest: nat, size: nat,
                            burnedIn: seq<Transition>, appended: seq<Transition>, t: Transition)
    requires Consistent(memory, oldest, size, burnedIn, appended) && |memory| < size
    ensures Consistent(memory + [t], oldest, size, burnedIn, appended + [t])
  {
    if |memory| + 1 == size {
      assert Window(burnedIn, appended + [t], size) == memory + [t];
      RingStart(memory + [t], size);
    }
  }

  /** Overwriting the oldest slot of a full memory and advancing `oldest`
      round the ring keeps the invariant; the slot overwritten is always
      below the capacity. */
  lemma ConsistentAfterOverwrite(memory: seq<Transition>, oldest: nat, size: nat,
                                 burnedIn: seq<Transition>, appended: seq<Transition>, t: Transition)
    requires Consistent(memory, oldest, size, burnedIn, appended) && |memory| >= size > 0
    ensures oldest < size
    ensures Consistent(memory[oldest := t], (oldest + 1) % size, size, burnedIn, appended + [t])
  {
    RingStep(memory, oldest, size, Window(burnedIn, appended, size), t);
    assert Window(burnedIn, appended + [t], size) == Window(burnedIn, appended, size) + [t];
  }

  /** With burn-in no larger than the capacity, a full memory read from
      `oldest` round the ring is the last `size` transitions ever inserted,
      in insertion order. */
  lemma {:induction false} FullMemoryIsRecent(memory: seq<Transition>, oldest: nat, size: nat,
                                              burnedIn: seq<Transition>, appended: seq<Transition>)
    requires Consistent(memory, oldest, size, burnedIn, appended)
    requires |burnedIn| <= size && |memory| >= size > 0
    ensures |burnedIn + appended| >= size
    ensures forall k: nat :: k < size ==>
      RingRead(memory, oldest, size, k) == Recent(burnedIn + appended, size, k)
  {
    assert Window(burnedIn, appended, size) == burnedIn + appended;
    RingOrder(memory, oldest, size, burnedIn + appended);
  }

  /** With burn-in no larger than the capacity, a full memory holds exactly
      `size` transitions, and they are the last `size` ever inserted: every
      stored transition is one of them and each of them is stored. */
  lemma FullMemoryHoldsRecent(memory: seq<Transition>, oldest: nat, size: nat,
                              burnedIn: seq<Transition>, appended: seq<Transition>)
    requires Consistent(memory, oldest, size, burnedIn, appended)
    requires |burnedIn| <= size && |memory| >= size > 0
    ensures |memory| == size && |burnedIn + appended| >= size
    ensures forall t :: t in memory <==>
      t in (burnedIn + appended)[|burnedIn + appended| - size..]
  {
    var w := burnedIn + appended;
    assert Window(burnedIn, appended, size) == w;
    var last := w[|w| - size..];
    forall t | t in memory
      ensures t in last
    {
      var j :| 0 <= j < |memory| && memory[j] == t;
      Arith.ModRange(j - oldest, size);
      assert memory[j] == last[(j - oldest) % size];
    }
    FullMemoryIsRecent(memory, oldest, size, burnedIn, appended);
    forall t | t in last
      ensures t in memory
    {
      var k :| 0 <= k < size && last[k] == t;
      assert RingRead(memory, oldest, size, k) == Recent(w, size, k);
    }
  }

  /** Burning in 50 transitions into a memory of capacity 100 and then
      appending 60 more leaves exactly 100 stored: all but the first 10
      burn-in transitions, and everything appended. */
  lemma FiftyThenSixty(memory: seq<Transition>, oldest: nat,
                       burnedIn: seq<Transition>, appended: seq<Transition>)
    requires |burnedIn| == 50 && |appended| == 60
    requires Consistent(memory, oldest, 100, burnedIn, appended)
    ensures |memory| == 100
    ensures forall t :: t in memory <==> t in burnedIn[10..] + appended
  {
    assert |burnedIn + appended| == 110;
    FullMemoryHoldsRecent(memory, oldest, 100, burnedIn, appended);
    assert (burnedIn + appended)[10..] == burnedIn[10..] + appended;
  }

  /** With burn-in larger than the capacity, appends never reach the slots
      from `size` on: the memory keeps the burn-in length and those burn-in
      transitions for good. */
  lemma OverfullTailKept(memory: seq<Transition>, oldest: nat, size: nat,
                         burnedIn: seq<Transition>, appended: seq<Transition>)
    requires Consistent(memory, oldest, size, burnedIn, appended) && |burnedIn| > size
    ensures |memory| == |burnedIn|
    ensures memory[size..] == burnedIn[size..]
  {
  }

  // ---------------------------------------------------------------------
  // The replay memory object.
  // ---------------------------------------------------------------------

  class ReplayMemory {
    /** The capacity after which `Append` overwrites instead of growing. */
    const memorySize: nat
    /** The stored transitions. */
    var memory: seq<Transition>
    /** The slot `Append` overwrites next once the memory is full. */
    var oldest: nat
    /** What the constructor recorded during burn-in. */
    ghost var burnedIn: seq<Transition>
    /** Every transition given to `Append`, oldest first. */
    ghost var appended: seq<Transition>

    /** The object invariant: Consistent over the fields. */
    ghost predicate Valid()
      reads this
    {
      Consistent(memory, oldest, memorySize, burnedIn, appended)
    }

    /** The constructor: records `burnIn` transitions by RunBurnIn.
        `memorySize` is not consulted, so the memory may start out longer
        than its capacity. */
    constructor (memorySize: nat, burnIn: nat, env: Env)
      ensures Valid()
      ensures this.memorySize == memorySize && oldest == 0
      ensures memory == BurnInTrace(env, burnIn) && |memory| == burnIn
      ensures burnedIn == memory && appended == []
    {
      this.memorySize := memorySize;
      var recorded := RunBurnIn(burnIn, env);
      memory := recorded;
      oldest := 0;
      burnedIn := recorded;
      appended := [];
      new;
      ConsistentAfterBurnIn(memory, memorySize);
    }

    /** Store one transition: grow while below capacity, otherwise
        overwrite the oldest slot and advance `oldest` round the ring.
        With a capacity of 0 the source fails (an index error on an empty
        list, or a modulo by zero), so a positive capacity is required. */
    method Append(t: Transition)
      requires Valid() && memorySize > 0
      modifies this
      ensures Valid()
      ensures burnedIn == old(burnedIn) && appended == old(appended) + [t]
      ensures old(|memory|) < memorySize ==>
        memory == old(memory) + [t] && oldest == old(oldest)
      ensures old(|memory|) >= memorySize ==>
        && old(oldest) < memorySize
        && |memory| == old(|memory|)
        && memory[old(oldest)] == t
        && (forall j :: 0 <= j < |memory| && j != old(oldest) ==> memory[j] == old(memory[j]))
        && oldest == (old(oldest) + 1) % memorySize
    {
      if |memory| < memorySize {
        ConsistentAfterGrow(memory, oldest, memorySize, burnedIn, appended, t);
        memory := memory + [t];
      } else {
        ConsistentAfterOverwrite(memory, oldest, memorySize, burnedIn, appended, t);
        memory := memory[oldest := t];
        oldest := (oldest + 1) % memorySize;
      }
      appended := appended + [t];
    }

    /** Unzip the transitions at a drawn batch of distinct indices into
        five index-aligned sequences. The draw itself is a parameter;
        ChoiceExistsIff shows it exists exactly when
        `batchSize <= |memory|`. */
    method Sample(batchSize: nat, idx: seq<nat>)
      returns (states: seq<Observation>, actions: seq<nat>, rewards: seq<real>,
               nextStates: seq<Observation>, dones: seq<bool>)
      requires ValidChoice(idx, |memory|, batchSize)
      ensures batchSize <= |memory|
      ensures |states| == |actions| == |rewards| == |nextStates| == |dones| == batchSize
      ensures forall k :: 0 <= k < batchSize ==>
        Transition(states[k], actions[k], rewards[k], nextStates[k], dones[k]) == memory[idx[k]]
      ensures multiset(Pick(memory, idx)) <= multiset(memory)
    {
      ChoiceFits(idx, |memory|);
      PickWithoutReplacement(memory, idx);
      var batch := Pick(memory, idx);
      states := seq(batchSize, k requires 0 <= k < batchSize => batch[k].state);
      actions := seq(batchSize, k requires 0 <= k < batchSize => batch[k].action);
      rewards := seq(batchSize, k requires 0 <= k < batchSize => batch[k].reward);
      nextStates := seq(batchSize, k requires 0 <= k < batchSize => batch[k].nextState);
      dones := seq(batchSize, k requires 0 <= k < batchSize => batch[k].done);
    }
  }
}
