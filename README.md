# DQN agent and replay memory, modelled in Dafny

This project models the core of a small Deep Q-Network agent.

- **Replay memory (`replay_memory.py`).** Its constructor burns in `burn_in` transitions from a random policy, resetting the environment whenever an episode ends. `append` grows the list up to `memory_size` entries and then overwrites slot `oldest`, advancing `oldest` round the ring. `sample` draws `batch_size` distinct indices and unzips the chosen transitions into five index-aligned sequences.
- **Agent (`dqn_agent.py`).** The model covers five parts:
  - the epsilon-greedy `policy`, whose greedy action is the first maximum (`np.argmax`);
  - the bootstrapped TD target, the difference between target and the value of the action taken, and the mean-squared loss, computed over `real`;
  - the staircase exponential learning-rate decay with its lower clip;
  - the counters of the non-replay `train` loop: the iteration `i`, `episode_start`, the evaluation cadence, the checkpoint cadence and the logged episode lengths;
  - `evaluate`, which adds up each episode's rewards.

The environment is modelled as a recording (`Environment.Env`): `reset(k)` and `step(k)` give what the k-th call of reset and of step returns. `sampleAction(k)` is the random action that would be taken at step k; it is drawn per step, not per call of `action_space.sample()`. Q-values, the uniform draw `u`, the per-iteration epsilon and the index draw of `sample` all become parameters.

Modules:
- `Environment` holds the shared values: observations, step results, transitions, environments.
- `Arith` holds facts about Euclidean division and remainder.
- `Replay` models `replay_memory.py`. `ReplayMemory` is a class whose methods update `memory` and `oldest` in place. `Valid()` is the value-level predicate `Consistent`, which relates the stored list to the history of insertions. The burn-in is a nested-loop method.
- `DqnAgent` models `dqn_agent.py`. The target, loss, learning-rate and policy expressions are functions. `train`'s loop and `evaluate`'s two loops are methods proved against recursive specification functions.

Two behaviours of the source shape the model:
- A capacity of 0 makes `append` fail (replay_memory.py:40-41). An empty memory fails with an index error at line 40. A non-empty one fails with a modulo by zero at line 41. `Append` therefore requires a positive capacity.
- Burn-in never consults `memory_size` (replay_memory.py:18-26). A full memory therefore keeps the larger of `burn_in` and `memory_size` entries, and appends never overwrite the slots from `memory_size` on (`OverfullTailKept`).

Reference definitions that the contracts are stated against:
- `Replay.BurnInTrace` is the sequence of transitions burn-in records. `Replay.EndedBefore` counts the episodes ended so far, which is the index of the next reset. `Replay.BurnInState` is the state each burn-in step acts in.
- `Replay.Consistent` is the invariant of the memory. `Replay.RingHolds`, `Replay.RingRead` and `Replay.Recent` describe the ring of its first `memory_size` slots.
- `DqnAgent.Decayed` is `tf.train.exponential_decay` with `staircase=True` (dqn_agent.py:76-78): the base rate times the decay rate raised to `step / lr_decay_steps` (integer division).
- `DqnAgent.Gather` and `DqnAgent.DiagPart` are `tf.gather(..., axis=1)` and `tf.diag_part` (dqn_agent.py:36).
- `DqnAgent.ResetCount` counts the environment resets of `train`: one before the loop (dqn_agent.py:114), one per terminal step (149) and one per evaluation (166). `DqnAgent.TrainState` is the state each iteration acts in. `DqnAgent.TrainStep` is the transition it produces.
- `DqnAgent.Multiples` lists the iterations at which a cadence fires. `DqnAgent.LoggedLengths` lists the logged episode lengths.
- `DqnAgent.Returns` lists the total reward of each complete episode in a sequence of step results. `evaluate` is proved against it.

## Model

| member | source | states |
|---|---|---|
| Replay.BurnInShape | replay_memory.py:16-27 | burn-in records exactly `burn_in` transitions however many episodes end; each takes the random action of its step and the environment's answer; the first starts from the first reset; each later one starts at the previous next state, or at the next reset after a terminal step |
| Replay.BurnInResetsInOrder | replay_memory.py:18-20 | the reset index used by burn-in never decreases and grows by at most one per step |
| Replay.RunBurnIn | replay_memory.py:16-26 | the nested reset/step loop records exactly the burn-in trace |
| Replay.ReplayMemory.constructor | replay_memory.py:6-27 | after construction the memory is the burn-in trace of length `burn_in`, `oldest` is 0, the capacity is stored, and the invariant holds for any burn-in length |
| Replay.ReplayMemory.Append | replay_memory.py:35-41 | below capacity: the transition is added at the end and `oldest` is unchanged; when full: the length is unchanged, only slot `oldest` (always below the capacity) is replaced, and `oldest` advances modulo the capacity; the invariant is kept |
| Replay.ReplayMemory.Sample | replay_memory.py:29-33 | a draw of distinct in-range indices implies `batch_size <= len(memory)`; the five sequences have length `batch_size` and their k-th entries make up `memory[idx[k]]`; the batch is a sub-multiset of the memory; the memory is unchanged |
| Replay.ChoiceFits | replay_memory.py:32 | distinct indices below `size` number at most `size` |
| Replay.ChoiceExistsIff | replay_memory.py:32 | a draw of `batch_size` distinct indices out of `size` exists if and only if `batch_size <= size` |
| Replay.PickWithoutReplacement | replay_memory.py:32-33 | picking at distinct indices never picks a transition more often than it is stored |
| Replay.RingStep | replay_memory.py:39-41 | overwriting slot `oldest` and advancing it keeps the slots a ring over the window extended by the new transition |
| Replay.RingOrder | replay_memory.py:37-41 | reading slot `(oldest + k) % size` for k below the capacity gives the last `size` entries of the window in insertion order |
| Replay.ConsistentAfterBurnIn | replay_memory.py:14-27 | the invariant holds right after burn-in, whether the burn-in is below, at or above the capacity |
| Replay.ConsistentAfterGrow | replay_memory.py:37-38 | growing below capacity keeps the invariant; reaching the capacity starts the ring at slot 0 |
| Replay.ConsistentAfterOverwrite | replay_memory.py:39-41 | overwriting a full memory keeps the invariant, and the overwritten slot is below the capacity |
| Replay.FullMemoryIsRecent | replay_memory.py:37-41 | with burn-in no larger than the capacity, a full memory read round the ring from `oldest` is the last `memory_size` transitions inserted, in order |
| Replay.FullMemoryHoldsRecent | replay_memory.py:37-41 | with burn-in no larger than the capacity, a full memory has exactly `memory_size` entries, and a transition is stored exactly when it is one of the last `memory_size` inserted |
| Replay.FiftyThenSixty | replay_memory.py:16-41 | a burn-in of 50 into capacity 100 followed by 60 appends leaves exactly 100 stored: the burn-in transitions without the first 10, plus all 60 appended |
| Replay.OverfullTailKept | replay_memory.py:18-41 | with burn-in above the capacity, the length stays at the burn-in length and the slots from the capacity on keep their burn-in transitions |
| DqnAgent.Argmax | dqn_agent.py:61 | the greedy index is in range, no value exceeds it, and every earlier value is strictly smaller |
| DqnAgent.FirstMaxUnique | dqn_agent.py:61 | an index is a first maximum if and only if it is the argmax |
| DqnAgent.Policy | dqn_agent.py:59-66 | for `u > epsilon` the action is the first maximum of the Q-values, otherwise it is the environment's random action |
| DqnAgent.MaxValue | dqn_agent.py:35 | the row maximum bounds every entry and is attained |
| DqnAgent.MaxValueAtArgmax | dqn_agent.py:35 | the row maximum is the value at the greedy action |
| DqnAgent.TdTarget | dqn_agent.py:35 | a terminal row's target is its reward; for any gamma, a non-terminal row's target is `reward + gamma * q[a]` where a is the greedy action; when gamma is non-negative it is at least `reward + gamma * q[j]` for every j |
| DqnAgent.TdTargetExample | dqn_agent.py:35 | reward 1, gamma 0.9 and next values [2, 5] give the target 5.5 |
| DqnAgent.TdTargetExampleTerminal | dqn_agent.py:35 | a terminal row with reward 5 has target 5 for any next values |
| DqnAgent.Targets | dqn_agent.py:35 | one target per row; a terminal row's target is its reward; a non-terminal row's target is the reward plus gamma times the next-state value of the greedy action |
| DqnAgent.Diff | dqn_agent.py:36 | gather followed by the diagonal selects the taken action: `diff[k] == target[k] - q[k][action[k]]` |
| DqnAgent.Loss | dqn_agent.py:37 | the mean of the squared differences is non-negative |
| DqnAgent.LossExample | dqn_agent.py:37 | the differences [1, 3] give the loss (1 + 9) / 2 = 5 |
| DqnAgent.LossOfPerfectFit | dqn_agent.py:36-37 | a batch whose differences are all zero has zero loss |
| DqnAgent.LearningRate | dqn_agent.py:76-79 | the learning rate is at least the clip and at least the decayed rate, and equals one of them |
| DqnAgent.LearningRateNonIncreasing | dqn_agent.py:76-79 | with a non-negative base rate and a decay rate in [0, 1], the learning rate never increases with the step |
| DqnAgent.DecayedNextStair | dqn_agent.py:76-78 | the staircase rate drops by one factor of the decay rate every `lr_decay_steps` steps |
| DqnAgent.MultiplesMembers | dqn_agent.py:156 | a cadence fires after iteration s exactly when `1 <= s <= n` and s is a multiple of the cadence |
| DqnAgent.MultiplesIncreasing | dqn_agent.py:156 | the iterations at which a cadence fires are listed in strictly increasing order |
| DqnAgent.MultiplesCount | dqn_agent.py:156 | a cadence of d fires `n / d` times in n iterations |
| DqnAgent.EpisodeStart | dqn_agent.py:112-167 | `episode_start` never exceeds `i` |
| DqnAgent.LoggedLengthsPositive | dqn_agent.py:148-153 | every logged episode length is at least 1 |
| DqnAgent.LoggedLengthsFit | dqn_agent.py:148-153 | the logged lengths add up to at most `episode_start`, which is at most the iterations run |
| DqnAgent.TrainChaining | dqn_agent.py:148-167 | an iteration acts in the previous next state when that step was not terminal and no evaluation intervened; otherwise it acts in a fresh reset and `episode_start` becomes `i` |
| DqnAgent.SavesInLoop | dqn_agent.py:105-170 | with `max_iter >= 3` the loop saves between three and five times, in addition to the saves before and after it |
| DqnAgent.Train | dqn_agent.py:111-170 | the loop runs exactly `max_iter` iterations, and step i uses the state and policy action described by TrainStep; evaluations run after exactly the iterations divisible by `steps_per_eval`; the logged lengths are the episode lengths; saves happen at 0, at every multiple of `max_iter // 3`, and at the end |
| DqnAgent.FirstDone | dqn_agent.py:51-53 | the index of the first terminal step: every earlier step is non-terminal |
| DqnAgent.ReturnsCount | dqn_agent.py:47-56 | there is one episode return per terminal step |
| DqnAgent.ReturnsTotal | dqn_agent.py:47-56 | the episode returns plus the rewards of the unfinished episode add up to all the rewards |
| DqnAgent.RunEpisode | dqn_agent.py:48-55 | the inner loop stops just after the first terminal step and returns the sum of the episode's rewards |
| DqnAgent.Evaluate | dqn_agent.py:44-57 | a fresh array of `num_episodes` entries, where entry e is the total reward of the e-th complete episode |

## Left out

- TensorFlow is not modelled: the graph, session, placeholders, the Adam update, summaries, `FileWriter` and `Saver` I/O (dqn_agent.py:25-42, 84-105). A checkpoint save is modelled only as the global step at which it happens.
- The network `dqn` from `q_networks` is not part of this model. Q-values are given vectors: `qValues(i)` for train iteration i.
- gym environments are recordings (`Environment.Env`), and the per-step `info` dictionary is dropped.
- The `np.random` draws are parameters: `u` in `policy`, the index draw in `sample`, and the environment's random action.
- `tf.train.polynomial_decay` is library behaviour. The epsilon of each iteration is given as `epsilon(i)`, and nothing is assumed about it.
- Floating point: targets, losses and learning rates are `real`. 32-bit rounding and NaN are not modelled.
- DqnAgent.Loss: an empty batch makes the mean NaN, so the batch is required to be non-empty.
- DqnAgent.LossOfPerfectFit: only states that zero differences give zero loss. The converse (zero loss forces every difference to be zero) is not stated, because the products of unknown reals it needs are outside what the solver settles here.
- DqnAgent.Train: models only the non-replay branch. The replay branch is not modelled: dqn_agent.py:109 calls the three-parameter `ReplayMemory` constructor with five arguments, so that branch fails as written. The replay memory itself is modelled in `Replay`, with the gaps listed on the `Replay.` lines below.
- DqnAgent.Train: `restore` (dqn_agent.py:100-103) is not modelled. Training starts fresh, so the global step equals `i` and the first save is at step 0.
- DqnAgent.Train: the in-loop call to `evaluate` and its printing are recorded only as the iteration at which they happen, followed by the environment reset. The returns they compute are modelled separately by `Evaluate`.
- DqnAgent.Train: requires `max_iter >= 3` and `steps_per_eval > 0` whenever the loop runs. Otherwise `i % 0` fails in the source.
- DqnAgent.Evaluate: requires the environment to end at least `num_episodes` episodes, since otherwise the source never terminates. The actions chosen by `policy` during evaluation are not modelled: `evaluate` records only rewards and terminal flags, so the model takes those as a sequence of step results.
- Replay.ReplayMemory.Sample: takes the index draw as a parameter that must be valid. It does not return an error value when `batch_size > len(memory)`. ChoiceExistsIff shows that a valid draw exists exactly when `batch_size <= len(memory)`.
- Replay.ReplayMemory.Sample: for `batch_size` 0 it returns five empty sequences. The source's `zip(*...)` over zero rows yields no sequences at all, so the five-way unpacking of its result (dqn_agent.py:121) would fail. That failure belongs to the caller's unpacking, not to `sample`, and it is not modelled.
- Replay.ReplayMemory.Append: requires a positive capacity, because the source fails on a capacity of 0.
- The `np.array(self.memory)[idx]` object-array conversion (replay_memory.py:33) is modelled as plain indexed selection followed by an unzip.
- Sizes and counts (`memory_size`, `burn_in`, `batch_size`, `max_iter`, `steps_per_eval`, `num_episodes`) are `nat`. Negative values, which the source would either accept silently or reject, are not modelled.
- The construction of `DQNAgent` (dqn_agent.py:20-42) is not modelled beyond the target, difference and loss expressions.
