/** Values shared by the replay memory and the agent: observations, the
    result of one environment step, a recorded transition, and the
    environment itself seen as a recording of what its calls return. */
module Environment {

  /** An observation of the environment (a fixed-shape vector of numbers). */
  type Observation = seq<real>

  /** What one call of the environment's step returns: the next observation,
      the reward and the episode-over flag (the `info` dictionary is dropped). */
  datatype StepResult = StepResult(nextState: Observation, reward: real, done: bool)

  /** One transition (state, action, reward, next_state, done), as stored in
      the replay memory and fed to a training step. */
  datatype Transition = Transition(state: Observation, action: nat, reward: real, nextState: Observation, done: bool)

  /** An environment as the agent sees it: `reset(k)` is the observation the
      k-th call of reset returns, `sampleAction(k)` the random action drawn
      for step k, and `step(k)` the result of the k-th call of step. The
      dynamics that produce these values are not part of the model. */
  datatype Env = Env(reset: nat -> Observation, sampleAction: nat -> nat, step: nat -> StepResult)

  /** The transition recorded when `action` taken in `state` produced `result`. */
  function Record(state: Observation, action: nat, result: StepResult): Transition {
    Transition(state, action, result.reward, result.nextState, result.done)
  }
}
