# Actor-critic Blackjack player: replay memory, update rules and training loop

This project models the sequential logic of `PlayerMLP`, the one-step
actor-critic player of the Blackjack reinforcement-learning experiments, and of
the `ReplayMemory` it trains from. It proves properties of that model.

- `replay_memory.dfy` (module `ReplayBuffer`) covers `ReplayMemory`, a class
  with the source's fields `memory`, `position` and `capacity`.
  - `Push` appends until the list is full. After that it overwrites the slot
    at the cursor. In both cases it advances the cursor modulo the capacity.
  - `Sample` draws `k` entries from `k` distinct slots. It reports the
    `ValueError` of `random.sample` as `Err` when `k < 0` or `k > len(memory)`.
  - The functions `Cursor` and `Contents` give the cursor and the list after
    any sequence of pushes. The class invariant `Valid` ties the fields to
    them.
  - `FifoContents` is the ring buffer that always overwrites the oldest
    entry. The lemmas compare the buffer as written against it.
- `actor_critic.dfy` (module `ActorCritic`) holds two rules and the batch fold.
  - The critic's TD target: `r` after the last step, else
    `r + gamma * V(sp)`.
  - The actor's advantage: `r - V(s)` or `r + gamma * V(sp) - V(s)`.
  - What a batch does to both networks when each transition gets the actor
    step and then the critic step.
  - The value network is the function `S -> real` it currently computes. The
    two optimizer steps are function parameters.
- `state_table.dfy` (module `StateTable`) is the mixed-radix numbering of the
  rows of `get_all_state_tensor`. It also holds the innermost loop of that
  method.
- `player.dfy` (module `Player`) covers the class `PlayerMLP`.
  - `Policy_update`, `TD_update_V`, `Batch_update`, `reset_episode`,
    `run_episode1`, `run_simulation` and `get_all_state_tensor` are its
    methods.
  - `Trans_Memory` does not exist until `run_simulation` creates it. The model
    holds it as a nullable reference.
  - A ghost `updates` log records every gradient step in order.
  - `Networks` bundles the value function, the policy and that log.
    `AfterBatch` is their state after one batch, and `AfterEpisodes` after
    one batch per episode.
  - `MemoryAfter` is the replay memory of a training run after its first
    episodes. `GatedBatch` says which batch `run_episode1` trains on given
    that memory: `batch_size` transitions drawn from it when it holds more
    than `100 * batch_size`, and none otherwise.
- `arith.dfy` (module `Arith`) holds quotient and remainder facts that the
  cursor and row proofs use.

The casino is not modelled. An episode is given as its start state and the
steps it produced. Each step is the sampled action, the reward, and the next
state, or `None` once the game is over. The wall-clock budget of
`run_simulation` is given as the number of time checks that pass.

In three places the code behaves differently from what one might take it to
do. The model follows the code:
- `ReplayMemory` is not an oldest-first ring buffer. The code starts the
  cursor at -1, so push number `capacity + 1` overwrites slot
  `capacity - 1`, which holds the newest item.
  - Capacity 3 with pushes A, B, C, D leaves `[A, B, D]`, not B, C, D.
  - `ContentsIsFifoWithoutOne` states the exact difference: the buffer equals
    an oldest-first ring buffer fed with every push except push number
    `capacity - 1`.
  - `LossHealsAfterTwoRounds` shows that from `2 * capacity` pushes on, the
    buffer again holds exactly the last `capacity` pushes.
- `Batch_update` does not use an order with the critic step first. For each
  transition of a batch it calls `Policy_update` first and then
  `TD_update_V`.
  - Both steps see the value network as it was before that transition's
    critic step.
- `sample` does not fail on a check of `k > len(memory)` alone.
  `random.sample` also raises for a negative `k`, and the model includes
  that case.

## Model

| member | source | states |
|---|---|---|
| ReplayBuffer.Cursor | Blackjack/NNPlayer_RL_agents/NNPlayer_AC_Baseline.py:19-29 | the cursor after `n` pushes is -1 exactly when nothing has been pushed, and otherwise a valid slot index in `[0, capacity)` |
| ReplayBuffer.Contents | Blackjack/NNPlayer_RL_agents/NNPlayer_AC_Baseline.py:23-29 | after `N` pushes the list has length `min(N, capacity)`, and every entry is one of the pushed items |
| ReplayBuffer.ReplayMemory.constructor | Blackjack/NNPlayer_RL_agents/NNPlayer_AC_Baseline.py:18-21 | a new buffer is empty, with cursor -1 and the given capacity, and satisfies the class invariant |
| ReplayBuffer.ReplayMemory.Push | Blackjack/NNPlayer_RL_agents/NNPlayer_AC_Baseline.py:23-29 | keeps the invariant (list and cursor are those of the push history) and length `<= capacity`; while not full appends `x` leaving earlier entries unchanged; once full replaces exactly `memory[position]` and leaves length and all other slots unchanged; the cursor becomes `(position + 1) % capacity` |
| ReplayBuffer.ReplayMemory.Sample | Blackjack/NNPlayer_RL_agents/NNPlayer_AC_Baseline.py:31-32 | raises exactly when `k < 0` or `k > len(memory)`; otherwise returns `k` entries taken from distinct slots (sub-multiset of the memory), all of them exactly once when `k == len(memory)`; the memory is left unchanged |
| ReplayBuffer.CursorStep | Blackjack/NNPlayer_RL_agents/NNPlayer_AC_Baseline.py:26-29 | advancing the cursor modulo the capacity gives the cursor of one more push, so `position == (N - 1) mod capacity` after `N >= 1` pushes |
| ReplayBuffer.ContentsWhileFilling | Blackjack/NNPlayer_RL_agents/NNPlayer_AC_Baseline.py:24-26 | while at most `capacity` items have been pushed the list is exactly the pushes in order |
| ReplayBuffer.FirstOverwriteHitsNewest | Blackjack/NNPlayer_RL_agents/NNPlayer_AC_Baseline.py:19-28 | push number `capacity + 1` lands in slot `capacity - 1`, replacing the item pushed just before it |
| ReplayBuffer.FirstOverwriteLosesNewest | Blackjack/NNPlayer_RL_agents/NNPlayer_AC_Baseline.py:19-28 | with distinct items and capacity at least 2, after `capacity + 1` pushes the first item survives and item `capacity - 1` is lost, the reverse of an oldest-first ring buffer |
| ReplayBuffer.CapacityThreeExample | Blackjack/NNPlayer_RL_agents/NNPlayer_AC_Baseline.py:23-29 | capacity 3 with pushes A, B, C, D holds `[A, B, D]` |
| ReplayBuffer.FifoKeepsNewest | Blackjack/NNPlayer_RL_agents/NNPlayer_AC_Baseline.py:23-29 | an oldest-first ring buffer holds exactly the last `capacity` pushes, push `n` in slot `n % capacity` |
| ReplayBuffer.ContentsIsFifoWithoutOne | Blackjack/NNPlayer_RL_agents/NNPlayer_AC_Baseline.py:19-29 | once the first overwrite has happened, the buffer as written equals that ring buffer fed with every push except push number `capacity - 1` |
| ReplayBuffer.LossHealsAfterTwoRounds | Blackjack/NNPlayer_RL_agents/NNPlayer_AC_Baseline.py:19-29 | from `2 * capacity` pushes on, the buffer holds exactly the last `capacity` pushes, push `n` in slot `(n - 1) % capacity` |
| ActorCritic.TerminalTargetIsReward | Blackjack/NNPlayer_RL_agents/NNPlayer_AC_Baseline.py:162-163 | the critic's target for a terminal transition is its reward alone |
| ActorCritic.AdvantageIsTargetMinusBaseline | Blackjack/NNPlayer_RL_agents/NNPlayer_AC_Baseline.py:141-148 | in both branches the actor's advantage equals the critic's TD target minus `V(s)` |
| ActorCritic.TargetMonotone | Blackjack/NNPlayer_RL_agents/NNPlayer_AC_Baseline.py:162-166 | with `gamma >= 0`, a larger value of the successor never gives a smaller TD target |
| ActorCritic.BatchTraceAt | Blackjack/NNPlayer_RL_agents/NNPlayer_AC_Baseline.py:173-178 | a batch of `n` transitions takes `2n` steps; step `2i` is the actor step of transition `i` and step `2i + 1` its critic step, both computed with the value network left by the first `i` transitions, and the actor's advantage is that step's target minus `V(s)` |
| ActorCritic.ValueAfterAppend | Blackjack/NNPlayer_RL_agents/NNPlayer_AC_Baseline.py:173-178 | the value function after two batches in a row is that after their concatenation |
| ActorCritic.PolicyAfterAppend | Blackjack/NNPlayer_RL_agents/NNPlayer_AC_Baseline.py:173-178 | the policy after two batches in a row is that after their concatenation, the second batch starting from the value function the first left |
| ActorCritic.BatchTraceAppend | Blackjack/NNPlayer_RL_agents/NNPlayer_AC_Baseline.py:173-178 | the steps of two batches in a row are the first batch's steps followed by the second's |
| ActorCritic.AfterBatchAppend | Blackjack/NNPlayer_RL_agents/NNPlayer_AC_Baseline.py:173-178 | training on two batches in a row is training on their concatenation |
| Player.EpisodeTransitionsChain | Blackjack/NNPlayer_RL_agents/NNPlayer_AC_Baseline.py:189-200 | an episode's pushed transitions start in the start state, carry each step's action and reward, each starts in the state the previous one led to, and only the last has `sp = None` |
| Player.GateAdmitsSample | Blackjack/NNPlayer_RL_agents/NNPlayer_AC_Baseline.py:201-202 | for `batch_size >= 0` the gate `len(memory) > 100 * batch_size` implies that `sample(batch_size)` does not raise |
| Player.GateClosedForLargeBatches | Blackjack/NNPlayer_RL_agents/NNPlayer_AC_Baseline.py:201-207 | with the capacity-1000 memory of the training run, the gate never opens for `batch_size >= 10` |
| Player.GateOpensAfterHundredPushes | Blackjack/NNPlayer_RL_agents/NNPlayer_AC_Baseline.py:201-207 | with batch size 1, the gate is open exactly when more than 100 transitions have been pushed |
| Player.PlayerMLP.constructor | Blackjack/NNPlayer_RL_agents/NNPlayer_AC_Baseline.py:78-101 | a new player has `n_episode == 0`, batch size 1, `gamma == 0.95`, no transition memory yet and the given sizes and networks |
| Player.PlayerMLP.PolicyUpdate | Blackjack/NNPlayer_RL_agents/NNPlayer_AC_Baseline.py:141-157 | one actor step, weighted by the advantage `Advantage` (`r - V(s)` after the last step, else `r + gamma * V(sp) - V(s)`) computed by the current value network; the value network is not changed |
| Player.PlayerMLP.TdUpdateV | Blackjack/NNPlayer_RL_agents/NNPlayer_AC_Baseline.py:159-171 | one critic step towards the TD target `TdTarget` (`r` after the last step, else `r + gamma * V(sp)`) computed with the value network as it was before the step; the policy is not changed |
| Player.PlayerMLP.BatchUpdate | Blackjack/NNPlayer_RL_agents/NNPlayer_AC_Baseline.py:173-178 | raises exactly when `sample` does; otherwise the batch is `batch_size` stored transitions, and the networks and step log are those of the actor step then the critic step applied to each transition in order |
| Player.PlayerMLP.ResetEpisode | Blackjack/NNPlayer_RL_agents/NNPlayer_AC_Baseline.py:180-181 | `n_episode` grows by one |
| Player.PlayerMLP.StoreEpisode | Blackjack/NNPlayer_RL_agents/NNPlayer_AC_Baseline.py:189-200 | the push history grows by exactly `EpisodeTransitions` of the episode, one transition per step, in order, and the memory keeps its invariant and capacity |
| Player.PlayerMLP.RunEpisode1 | Blackjack/NNPlayer_RL_agents/NNPlayer_AC_Baseline.py:183-202 | counts the episode and pushes its transitions; updates the networks only when the memory holds more than `100 * batch_size` transitions, and then exactly as the batch update does; raises exactly when `batch_size < 0`, and then before any update; the batch is empty or `batch_size` transitions that were pushed |
| Player.PlayerMLP.RunSimulation | Blackjack/NNPlayer_RL_agents/NNPlayer_AC_Baseline.py:201-212 | creates a fresh memory of capacity 1000, plays `min(time checks, n_episode)` episodes (none for a negative budget) and raises `n_episode` by that many; the push history is exactly the transitions of the played episodes, and the memory is `MemoryAfter` them, the buffer's `Contents` of that history (at most 1000 entries); one batch per played episode, and batch `i` has `batch_size` transitions drawn from the memory after episode `i` when that memory holds more than `100 * batch_size` transitions and none otherwise (`GatedBatch`); the networks and the step log are those of training on these batches in order, that is, of the actor-then-critic fold over all of them concatenated |
| Player.PlayerMLP.PlayEpisode | Blackjack/NNPlayer_RL_agents/NNPlayer_AC_Baseline.py:201-212 | one round of the loop: plays episode `k`, counts it, makes the push history that of the first `k + 1` episodes, gates its batch by the memory it leaves and draws the batch from it, keeps the earlier batches, and extends the per-episode training by the new batch |
| Player.BatchesOfRunStep | Blackjack/NNPlayer_RL_agents/NNPlayer_AC_Baseline.py:201-212 | appending the next episode's gated batch keeps every earlier batch gated by the memory its own episode left, and every batch made of pushed transitions |
| Player.AfterEpisodesIsOneBatch | Blackjack/NNPlayer_RL_agents/NNPlayer_AC_Baseline.py:173-212 | training episode by episode on their batches equals training once on the batches concatenated: nothing changes the networks between batches |
| Player.PlayerMLP.GetAllStateTensor | Blackjack/NNPlayer_RL_agents/NNPlayer_AC_Baseline.py:223-233 | the table is newly allocated and `nDS * nPS * nPA` by 13; every row holds its own three mixed-radix digits `(ds, ps, ua)` in columns 0 to 2 and zero elsewhere; `p` is not used |
| StateTable.FillAceRows | Blackjack/NNPlayer_RL_agents/NNPlayer_AC_Baseline.py:228-232 | the innermost loop writes the rows of `(ds, ps, 0 .. nPA - 1)` and leaves `k` at the first row of `(ds, ps + 1)` |
| StateTable.RowIndexInRange | Blackjack/NNPlayer_RL_agents/NNPlayer_AC_Baseline.py:224-232 | the row `(ds * nPS + ps) * nPA + ua` of every triple in range lies inside the table |
| StateTable.DecodeRowIndex | Blackjack/NNPlayer_RL_agents/NNPlayer_AC_Baseline.py:228-231 | row `(ds * nPS + ps) * nPA + ua` is `[ds, ps, ua, 0, ..., 0]` |
| StateTable.EncodeRowDigits | Blackjack/NNPlayer_RL_agents/NNPlayer_AC_Baseline.py:224-232 | every row is the row of the triple it holds, so every row is filled |
| StateTable.RowsDistinct | Blackjack/NNPlayer_RL_agents/NNPlayer_AC_Baseline.py:223-233 | two rows with the same first three columns are the same row: all rows are distinct |

## Left out

- The `Policy_Net` and `V_Net` forward passes, ReLU, softmax, the smooth L1 loss, the `Categorical` log-probability and sampling, the Adam optimizers and the `MultiStepLR` schedules are left out. This is floating-point numerics inside torch. The value network is a function `S -> real`, the policy is opaque parameters `P`, and each optimizer step is a function parameter.
- The learning-rate scheduler steps at the start of `run_episode1` (lines 184-185) are left out, because they only affect those optimizer steps. The step functions `criticStep` and `actorStep` are fixed for a whole run, so the learning-rate milestones at episodes 10000, 50000 and 100000 and the moment state of Adam are not captured; `AfterEpisodesIsOneBatch` holds for that reason.
- `Policy_update` does not detach the advantage from the value network's graph, so its backward pass also writes gradients into the value network. The next `optimizervf.zero_grad()` discards them, so the value network does not change there. The model does not keep gradient buffers.
- `save` and `load` are left out, because they are torch file I/O.
- The casino (`get_state`, `start_game`, `step`, `play_game`, `pocket`) is an external environment. Its episodes are inputs: a start state and the steps of a game that ends with its last step.
- `run_simulation`: the wall-clock budget is the count of time checks that pass. The progress printing is left out. `n_episode` is an integer, not the float `1E7`.
- ReplayBuffer.ReplayMemory.Sample: the draw is a nondeterministic choice of remaining slots. The model does not capture that the sample is uniformly distributed.
- ReplayBuffer.ReplayMemory.constructor: requires `capacity >= 1`. For a smaller capacity the first `push` raises `IndexError` in the source: `len(memory) < capacity` is false for the empty list, so it assigns to `memory[-1]` of an empty list. That error path is not modelled.
- `Player.PlayerMLP.RunSimulation` ignores the outcome of each episode. With the player's batch size of 1 no episode can raise (`RunEpisode1` raises only for a negative batch size).
- `plot_Q`, `plot_Qi`, `plot_pi` and `diff_Q` are left out, because they are plotting built on matplotlib.
- `print_epg_wr` and `test_performance` are left out, because they are float statistics and console output.
- `get_action` is left out:
  - its `Actor_Critic=False` branch reads `self.qf`, which the class never defines;
  - its other branch is an argmax over the policy network's floating-point output.
- `nA`, `nDS`, `nPS` and `nPA` are taken as given naturals, because they come from the casino.
