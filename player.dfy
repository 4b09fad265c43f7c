/** `PlayerMLP`, the actor-critic player: its two update rules, the batch
    update, one training episode, the training run, and the table of all
    states.

    The casino is not modelled: an episode is given as its start state and the
    sequence of steps it produced (the sampled action, the reward, and the next
    state or `None` once the game is over).  The wall clock of the training run
    is given as the number of times its time check passes. */
module Player {
  import opened ReplayBuffer
  import opened ActorCritic
  import opened StateTable

  /** One `casino.step(a)` call: the action taken, the reward, and the state
      read afterwards, `None` when the step ended the game. */
  datatype Step<S> = Step(a: nat, reward: real, next: Option<S>)

  datatype Episode<S> = Episode(start: S, steps: seq<Step<S>>)

  /** What a call that may raise returns: `Batch_update` raises when `sample` does. */
  datatype Outcome = Completed | Raised(error: Error)

  /** The capacity `run_simulation` gives the replay memory. */
  const TrainingCapacity: int := 1000

  /** Every step but the last leads to a next state. */
  predicate LeadsOn<S>(steps: seq<Step<S>>)
  {
    forall i :: 0 <= i < |steps| - 1 ==> steps[i].next.Some?
  }

  /** An episode of the casino: it ends with its last step and not before. */
  predicate Terminates<S>(steps: seq<Step<S>>)
  {
    && |steps| > 0
    && steps[|steps| - 1].next.None?
    && LeadsOn(steps)
  }

  /** The transitions the loop of `run_episode1` pushes for an episode, one per
      step: the state it was taken in, the action, the reward and the state it
      led to. */
  function EpisodeTransitions<S>(s: S, steps: seq<Step<S>>): (r: seq<Transition<S>>)
    requires LeadsOn(steps)
    ensures |r| == |steps|
    decreases |steps|
  {
    if steps == [] then []
    else
      var t := Transition(s, steps[0].a, steps[0].reward, steps[0].next);
      if |steps| == 1 then [t]
      else [t] + EpisodeTransitions(steps[0].next.value, steps[1..])
  }

  /** The transitions of an episode start in its start state, each one starts
      where the previous one led, and only the last one is terminal. */
  lemma {:induction false} EpisodeTransitionsChain<S>(s: S, steps: seq<Step<S>>)
    requires Terminates(steps)
    ensures var r := EpisodeTransitions(s, steps);
            && r[0].s == s
            && (forall i :: 0 <= i < |r| ==>
                  r[i].a == steps[i].a && r[i].r == steps[i].reward && r[i].sp == steps[i].next)
            && (forall i, j :: 0 <= i && j == i + 1 && j < |r| ==> r[i].sp == Some(r[j].s))
            && r[|r| - 1].sp.None?
            && (forall i :: 0 <= i < |r| - 1 ==> r[i].sp.Some?)
    decreases |steps|
  {
    var r := EpisodeTransitions(s, steps);
    if |steps| > 1 {
      var rest := steps[1..];
      EpisodeTransitionsChain(steps[0].next.value, rest);
      var tail := EpisodeTransitions(steps[0].next.value, rest);
      assert r == [r[0]] + tail;
      forall i | 0 <= i < |r|
        ensures r[i].a == steps[i].a && r[i].r == steps[i].reward && r[i].sp == steps[i].next
      {
        if i > 0 {
          assert r[i] == tail[i - 1] && steps[i] == rest[i - 1];
        }
      }
      forall i, j | 0 <= i && j == i + 1 && j < |r|
        ensures r[i].sp == Some(r[j].s)
      {
        if i > 0 {
          assert r[i] == tail[i - 1] && r[j] == tail[j - 1];
        }
      }
    }
  }

  /** The transitions from step `i` on: the one for step `i`, then those from
      the state it led to. */
  lemma UnfoldEpisode<S>(s: S, steps: seq<Step<S>>, i: nat)
    requires Terminates(steps) && i < |steps|
    ensures var rest := EpisodeTransitions(s, steps[i..]);
            && rest[0] == Transition(s, steps[i].a, steps[i].reward, steps[i].next)
            && (steps[i].next.None? ==> rest[1..] == [])
            && (steps[i].next.Some? ==> rest[1..] == EpisodeTransitions(steps[i].next.value, steps[i + 1..]))
  {
    assert steps[i..][1..] == steps[i + 1..];
  }

  /** The transitions of several episodes, in the order they were played. */
  function AllTransitions<S>(episodes: seq<Episode<S>>): seq<Transition<S>>
    requires forall e :: e in episodes ==> Terminates(e.steps)
    decreases |episodes|
  {
    if episodes == [] then []
    else
      var e := episodes[|episodes| - 1];
      assert e in episodes && Terminates(e.steps);
      AllTransitions(episodes[..|episodes| - 1]) + EpisodeTransitions(e.start, e.steps)
  }

  /** The replay memory of a training run (capacity 1000) once the first `n`
      episodes have pushed their transitions. */
  ghost function MemoryAfter<S>(episodes: seq<Episode<S>>, n: int): (r: seq<Transition<S>>)
    requires forall e :: e in episodes ==> Terminates(e.steps)
    requires 0 <= n <= |episodes|
    ensures |r| <= TrainingCapacity
  {
    Contents(AllTransitions(episodes[..n]), TrainingCapacity)
  }

  /** The batch `run_episode1` trains on, given the memory after the episode's
      pushes: `batch_size` transitions drawn from that memory when it holds more
      than `100 * batch_size` of them, and none otherwise (a negative batch size
      raises before any update). */
  ghost predicate GatedBatch<T>(batchSize: int, memory: seq<T>, batch: seq<T>)
  {
    && |batch| == (if batchSize >= 0 && |memory| > batchSize * 100 then batchSize else 0)
    && multiset(batch) <= multiset(memory)
  }

  /** The batches of the first `|batches|` episodes of a training run: each
      gated by, and drawn from, the memory its own episode left behind, and
      each made of transitions among `pushed`. */
  ghost predicate BatchesOfRun<S>(batchSize: int, episodes: seq<Episode<S>>,
                                  batches: seq<seq<Transition<S>>>, pushed: seq<Transition<S>>)
    requires forall e :: e in episodes ==> Terminates(e.steps)
  {
    && |batches| <= |episodes|
    && (forall i :: 0 <= i < |batches| ==> GatedBatch(batchSize, MemoryAfter(episodes, i + 1), batches[i]))
    && (forall i, t :: 0 <= i < |batches| && t in batches[i] ==> t in pushed)
  }

  /** The batches of several episodes, one after the other. */
  function Flatten<T>(batches: seq<seq<T>>): (r: seq<T>)
    decreases |batches|
  {
    if batches == [] then []
    else Flatten(batches[..|batches| - 1]) + batches[|batches| - 1]
  }

  /** The networks after one batch per episode, episode by episode. */
  function AfterEpisodes<S, P>(n: Networks<S, P>, gamma: real,
                               criticStep: (S -> real, S, real) -> (S -> real),
                               actorStep: (P, S, nat, real) -> P,
                               batches: seq<seq<Transition<S>>>): Networks<S, P>
    decreases |batches|
  {
    if batches == [] then n
    else
      var last := |batches| - 1;
      AfterBatch(AfterEpisodes(n, gamma, criticStep, actorStep, batches[..last]),
                 gamma, criticStep, actorStep, batches[last])
  }

  lemma FlattenSnoc<T>(batches: seq<seq<T>>, batch: seq<T>)
    ensures Flatten(batches + [batch]) == Flatten(batches) + batch
  {
    assert (batches + [batch])[..|batches|] == batches;
  }

  /** Training episode by episode is training once on all their batches, one
      after the other: the per-transition updates do not care where one
      episode's batch ends and the next begins. */
  lemma {:induction false} AfterEpisodesIsOneBatch<S, P>(n: Networks<S, P>, gamma: real,
                                                        criticStep: (S -> real, S, real) -> (S -> real),
                                                        actorStep: (P, S, nat, real) -> P,
                                                        batches: seq<seq<Transition<S>>>)
    ensures AfterEpisodes(n, gamma, criticStep, actorStep, batches)
         == AfterBatch(n, gamma, criticStep, actorStep, Flatten(batches))
    decreases |batches|
  {
    if batches == [] {
      assert BatchTrace(n.v, gamma, criticStep, []) == [];
      assert n.log + [] == n.log;
    } else {
      var last := |batches| - 1;
      var prefix, b := batches[..last], batches[last];
      var before := Flatten(prefix);
      AfterEpisodesIsOneBatch(n, gamma, criticStep, actorStep, prefix);
      var m := AfterBatch(n, gamma, criticStep, actorStep, before);
      assert AfterEpisodes(n, gamma, criticStep, actorStep, batches)
          == AfterBatch(m, gamma, criticStep, actorStep, b);
      assert batches == prefix + [b];
      FlattenSnoc(prefix, b);
      assert Flatten(batches) == before + b;
      AfterBatchAppend(n, gamma, criticStep, actorStep, before, b);
    }
  }

  /** The batch of the next episode extends the batches of a run, and the
      earlier batches stay among the pushes as more arrive. */
  lemma {:induction false} BatchesOfRunStep<S>(batchSize: int, episodes: seq<Episode<S>>,
                                               batches: seq<seq<Transition<S>>>, batch: seq<Transition<S>>,
                                               pushed: seq<Transition<S>>, pushed': seq<Transition<S>>)
    requires forall e :: e in episodes ==> Terminates(e.steps)
    requires BatchesOfRun(batchSize, episodes, batches, pushed) && |batches| < |episodes|
    requires pushed <= pushed'
    requires GatedBatch(batchSize, MemoryAfter(episodes, |batches| + 1), batch)
    requires forall t :: t in batch ==> t in pushed'
    ensures BatchesOfRun(batchSize, episodes, batches + [batch], pushed')
  {
    var all := batches + [batch];
    forall i | 0 <= i < |all|
      ensures GatedBatch(batchSize, MemoryAfter(episodes, i + 1), all[i])
    {
      if i < |batches| {
        assert all[i] == batches[i];
      }
    }
    assert pushed' == pushed + pushed'[|pushed|..];
    forall i, t | 0 <= i < |all| && t in all[i]
      ensures t in pushed'
    {
      if i < |batches| {
        assert t in batches[i];
      }
    }
  }

  /** Each batch of a run has `batch_size` transitions or none. */
  lemma BatchesOfRunSizes<S>(batchSize: int, episodes: seq<Episode<S>>,
                             batches: seq<seq<Transition<S>>>, pushed: seq<Transition<S>>)
    requires forall e :: e in episodes ==> Terminates(e.steps)
    requires BatchesOfRun(batchSize, episodes, batches, pushed)
    ensures forall i :: 0 <= i < |batches| ==> batches[i] == [] || |batches[i]| == batchSize
  {
    forall i | 0 <= i < |batches|
      ensures batches[i] == [] || |batches[i]| == batchSize
    {
      assert GatedBatch(batchSize, MemoryAfter(episodes, i + 1), batches[i]);
    }
  }

  /** `run_episode1` calls `Batch_update` only when the memory holds more than
      `100 * batch_size` transitions; for a batch size of at least 0 that is
      enough for `sample` not to raise. */
  lemma GateAdmitsSample(memoryLength: nat, batchSize: int)
    requires batchSize >= 0 && memoryLength > batchSize * 100
    ensures 0 <= batchSize <= memoryLength
  {
  }

  /** With the memory of the training run (capacity 1000), the gate never opens
      for a batch size of 10 or more. */
  lemma GateClosedForLargeBatches<T>(pushes: seq<T>, batchSize: int)
    requires batchSize >= 10
    ensures |Contents(pushes, TrainingCapacity)| <= batchSize * 100
  {
  }

  /** With the batch size of 1 the player uses, the gate is open exactly when
      more than 100 transitions have been pushed in the run. */
  lemma GateOpensAfterHundredPushes<T>(pushes: seq<T>)
    ensures |Contents(pushes, TrainingCapacity)| > 1 * 100 <==> |pushes| > 100
  {
  }

  class PlayerMLP<S, P> {
    const nA: nat
    const nDS: nat
    const nPS: nat
    const nPA: nat
    var nEpisode: int
    /** The value network, as the function it currently computes. */
    var vf: S -> real
    /** The parameters of the policy network. */
    var pf: P
    /** One optimizer step of the value network towards a target at a state. */
    const criticStep: (S -> real, S, real) -> (S -> real)
    /** One optimizer step of the policy network for a state, an action and an advantage. */
    const actorStep: (P, S, nat, real) -> P
    const batchSize: int
    const gamma: real
    /** `Trans_Memory`, which only `run_simulation` creates. */
    var transMemory: ReplayMemory?<Transition<S>>
    /** The gradient steps taken so far, in order. */
    ghost var updates: seq<Update<S>>

    constructor (nA: nat, nDS: nat, nPS: nat, nPA: nat, vf: S -> real, pf: P,
                 criticStep: (S -> real, S, real) -> (S -> real),
                 actorStep: (P, S, nat, real) -> P)
      ensures this.nA == nA && this.nDS == nDS && this.nPS == nPS && this.nPA == nPA
      ensures this.vf == vf && this.pf == pf
      ensures this.criticStep == criticStep && this.actorStep == actorStep
      ensures nEpisode == 0 && batchSize == 1 && gamma == Gamma
      ensures transMemory == null && updates == []
    {
      this.nA, this.nDS, this.nPS, this.nPA := nA, nDS, nPS, nPA;
      nEpisode := 0;
      this.vf, this.pf := vf, pf;
      this.criticStep, this.actorStep := criticStep, actorStep;
      batchSize := 1;
      gamma := Gamma;
      transMemory := null;
      updates := [];
    }

    /** `Policy_update`: one actor step weighted by the advantage, computed with
        the value network as it stands; the value network is not changed. */
    method PolicyUpdate(s: S, a: nat, r: real, sp: Option<S>)
      modifies this`pf, this`updates
      ensures pf == actorStep(old(pf), s, a, Advantage(vf, gamma, Transition(s, a, r, sp)))
      ensures updates == old(updates) + [ActorUpdate(s, a, Advantage(vf, gamma, Transition(s, a, r, sp)))]
    {
      var v := vf(s);
      if sp.None? {
        v := r - vf(s);
      } else {
        v := r + gamma * vf(sp.value) - v;
      }
      assert v == Advantage(vf, gamma, Transition(s, a, r, sp));
      pf := actorStep(pf, s, a, v);
      updates := updates + [ActorUpdate(s, a, v)];
    }

    /** `TD_update_V`: one critic step towards the TD target, computed with the
        value network as it was before this step. */
    method TdUpdateV(s: S, a: nat, r: real, sp: Option<S>)
      modifies this`vf, this`updates
      ensures vf == criticStep(old(vf), s, TdTarget(old(vf), gamma, Transition(s, a, r, sp)))
      ensures updates == old(updates) + [CriticUpdate(s, TdTarget(old(vf), gamma, Transition(s, a, r, sp)))]
    {
      var t: real;
      if sp.None? {
        t := r;
      } else {
        t := r + gamma * vf(sp.value);
      }
      assert t == TdTarget(vf, gamma, Transition(s, a, r, sp));
      vf := criticStep(vf, s, t);
      updates := updates + [CriticUpdate(s, t)];
    }

    /** `Batch_update`: sample a batch, then for each transition the actor step
        and after it the critic step. */
    method BatchUpdate(batchSize: int) returns (outcome: Outcome, ghost batch: seq<Transition<S>>)
      requires transMemory != null
      modifies this`vf, this`pf, this`updates
      ensures outcome.Completed? <==> 0 <= batchSize <= |transMemory.memory|
      ensures outcome.Completed? ==>
                |batch| == batchSize && multiset(batch) <= multiset(transMemory.memory)
      ensures vf == ValueAfter(old(vf), gamma, criticStep, batch)
      ensures pf == PolicyAfter(old(vf), old(pf), gamma, criticStep, actorStep, batch)
      ensures updates == old(updates) + BatchTrace(old(vf), gamma, criticStep, batch)
      ensures outcome.Raised? ==> batch == []
    {
      var sampled := transMemory.Sample(batchSize);
      if sampled.Err? {
        return Raised(sampled.error), [];
      }
      var sample := sampled.value;
      batch := sample;
      ghost var v0, p0, u0 := vf, pf, updates;
      for i := 0 to |sample|
        invariant vf == ValueAfter(v0, gamma, criticStep, sample[..i])
        invariant pf == PolicyAfter(v0, p0, gamma, criticStep, actorStep, sample[..i])
        invariant updates == u0 + BatchTrace(v0, gamma, criticStep, sample[..i])
      {
        var t := sample[i];
        PolicyUpdate(t.s, t.a, t.r, t.sp);
        TdUpdateV(t.s, t.a, t.r, t.sp);
        assert sample[..i + 1][..i] == sample[..i];
      }
      assert sample[..|sample|] == sample;
      outcome := Completed;
    }

    /** `reset_episode`: count one more episode. */
    method ResetEpisode()
      modifies this`nEpisode
      ensures nEpisode == old(nEpisode) + 1
    {
      nEpisode := nEpisode + 1;
    }

    /** The `while not done` loop of `run_episode1`: from the start state,
        push one transition per step until the step that ends the game. */
    method StoreEpisode(s0: S, steps: seq<Step<S>>)
      requires transMemory != null && transMemory.Valid()
      requires Terminates(steps)
      modifies transMemory
      ensures transMemory.Valid() && transMemory.capacity == old(transMemory.capacity)
      ensures transMemory.pushed == old(transMemory.pushed) + EpisodeTransitions(s0, steps)
    {
      var memory := transMemory;
      var s := s0;
      var done := false;
      var i := 0;
      ghost var target := memory.pushed + EpisodeTransitions(s0, steps);
      ghost var remaining := EpisodeTransitions(s0, steps);
      while !done
        invariant 0 <= i <= |steps|
        invariant done <==> i == |steps|
        invariant memory.Valid() && memory.capacity == transMemory.capacity
        invariant memory.pushed + remaining == target
        invariant !done ==> remaining == EpisodeTransitions(s, steps[i..])
        invariant done ==> remaining == []
        decreases |steps| - i
      {
        var step := steps[i];
        done := step.next.None?;
        var sp := step.next;
        var t := Transition(s, step.a, step.reward, sp);
        UnfoldEpisode(s, steps, i);
        memory.Push(t);
        remaining := remaining[1..];
        if !done {
          s := sp.value;
        }
        i := i + 1;
      }
    }

    /** `run_episode1`: count the episode, push one transition per step of the
        game, then run a batch update if the memory holds more than
        `100 * batchSize` transitions. */
    method RunEpisode1(batchSize: int, s0: S, steps: seq<Step<S>>)
      returns (outcome: Outcome, ghost batch: seq<Transition<S>>)
      requires transMemory != null && transMemory.Valid()
      requires Terminates(steps)
      modifies this`nEpisode, this`vf, this`pf, this`updates, transMemory
      ensures transMemory == old(transMemory) && transMemory.Valid()
      ensures transMemory.capacity == old(transMemory.capacity)
      ensures nEpisode == old(nEpisode) + 1
      ensures transMemory.pushed == old(transMemory.pushed) + EpisodeTransitions(s0, steps)
      ensures outcome.Raised? <==> batchSize < 0
      ensures |transMemory.memory| > batchSize * 100 && outcome.Completed? ==>
                |batch| == batchSize && multiset(batch) <= multiset(transMemory.memory)
      ensures |transMemory.memory| <= batchSize * 100 ==> batch == []
      ensures outcome.Raised? ==> batch == []
      ensures batch == [] || |batch| == batchSize
      ensures forall t :: t in batch ==> t in transMemory.pushed
      ensures Networks(vf, pf, updates)
           == AfterBatch(Networks(old(vf), old(pf), old(updates)), gamma, criticStep, actorStep, batch)
    {
      ResetEpisode();
      StoreEpisode(s0, steps);
      if |transMemory.memory| > batchSize * 100 {
        outcome, batch := BatchUpdate(batchSize);
        forall t | t in batch
          ensures t in transMemory.pushed
        {
          assert t in multiset(batch);
          assert t in transMemory.memory;
        }
      } else {
        outcome, batch := Completed, [];
      }
    }

    /** One round of the loop of `run_simulation`: play episode `k` of
        `episodes`; `batch` is what its batch update trained on, after the
        batches of the earlier episodes. */
    method PlayEpisode(episodes: seq<Episode<S>>, k: nat, ghost n0: Networks<S, P>,
                       ghost batches: seq<seq<Transition<S>>>)
      returns (ghost batch: seq<Transition<S>>)
      requires forall e :: e in episodes ==> Terminates(e.steps)
      requires k < |episodes| && |batches| == k
      requires transMemory != null && transMemory.Valid() && transMemory.capacity == TrainingCapacity
      requires transMemory.pushed == AllTransitions(episodes[..k])
      requires BatchesOfRun(batchSize, episodes, batches, transMemory.pushed)
      requires Networks(vf, pf, updates) == AfterEpisodes(n0, gamma, criticStep, actorStep, batches)
      modifies this`nEpisode, this`vf, this`pf, this`updates, transMemory
      ensures transMemory == old(transMemory) && transMemory.Valid()
      ensures transMemory.capacity == old(transMemory.capacity)
      ensures nEpisode == old(nEpisode) + 1
      ensures transMemory.pushed == AllTransitions(episodes[..k + 1])
      ensures GatedBatch(batchSize, transMemory.memory, batch)
      ensures BatchesOfRun(batchSize, episodes, batches + [batch], transMemory.pushed)
      ensures Networks(vf, pf, updates) == AfterEpisodes(n0, gamma, criticStep, actorStep, batches + [batch])
    {
      var e := episodes[k];
      assert e in episodes;
      ghost var pushed := transMemory.pushed;
      var outcome;
      outcome, batch := RunEpisode1(batchSize, e.start, e.steps);
      assert episodes[..k + 1][..k] == episodes[..k];
      assert transMemory.memory == MemoryAfter(episodes, k + 1);
      BatchesOfRunStep(batchSize, episodes, batches, batch, pushed, transMemory.pushed);
      assert (batches + [batch])[..|batches|] == batches;
    }

    /** `run_simulation`: a fresh memory of capacity 1000, then one episode per
        passing time check until `nEpisodes` episodes have been played. */
    method RunSimulation(nEpisodes: int, timeChecks: nat, episodes: seq<Episode<S>>)
      returns (played: nat, ghost batches: seq<seq<Transition<S>>>)
      requires forall e :: e in episodes ==> Terminates(e.steps)
      requires |episodes| >= Min(timeChecks, if nEpisodes < 0 then 0 else nEpisodes)
      modifies this
      ensures played == Min(timeChecks, if nEpisodes < 0 then 0 else nEpisodes)
      ensures nEpisode == old(nEpisode) + played
      ensures transMemory != null && fresh(transMemory) && transMemory.Valid()
      ensures transMemory.capacity == TrainingCapacity
      ensures transMemory.pushed == AllTransitions(episodes[..played])
      ensures |batches| == played
      ensures forall i :: 0 <= i < |batches| ==> batches[i] == [] || |batches[i]| == batchSize
      ensures forall i, t :: 0 <= i < |batches| && t in batches[i] ==> t in transMemory.pushed
      ensures transMemory.memory == MemoryAfter(episodes, played)
      ensures forall i :: 0 <= i < |batches| ==> GatedBatch(batchSize, MemoryAfter(episodes, i + 1), batches[i])
      ensures Networks(vf, pf, updates)
           == AfterEpisodes(Networks(old(vf), old(pf), old(updates)), gamma, criticStep, actorStep, batches)
      ensures vf == ValueAfter(old(vf), gamma, criticStep, Flatten(batches))
      ensures pf == PolicyAfter(old(vf), old(pf), gamma, criticStep, actorStep, Flatten(batches))
      ensures updates == old(updates) + BatchTrace(old(vf), gamma, criticStep, Flatten(batches))
    {
      transMemory := new ReplayMemory(TrainingCapacity);
      var ip1 := 0;
      played := 0;
      batches := [];
      ghost var n0 := Networks(vf, pf, updates);
      while ip1 < timeChecks
        invariant played == ip1 <= timeChecks
        invariant played <= (if nEpisodes < 0 then 0 else nEpisodes)
        invariant transMemory != null && fresh(transMemory) && transMemory.Valid()
        invariant transMemory.capacity == TrainingCapacity
        invariant nEpisode == old(nEpisode) + played
        invariant transMemory.pushed == AllTransitions(episodes[..played])
        invariant |batches| == played
        invariant BatchesOfRun(batchSize, episodes, batches, transMemory.pushed)
        invariant Networks(vf, pf, updates) == AfterEpisodes(n0, gamma, criticStep, actorStep, batches)
      {
        ip1 := ip1 + 1;
        if ip1 > nEpisodes {
          break;
        }
        ghost var batch := PlayEpisode(episodes, played, n0, batches);
        batches := batches + [batch];
        played := played + 1;
      }
      BatchesOfRunSizes(batchSize, episodes, batches, transMemory.pushed);
      AfterEpisodesIsOneBatch(n0, gamma, criticStep, actorStep, batches);
      assert Networks(vf, pf, updates) == AfterBatch(n0, gamma, criticStep, actorStep, Flatten(batches));
    }

    /** `get_all_state_tensor`: a zero table with one row per (dealer sum,
        player sum, usable ace) and `dimS` columns, whose first three columns
        hold that triple. The argument `p` plays no part. */
    method GetAllStateTensor(p: seq<real>) returns (table: array2<int>)
      ensures fresh(table)
      ensures table.Length0 == nDS * nPS * nPA && table.Length1 == DimS
      ensures forall row, col :: 0 <= row < table.Length0 && 0 <= col < DimS ==>
                table[row, col] == Cell(nPS, nPA, row, col)
    {
      table := new int[nDS * nPS * nPA, DimS]((_, _) => 0);
      var k := 0;
      for ds := 0 to nDS
        invariant k == RowIndex(nPS, nPA, ds, 0, 0)
        invariant FilledBelow(table, nPS, nPA, k)
      {
        for ps := 0 to nPS
          invariant k == RowIndex(nPS, nPA, ds, ps, 0)
          invariant FilledBelow(table, nPS, nPA, k)
        {
          k := FillAceRows(table, nDS, nPS, nPA, ds, ps, k);
        }
        NextDealerSum(nPS, nPA, ds);
      }
      assert k == nDS * nPS * nPA;
    }
  }
}
