/** The one-step actor-critic rules of `PlayerMLP`: the critic's TD target
    (`TD_update_V`), the actor's advantage (`Policy_update`), and what a batch of
    transitions does to both networks when each transition is handled by the
    actor step and then the critic step.

    The value network is the function `v: S -> real` it currently computes. The
    gradient steps themselves (Adam on a smooth L1 loss, Adam on the
    advantage-weighted log-probability) are the parameters `criticStep` and
    `actorStep`: only their inputs are modelled. */
module ActorCritic {

  datatype Option<T> = None | Some(value: T)

  /** A stored transition `(s, a, r, sp)`; `sp` is `None` when the episode ended. */
  datatype Transition<S> = Transition(s: S, a: nat, r: real, sp: Option<S>)

  /** The discount factor `gamma` set in the constructor of `PlayerMLP`. */
  const Gamma: real := 0.95

  /** The critic's target: the reward alone after the last step of an episode,
      otherwise the reward plus the discounted value of the successor. */
  function TdTarget<S>(v: S -> real, gamma: real, t: Transition<S>): real
  {
    match t.sp
    case None => t.r
    case Some(sp) => t.r + gamma * v(sp)
  }

  /** The actor's weight, computed branch by branch as `Policy_update` does. */
  function Advantage<S>(v: S -> real, gamma: real, t: Transition<S>): real
  {
    match t.sp
    case None => t.r - v(t.s)
    case Some(sp) => t.r + gamma * v(sp) - v(t.s)
  }

  /** The target of a terminal transition is its reward, with no bootstrap term. */
  lemma TerminalTargetIsReward<S>(v: S -> real, gamma: real, t: Transition<S>)
    requires t.sp.None?
    ensures TdTarget(v, gamma, t) == t.r
  {
  }

  /** In both branches the advantage is the critic's target minus the value of `s`. */
  lemma AdvantageIsTargetMinusBaseline<S>(v: S -> real, gamma: real, t: Transition<S>)
    ensures Advantage(v, gamma, t) == TdTarget(v, gamma, t) - v(t.s)
  {
  }

  /** With `0 <= gamma`, a pointwise larger value function never gives a smaller
      target or advantage-plus-baseline: the bootstrap term is monotone. */
  lemma TargetMonotone<S>(v: S -> real, w: S -> real, gamma: real, t: Transition<S>)
    requires 0.0 <= gamma
    requires t.sp.Some? ==> v(t.sp.value) <= w(t.sp.value)
    ensures TdTarget(v, gamma, t) <= TdTarget(w, gamma, t)
  {
    if t.sp.Some? {
      var d := w(t.sp.value) - v(t.sp.value);
      assert gamma * w(t.sp.value) == gamma * v(t.sp.value) + gamma * d;
      assert gamma * d >= 0.0;
    }
  }

  /** One record per gradient step, in the order the steps are taken. */
  datatype Update<S> =
    | ActorUpdate(s: S, a: nat, advantage: real)
    | CriticUpdate(s: S, target: real)

  /** The value function after the critic step of every transition of `batch`,
      in order; each step's target is computed with the value function as it was
      before that step. */
  function ValueAfter<S>(v: S -> real, gamma: real,
                         criticStep: (S -> real, S, real) -> (S -> real),
                         batch: seq<Transition<S>>): S -> real
    decreases |batch|
  {
    if batch == [] then v
    else
      var t := batch[|batch| - 1];
      var w := ValueAfter(v, gamma, criticStep, batch[..|batch| - 1]);
      criticStep(w, t.s, TdTarget(w, gamma, t))
  }

  /** The policy parameters after the actor step of every transition of `batch`;
      each step's advantage uses the value function before that transition's
      critic step. */
  function PolicyAfter<S, P>(v: S -> real, pf: P, gamma: real,
                             criticStep: (S -> real, S, real) -> (S -> real),
                             actorStep: (P, S, nat, real) -> P,
                             batch: seq<Transition<S>>): P
    decreases |batch|
  {
    if batch == [] then pf
    else
      var t := batch[|batch| - 1];
      var prefix := batch[..|batch| - 1];
      var w := ValueAfter(v, gamma, criticStep, prefix);
      actorStep(PolicyAfter(v, pf, gamma, criticStep, actorStep, prefix), t.s, t.a, Advantage(w, gamma, t))
  }

  /** The gradient steps a batch takes: for each transition the actor step, then
      the critic step. */
  function BatchTrace<S>(v: S -> real, gamma: real,
                         criticStep: (S -> real, S, real) -> (S -> real),
                         batch: seq<Transition<S>>): seq<Update<S>>
    decreases |batch|
  {
    if batch == [] then []
    else
      var t := batch[|batch| - 1];
      var prefix := batch[..|batch| - 1];
      var w := ValueAfter(v, gamma, criticStep, prefix);
      BatchTrace(v, gamma, criticStep, prefix)
        + [ActorUpdate(t.s, t.a, Advantage(w, gamma, t)), CriticUpdate(t.s, TdTarget(w, gamma, t))]
  }

  /** Step `2i` of a batch is the actor step for transition `i` and step `2i+1`
      its critic step; both see the value function left by the first `i`
      transitions, so the actor's advantage is exactly the critic's target
      minus that value of `s`. */
  lemma {:induction false} BatchTraceAt<S>(v: S -> real, gamma: real,
                                           criticStep: (S -> real, S, real) -> (S -> real),
                                           batch: seq<Transition<S>>, i: nat)
    requires i < |batch|
    ensures |BatchTrace(v, gamma, criticStep, batch)| == 2 * |batch|
    ensures var w := ValueAfter(v, gamma, criticStep, batch[..i]);
            var trace := BatchTrace(v, gamma, criticStep, batch);
            && trace[2 * i] == ActorUpdate(batch[i].s, batch[i].a, TdTarget(w, gamma, batch[i]) - w(batch[i].s))
            && trace[2 * i + 1] == CriticUpdate(batch[i].s, TdTarget(w, gamma, batch[i]))
    decreases |batch|
  {
    var last := |batch| - 1;
    var prefix := batch[..last];
    var w := ValueAfter(v, gamma, criticStep, batch[..i]);
    AdvantageIsTargetMinusBaseline(w, gamma, batch[i]);
    if i < last {
      BatchTraceAt(v, gamma, criticStep, prefix, i);
      assert prefix[..i] == batch[..i];
      assert prefix[i] == batch[i];
    } else {
      assert batch[..i] == prefix;
      if last > 0 {
        BatchTraceAt(v, gamma, criticStep, prefix, last - 1);
      }
    }
  }

  /** The state training acts on: the value function, the policy parameters
      and the log of gradient steps taken. */
  datatype Networks<!S, P> = Networks(v: S -> real, p: P, log: seq<Update<S>>)

  /** The networks after one batch: every transition's actor step, then its
      critic step, in order. */
  function AfterBatch<S, P>(n: Networks<S, P>, gamma: real,
                            criticStep: (S -> real, S, real) -> (S -> real),
                            actorStep: (P, S, nat, real) -> P,
                            batch: seq<Transition<S>>): Networks<S, P>
  {
    Networks(ValueAfter(n.v, gamma, criticStep, batch),
             PolicyAfter(n.v, n.p, gamma, criticStep, actorStep, batch),
             n.log + BatchTrace(n.v, gamma, criticStep, batch))
  }

  /** Two batches in a row move the value function as their concatenation does. */
  lemma {:induction false} ValueAfterAppend<S>(v: S -> real, gamma: real,
                                               criticStep: (S -> real, S, real) -> (S -> real),
                                               b1: seq<Transition<S>>, b2: seq<Transition<S>>)
    ensures ValueAfter(v, gamma, criticStep, b1 + b2)
         == ValueAfter(ValueAfter(v, gamma, criticStep, b1), gamma, criticStep, b2)
    decreases |b2|
  {
    if b2 != [] {
      var n := |b2| - 1;
      ValueAfterAppend(v, gamma, criticStep, b1, b2[..n]);
      assert (b1 + b2)[..|b1 + b2| - 1] == b1 + b2[..n];
    } else {
      assert b1 + b2 == b1;
    }
  }

  /** Two batches in a row move the policy as their concatenation does; the
      second batch starts from the value function the first one left. */
  lemma {:induction false} PolicyAfterAppend<S, P>(v: S -> real, pf: P, gamma: real,
                                                   criticStep: (S -> real, S, real) -> (S -> real),
                                                   actorStep: (P, S, nat, real) -> P,
                                                   b1: seq<Transition<S>>, b2: seq<Transition<S>>)
    ensures PolicyAfter(v, pf, gamma, criticStep, actorStep, b1 + b2)
         == PolicyAfter(ValueAfter(v, gamma, criticStep, b1),
                        PolicyAfter(v, pf, gamma, criticStep, actorStep, b1),
                        gamma, criticStep, actorStep, b2)
    decreases |b2|
  {
    if b2 != [] {
      var n := |b2| - 1;
      PolicyAfterAppend(v, pf, gamma, criticStep, actorStep, b1, b2[..n]);
      ValueAfterAppend(v, gamma, criticStep, b1, b2[..n]);
      assert (b1 + b2)[..|b1 + b2| - 1] == b1 + b2[..n];
    } else {
      assert b1 + b2 == b1;
    }
  }

  /** The steps of two batches in a row are those of the first followed by
      those of the second, taken from the value function the first one left. */
  lemma {:induction false} BatchTraceAppend<S>(v: S -> real, gamma: real,
                                               criticStep: (S -> real, S, real) -> (S -> real),
                                               b1: seq<Transition<S>>, b2: seq<Transition<S>>)
    ensures BatchTrace(v, gamma, criticStep, b1 + b2)
         == BatchTrace(v, gamma, criticStep, b1)
            + BatchTrace(ValueAfter(v, gamma, criticStep, b1), gamma, criticStep, b2)
    decreases |b2|
  {
    if b2 != [] {
      var n := |b2| - 1;
      BatchTraceAppend(v, gamma, criticStep, b1, b2[..n]);
      ValueAfterAppend(v, gamma, criticStep, b1, b2[..n]);
      assert (b1 + b2)[..|b1 + b2| - 1] == b1 + b2[..n];
    } else {
      assert b1 + b2 == b1;
    }
  }

  /** Training on two batches in a row is training on their concatenation. */
  lemma AfterBatchAppend<S, P>(n: Networks<S, P>, gamma: real,
                               criticStep: (S -> real, S, real) -> (S -> real),
                               actorStep: (P, S, nat, real) -> P,
                               b1: seq<Transition<S>>, b2: seq<Transition<S>>)
    ensures AfterBatch(n, gamma, criticStep, actorStep, b1 + b2)
         == AfterBatch(AfterBatch(n, gamma, criticStep, actorStep, b1), gamma, criticStep, actorStep, b2)
  {
    var m := AfterBatch(n, gamma, criticStep, actorStep, b1);
    ValueAfterAppend(n.v, gamma, criticStep, b1, b2);
    PolicyAfterAppend(n.v, n.p, gamma, criticStep, actorStep, b1, b2);
    BatchTraceAppend(n.v, gamma, criticStep, b1, b2);
    var t1 := BatchTrace(n.v, gamma, criticStep, b1);
    var t2 := BatchTrace(m.v, gamma, criticStep, b2);
    assert n.log + (t1 + t2) == (n.log + t1) + t2;
  }
}
