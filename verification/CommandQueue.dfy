/** Command queues. Enqueuing only appends a command with the events it waits for; an
    out-of-order queue may then start a command at any time once those events are complete, and
    commands that do not wait for each other may run at the same time. */
module CommandQueue {

  /** An event is named by the position of its command in the queue. */
  type Event = nat

  datatype Command = Command(kernel: string, waits: set<Event>)

  class Queue {
    var log: seq<Command>

    constructor ()
      ensures log == []
    {
      log := [];
    }

    method Enqueue(kernel: string, waits: set<Event>) returns (event: Event)
      modifies this
      ensures log == old(log) + [Command(kernel, waits)]
      ensures event == |old(log)|
    {
      event := |log|;
      log := log + [Command(kernel, waits)];
    }
  }

  /** Launches a kernel and passes its event to the event callback, which has heard of `notified` so far. */
  method Launch(queue: Queue, kernel: string, waits: set<Event>, notified: seq<Event>)
    returns (event: Event, heard: seq<Event>)
    modifies queue
    ensures queue.log == old(queue.log) + [Command(kernel, waits)]
    ensures event == |old(queue.log)| && heard == notified + [event]
  {
    event := queue.Enqueue(kernel, waits);
    heard := notified + [event];
  }

  /** The commands from `base` up to `end` form a chain: the first one waits for the caller's
      events, every other one for exactly its predecessor. */
  ghost predicate IsChain(log: seq<Command>, base: nat, end: nat, waits: set<Event>) {
    && base < end <= |log|
    && forall i :: base <= i < end ==> log[i].waits == ChainWaits(base, i, waits)
  }

  /** The commands from `base` on are launches of these kernels. */
  ghost predicate Named(log: seq<Command>, base: nat, names: seq<string>) {
    && |log| == base + |names|
    && forall i | 0 <= i < |names| :: log[base + i].kernel == names[i]
  }

  lemma NamedAppend(a: seq<Command>, names: seq<string>, b: seq<Command>, more: seq<string>)
    requires Named(a, 0, names) && Named(b, 0, more)
    ensures Named(a + b, 0, names + more)
  {
  }

  lemma NamedAfter(log: seq<Command>, added: seq<Command>, names: seq<string>)
    requires Named(added, 0, names)
    ensures Named(log + added, |log|, names)
  {
  }

  function ChainWaits(base: nat, i: nat, waits: set<Event>): set<Event> {
    if i <= base then waits else {i - 1}
  }

  /** The events of the commands from `lo` up to `hi`, in order. */
  function EventRange(lo: nat, hi: nat): (s: seq<Event>)
    ensures |s| == if lo <= hi then hi - lo else 0
    ensures forall k :: 0 <= k < |s| ==> s[k] == lo + k
  {
    if hi <= lo then [] else EventRange(lo, hi - 1) + [hi - 1]
  }

  // ---- building a chain, one command after the other

  /** The commands added so far form a chain, and the next one will wait for the last of them. */
  ghost predicate ChainSoFar(base: nat, added: seq<Command>, events: set<Event>, waitFor: set<Event>) {
    && waitFor == ChainWaits(base, base + |added|, events)
    && forall k :: 0 <= k < |added| ==> added[k].waits == ChainWaits(base, base + k, events)
  }

  lemma ChainStart(base: nat, events: set<Event>)
    ensures ChainSoFar(base, [], events, events)
    ensures EventRange(base, base) == []
  {
  }

  lemma ChainOne(base: nat, added: seq<Command>, c: Command, events: set<Event>)
    requires ChainSoFar(base, added, events, c.waits)
    ensures ChainSoFar(base, added + [c], events, {base + |added|})
    ensures EventRange(base, base + |added| + 1) == EventRange(base, base + |added|) + [base + |added|]
  {
  }

  lemma ChainPass(base: nat, added: seq<Command>, c: Command, d: Command, e: Command, events: set<Event>)
    requires ChainSoFar(base, added, events, c.waits)
    requires d.waits == {base + |added|} && e.waits == {base + |added| + 1}
    ensures var n := base + |added|;
            && ChainSoFar(base, added + [c, d, e], events, {n + 2})
            && EventRange(base, n + 3) == EventRange(base, n) + [n, n + 1, n + 2]
  {
    hide ChainSoFar, EventRange;
    ChainOne(base, added, c, events);
    ChainOne(base, added + [c], d, events);
    ChainOne(base, added + [c] + [d], e, events);
    assert added + [c] + [d] + [e] == added + [c, d, e];
  }

  lemma ChainComplete(log0: seq<Command>, added: seq<Command>, events: set<Event>, waitFor: set<Event>)
    requires ChainSoFar(|log0|, added, events, waitFor) && added != []
    ensures IsChain(log0 + added, |log0|, |log0 + added|, events)
  {
    var log := log0 + added;
    forall i | |log0| <= i < |log|
      ensures log[i].waits == ChainWaits(|log0|, i, events)
    {
      assert log[i] == added[i - |log0|];
    }
  }

  // ---- execution

  datatype Action = Start(event: Event) | Finish(event: Event)

  datatype Progress = Progress(started: set<Event>, finished: set<Event>)

  predicate Enabled(log: seq<Command>, p: Progress, a: Action) {
    && a.event < |log|
    && match a
       case Start(e) => e !in p.started && log[e].waits <= p.finished
       case Finish(e) => e in p.started && e !in p.finished
  }

  function After(p: Progress, a: Action): Progress {
    match a
    case Start(e) => p.(started := p.started + {e})
    case Finish(e) => p.(finished := p.finished + {e})
  }

  function State(run: seq<Action>): Progress {
    if run == [] then Progress({}, {}) else After(State(run[..|run| - 1]), run[|run| - 1])
  }

  /** Every action of the run was allowed when it was taken. */
  predicate Legal(log: seq<Command>, run: seq<Action>) {
    run == [] ||
    (Legal(log, run[..|run| - 1]) && Enabled(log, State(run[..|run| - 1]), run[|run| - 1]))
  }

  /** No command of a chain starts before the caller's events and all earlier commands of the
      chain are complete; in particular no two of them ever run at the same time. */
  lemma {:induction false} ChainInOrder(log: seq<Command>, base: nat, end: nat, waits: set<Event>, run: seq<Action>)
    requires IsChain(log, base, end, waits) && Legal(log, run)
    ensures State(run).finished <= State(run).started
    ensures forall e :: base <= e < end && e in State(run).started ==>
              waits <= State(run).finished && forall i :: base <= i < e ==> i in State(run).finished
  {
    if run != [] {
      var before := run[..|run| - 1];
      ChainInOrder(log, base, end, waits, before);
      var a := run[|run| - 1];
      if a.Start? && base < a.event < end {
        assert a.event - 1 in State(before).finished;
        assert a.event - 1 in State(before).started;
      }
    }
  }

  /** Once the last event of a chain is complete, everything enqueued by it is. */
  lemma LastEventCompletesChain(log: seq<Command>, base: nat, end: nat, waits: set<Event>, run: seq<Action>)
    requires IsChain(log, base, end, waits) && Legal(log, run)
    requires end - 1 in State(run).finished
    ensures forall i :: base <= i < end ==> i in State(run).finished
    ensures waits <= State(run).finished
  {
    ChainInOrder(log, base, end, waits, run);
  }

  /** Starting and finishing the first n commands in the order in which they were enqueued. */
  function InOrder(n: nat): seq<Action> {
    if n == 0 then [] else InOrder(n - 1) + [Start(n - 1), Finish(n - 1)]
  }

  /** If every command waits for earlier ones only, that is a schedule the wait lists allow, and it completes all
      of them: nothing enqueued as a chain can get stuck. */
  lemma {:induction false} InOrderCompletes(log: seq<Command>, n: nat)
    requires n <= |log| && forall i, e | 0 <= i < n && e in log[i].waits :: e < i
    ensures Legal(log, InOrder(n))
    ensures forall e: nat :: e in State(InOrder(n)).finished <==> e < n
    ensures forall e: nat :: e in State(InOrder(n)).started <==> e < n
  {
    if n > 0 {
      InOrderCompletes(log, n - 1);
      var before := InOrder(n - 1);
      OneMoreAction(log, before, Start(n - 1));
      OneMoreAction(log, before + [Start(n - 1)], Finish(n - 1));
      assert before + [Start(n - 1)] + [Finish(n - 1)] == InOrder(n);
    }
  }

  lemma OneMoreAction(log: seq<Command>, run: seq<Action>, a: Action)
    ensures State(run + [a]) == After(State(run), a)
    ensures Legal(log, run + [a]) <==> Legal(log, run) && Enabled(log, State(run), a)
  {
    var more := run + [a];
    assert more[..|more| - 1] == run && more[|more| - 1] == a;
  }

  /** What a run does to memory when the command at base + k acts as effects[k]. */
  function Memory<S>(run: seq<Action>, base: nat, effects: seq<S -> S>, s: S): S {
    if run == [] then s
    else
      var a := run[|run| - 1];
      var m := Memory(run[..|run| - 1], base, effects, s);
      if a.Finish? && base <= a.event < base + |effects| then effects[a.event - base](m) else m
  }

  function Sequential<S>(effects: seq<S -> S>, s: S): S {
    if effects == [] then s else effects[|effects| - 1](Sequential(effects[..|effects| - 1], s))
  }

  /** How far the chain has got. */
  ghost predicate DoneTo(base: nat, end: nat, k: nat, p: Progress) {
    && base + k <= end
    && (forall i :: base <= i < base + k ==> i in p.finished)
    && (forall i :: base + k <= i < end ==> i !in p.finished)
  }

  /** Every schedule the wait lists allow has the effect of running the chain in order. */
  lemma {:induction false} ChainSequential<S>(log: seq<Command>, base: nat, end: nat, waits: set<Event>, run: seq<Action>,
                                              effects: seq<S -> S>, s: S, k: nat)
    requires IsChain(log, base, end, waits) && Legal(log, run)
    requires |effects| == end - base
    requires DoneTo(base, end, k, State(run))
    ensures Memory(run, base, effects, s) == Sequential(effects[..k], s)
  {
    if run == [] {
      assert k == 0 by {
        assert k > 0 ==> base in State(run).finished;
      }
    } else {
      var before := run[..|run| - 1];
      var a := run[|run| - 1];
      ChainInOrder(log, base, end, waits, before);
      if a.Finish? && base <= a.event < end {
        assert a.event in State(run).finished;
        assert a.event < base + k;
        assert a.event == base + k - 1 by {
          assert base + k - 1 == a.event || base + k - 1 in State(before).finished;
        }
        assert DoneTo(base, end, k - 1, State(before));
        ChainSequential(log, base, end, waits, before, effects, s, k - 1);
        assert effects[..k][..k - 1] == effects[..k - 1];
      } else {
        assert DoneTo(base, end, k, State(before));
        ChainSequential(log, base, end, waits, before, effects, s, k);
      }
    }
  }

  /** Complete runs: any schedule in which the returned event has completed. */
  lemma AnyScheduleIsSequential<S>(log: seq<Command>, base: nat, end: nat, waits: set<Event>, run: seq<Action>,
                                   effects: seq<S -> S>, s: S)
    requires IsChain(log, base, end, waits) && Legal(log, run)
    requires |effects| == end - base
    requires end - 1 in State(run).finished
    ensures Memory(run, base, effects, s) == Sequential(effects, s)
  {
    LastEventCompletesChain(log, base, end, waits, run);
    ChainSequential(log, base, end, waits, run, effects, s, |effects|);
    assert effects[..|effects|] == effects;
  }

  // ---- commands whose effect is known only by its contract

  /** Relates the memory before a command to the memory after it. */
  type Effect<!S> = (S, S) -> bool

  /** What one action of a run does to memory: a command of the chain takes effect when it finishes, and
      nothing else changes the memory the chain works on. */
  ghost predicate ActionEffect<S>(run: seq<Action>, base: nat, effects: seq<Effect<S>>, mems: seq<S>, i: nat)
    requires i < |run| && |mems| == |run| + 1
  {
    var a := run[i];
    if a.Finish? && base <= a.event < base + |effects| then effects[a.event - base](mems[i], mems[i + 1])
    else mems[i + 1] == mems[i]
  }

  /** The memories before, between and after the actions of a run. */
  ghost predicate Executes<S>(run: seq<Action>, base: nat, effects: seq<Effect<S>>, mems: seq<S>) {
    |mems| == |run| + 1 && forall i | 0 <= i < |run| :: ActionEffect(run, base, effects, mems, i)
  }

  ghost predicate StepEffect<S>(effects: seq<Effect<S>>, states: seq<S>, i: nat)
    requires i < |effects| && |states| == |effects| + 1
  {
    effects[i](states[i], states[i + 1])
  }

  /** The memories of running the commands one after the other. */
  ghost predicate InSequence<S>(effects: seq<Effect<S>>, states: seq<S>) {
    |states| == |effects| + 1 && forall i | 0 <= i < |effects| :: StepEffect(effects, states, i)
  }

  lemma ExecutesPrefix<S>(run: seq<Action>, base: nat, effects: seq<Effect<S>>, mems: seq<S>)
    requires Executes(run, base, effects, mems) && run != []
    ensures Executes(run[..|run| - 1], base, effects, mems[..|run|])
    ensures ActionEffect(run, base, effects, mems, |run| - 1)
  {
    var before, mems' := run[..|run| - 1], mems[..|run|];
    forall i | 0 <= i < |before| ensures ActionEffect(before, base, effects, mems', i) {
      assert ActionEffect(run, base, effects, mems, i);
    }
  }

  lemma InSequenceSnoc<S>(effects: seq<Effect<S>>, states: seq<S>, effect: Effect<S>, s: S)
    requires InSequence(effects, states) && effect(states[|effects|], s)
    ensures InSequence(effects + [effect], states + [s])
  {
    var effects', states' := effects + [effect], states + [s];
    forall i | 0 <= i < |effects'| ensures StepEffect(effects', states', i) {
      assert i < |effects| ==> StepEffect(effects, states, i);
    }
  }

  /** At any point of any allowed schedule, memory has gone through the effects of the commands done so far
      one after the other. */
  lemma {:induction false} ScheduleInSequence<S>(log: seq<Command>, base: nat, end: nat, waits: set<Event>, run: seq<Action>,
                                                 effects: seq<Effect<S>>, mems: seq<S>, k: nat) returns (states: seq<S>)
    requires IsChain(log, base, end, waits) && Legal(log, run)
    requires |effects| == end - base && Executes(run, base, effects, mems)
    requires DoneTo(base, end, k, State(run))
    ensures InSequence(effects[..k], states) && states[0] == mems[0] && states[k] == mems[|run|]
    decreases |run|
  {
    hide Executes, ActionEffect, InSequence, IsChain;
    ExecutesLength(run, base, effects, mems);
    if run == [] {
      NothingDone(base, end, k, run);
      states := OneState(mems[0], effects);
    } else {
      var before := run[..|run| - 1];
      var a := run[|run| - 1];
      ExecutesPrefix(run, base, effects, mems);
      LastAction(log, base, end, waits, run, k);
      if a.Finish? && base <= a.event < end {
        states := ScheduleInSequence(log, base, end, waits, before, effects, mems[..|run|], k - 1);
        LastFinishes(run, base, effects, mems);
        SequenceLength(effects[..k - 1], states);
        InSequenceSnoc(effects[..k - 1], states, effects[k - 1], mems[|run|]);
        assert effects[..k - 1] + [effects[k - 1]] == effects[..k];
        states := states + [mems[|run|]];
      } else {
        states := ScheduleInSequence(log, base, end, waits, before, effects, mems[..|run|], k);
        LastFinishes(run, base, effects, mems);
      }
    }
  }

  lemma NothingDone(base: nat, end: nat, k: nat, run: seq<Action>)
    requires DoneTo(base, end, k, State(run)) && run == []
    ensures k == 0
  {
    assert k > 0 ==> base in State(run).finished;
  }

  lemma OneState<S>(s: S, effects: seq<Effect<S>>) returns (states: seq<S>)
    ensures states == [s] && InSequence(effects[..0], states)
  {
    states := [s];
  }

  lemma ExecutesLength<S>(run: seq<Action>, base: nat, effects: seq<Effect<S>>, mems: seq<S>)
    requires Executes(run, base, effects, mems)
    ensures |mems| == |run| + 1
  {
  }

  lemma SequenceLength<S>(effects: seq<Effect<S>>, states: seq<S>)
    requires InSequence(effects, states)
    ensures |states| == |effects| + 1
  {
  }

  lemma LastFinishes<S>(run: seq<Action>, base: nat, effects: seq<Effect<S>>, mems: seq<S>)
    requires run != [] && |mems| == |run| + 1 && ActionEffect(run, base, effects, mems, |run| - 1)
    ensures var a := run[|run| - 1];
            if a.Finish? && base <= a.event < base + |effects|
            then effects[a.event - base](mems[|run| - 1], mems[|run|])
            else mems[|run|] == mems[|run| - 1]
  {
  }

  /** The last action either finishes the next command of the chain or leaves the chain where it was. */
  lemma LastAction(log: seq<Command>, base: nat, end: nat, waits: set<Event>, run: seq<Action>, k: nat)
    requires IsChain(log, base, end, waits) && Legal(log, run) && run != []
    requires DoneTo(base, end, k, State(run))
    ensures var a, before := run[|run| - 1], run[..|run| - 1];
            if a.Finish? && base <= a.event < end
            then k > 0 && a.event == base + k - 1 && DoneTo(base, end, k - 1, State(before))
            else DoneTo(base, end, k, State(before))
  {
    var before := run[..|run| - 1];
    var a := run[|run| - 1];
    ChainInOrder(log, base, end, waits, before);
    if a.Finish? && base <= a.event < end {
      assert a.event in State(run).finished;
      assert a.event < base + k;
      assert a.event == base + k - 1 by {
        assert base + k - 1 == a.event || base + k - 1 in State(before).finished;
      }
    }
  }

  /** Once the returned event is complete, under any allowed schedule, memory has gone through the effects of
      all the commands one after the other. */
  lemma AnyScheduleInSequence<S>(log: seq<Command>, base: nat, end: nat, waits: set<Event>, run: seq<Action>,
                                 effects: seq<Effect<S>>, mems: seq<S>) returns (states: seq<S>)
    requires IsChain(log, base, end, waits) && Legal(log, run)
    requires |effects| == end - base && Executes(run, base, effects, mems)
    requires end - 1 in State(run).finished
    ensures InSequence(effects, states) && states[0] == mems[0] && states[|effects|] == mems[|run|]
  {
    LastEventCompletesChain(log, base, end, waits, run);
    states := ScheduleInSequence(log, base, end, waits, run, effects, mems, |effects|);
    assert effects[..|effects|] == effects;
  }
}
