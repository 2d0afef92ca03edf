/**
 * The queue seen from its callers: which call each value in it comes from, and who is kept waiting. Everything is
 * said in terms of the calls made so far, not of what the queue remembers about them.
 */
module FifoHistory {
  import opened Wrappers
  import opened FifoModel

  predicate Full<T>(s: State<T>) {
    s.max > 0 && |s.q| >= s.max
  }

  /** The argument of the last call of `enq` that thread `t` made. */
  function LastArg<T>(evs: seq<Event<T>>, t: nat): Option<T> {
    if evs == [] then None
    else
      var ev := evs[|evs| - 1];
      if ev.EnqCall? && ev.t == t then Some(ev.e) else LastArg(evs[..|evs| - 1], t)
  }

  /** The producers that are inside `enq`. */
  function Producers<T>(s: State<T>): set<nat> {
    s.waitSpace + s.wokenP
  }

  /** The consumers that are inside `deq`. */
  function Consumers<T>(s: State<T>): set<nat> {
    s.waitItem + s.wokenC
  }

  // ---- One event ---------------------------------------------------------------------------------------

  /** Who is inside `enq` and `deq` after a turn of `enq`: only the thread that runs comes or goes. */
  lemma EnqWaits<T>(s: State<T>, t: nat, e: T, blocking: bool, wake: set<nat>)
    requires t !in Threads(s) && Signals(s.waitItem, wake)
    ensures var s' := EnqSection(s, t, e, blocking, wake);
      && s'.waitSpace == (if blocking && Full(s) then s.waitSpace + {t} else s.waitSpace) && s'.wokenP == s.wokenP
      && s'.waitItem + s'.wokenC == s.waitItem + s.wokenC
  {
  }

  lemma DeqWaits<T>(s: State<T>, t: nat, wake: set<nat>)
    requires t !in Threads(s) && Signals(s.waitSpace, wake)
    ensures var s' := DeqSection(s, t, wake);
      && s'.waitItem == (if s.q == [] then s.waitItem + {t} else s.waitItem) && s'.wokenC == s.wokenC
      && Producers(s') == Producers(s)
  {
  }

  /** Who waits after an event: a caller stays exactly when it has to, and nobody else comes or goes. */
  lemma WhoWaits<T>(s: State<T>, ev: Event<T>)
    requires Inv(s) && Enabled(s, ev)
    ensures var s' := Next(s, ev);
      match ev
      case EnqCall(t, _, blocking, _) =>
        && Producers(s') == Producers(s) + (if blocking && Full(s) then {t} else {})
        && Consumers(s') == Consumers(s)
      case EnqResume(t, _) =>
        && Producers(s') == Producers(s) - {t} + (if Full(s) then {t} else {})
        && Consumers(s') == Consumers(s)
      case DeqCall(t, _) =>
        && Consumers(s') == Consumers(s) + (if s.q == [] then {t} else {})
        && Producers(s') == Producers(s)
      case DeqResume(t, _) =>
        && Consumers(s') == Consumers(s) - {t} + (if s.q == [] then {t} else {})
        && Producers(s') == Producers(s)
      case Spurious(t) => Producers(s') == Producers(s) && Consumers(s') == Consumers(s)
  {
    hide Inv, EnqSection, DeqSection, Signals, HasSpace;
    InvThreads(s);
    match ev
    case EnqCall(t, e, blocking, wake) => EnqWaits(s, t, e, blocking, wake);
    case EnqResume(t, wake) => EnqWaits(s.(wokenP := s.wokenP - {t}), t, s.elem[t], true, wake);
    case DeqCall(t, wake) => DeqWaits(s, t, wake);
    case DeqResume(t, wake) => DeqWaits(s.(wokenC := s.wokenC - {t}), t, wake);
    case Spurious(t) =>
  }

  lemma StepElem<T>(s: State<T>, ev: Event<T>)
    requires Enabled(s, ev)
    ensures Next(s, ev).elem ==
      if ev.EnqCall? && ev.blocking && Full(s) then s.elem[ev.t := ev.e] else s.elem
  {
    hide Signals, Threads;
  }

  /** A producer inside `enq` holds the argument of the call it is in, however often it goes around the loop. */
  lemma StepArg<T>(s: State<T>, ev: Event<T>, t: nat)
    requires Inv(s) && Enabled(s, ev) && t in Producers(Next(s, ev))
    ensures t in Next(s, ev).elem
    ensures if ev.EnqCall? && ev.t == t then Next(s, ev).elem[t] == ev.e
            else t in Producers(s) && t in s.elem && Next(s, ev).elem[t] == s.elem[t]
  {
    hide Inv, Next, Full, Signals;
    WhoWaits(s, ev);
    StepElem(s, ev);
    if !(ev.EnqCall? && ev.t == t) {
      InvElem(s, t);
    }
  }

  lemma InvElem<T>(s: State<T>, t: nat)
    requires Inv(s) && t in Producers(s)
    ensures t in s.elem
  {
  }

  /** What an event appends to the queue, if the calls before it were `past`. */
  function PushOf<T>(s: State<T>, past: seq<Event<T>>, ev: Event<T>): seq<T> {
    if Full(s) then []
    else if ev.EnqCall? then [ev.e]
    else if ev.EnqResume? && LastArg(past, ev.t).Some? then [LastArg(past, ev.t).value]
    else []
  }

  /** What an event takes from the front. */
  function PopOf<T>(s: State<T>, ev: Event<T>): seq<T> {
    if (ev.DeqCall? || ev.DeqResume?) && s.q != [] then [s.q[0]] else []
  }

  /** The calls `past` explain the arguments held in `s`. */
  ghost predicate Explains<T>(past: seq<Event<T>>, s: State<T>) {
    forall t :: t in Producers(s) ==> t in s.elem && LastArg(past, t) == Some(s.elem[t])
  }

  lemma StepExplains<T>(s: State<T>, past: seq<Event<T>>, ev: Event<T>)
    requires Inv(s) && Enabled(s, ev) && Explains(past, s)
    ensures Explains(past + [ev], Next(s, ev))
  {
    hide Inv, Enabled, Next;
    var evs := past + [ev];
    assert evs[..|evs| - 1] == past;
    forall t | t in Producers(Next(s, ev))
      ensures t in Next(s, ev).elem && LastArg(evs, t) == Some(Next(s, ev).elem[t])
    {
      StepArg(s, ev, t);
    }
  }

  lemma StepSent<T>(s: State<T>, ev: Event<T>)
    requires Enabled(s, ev)
    ensures Next(s, ev).sent == s.sent +
      if Full(s) then [] else if ev.EnqCall? then [ev.e] else if ev.EnqResume? then [s.elem[ev.t]] else []
  {
    hide Signals, Threads;
  }

  lemma StepPushes<T>(s: State<T>, past: seq<Event<T>>, ev: Event<T>)
    requires Enabled(s, ev) && Explains(past, s)
    ensures Next(s, ev).sent == s.sent + PushOf(s, past, ev)
  {
    hide LastArg, Next, Full;
    StepSent(s, ev);
    if ev.EnqResume? {
      assert ev.t in Producers(s);
    }
  }

  lemma StepGot<T>(s: State<T>, ev: Event<T>)
    requires Enabled(s, ev)
    ensures Next(s, ev).got == s.got + PopOf(s, ev)
  {
    hide Signals, Threads;
  }

  /** One of those that wait, or all of them. */
  ghost predicate OneOrAll(waiting: set<nat>, wake: set<nat>) {
    wake == waiting || exists u :: u in waiting && wake == {u}
  }

  /**
   * Nothing but the queue's own rules restricts a schedule: a thread outside may call at any time, a woken one may go
   * on, and a signal may wake any single waiting thread or all of them.
   */
  lemma FreeSchedules<T>(s: State<T>, t: nat, e: T, blocking: bool, wake: set<nat>)
    requires Inv(s)
    ensures var outside := t !in Producers(s) + Consumers(s);
      && (outside && OneOrAll(s.waitItem, wake) ==> Enabled(s, EnqCall(t, e, blocking, wake)))
      && (outside && OneOrAll(s.waitSpace, wake) ==> Enabled(s, DeqCall(t, wake)))
    ensures t in s.wokenP && OneOrAll(s.waitItem, wake) ==> Enabled(s, EnqResume(t, wake))
    ensures t in s.wokenC && OneOrAll(s.waitSpace, wake) ==> Enabled(s, DeqResume(t, wake))
    ensures t in s.waitItem || t in s.waitSpace ==> Enabled(s, Event<T>.Spurious(t))
  {
    hide Inv, Signals, OneOrAll;
    OneOrAllSignals(s.waitItem, wake);
    OneOrAllSignals(s.waitSpace, wake);
    if t in s.wokenP {
      InvElem(s, t);
    }
  }

  lemma OneOrAllSignals(waiting: set<nat>, wake: set<nat>)
    ensures OneOrAll(waiting, wake) ==> Signals(waiting, wake)
  {
  }

  // ---- Runs --------------------------------------------------------------------------------------------

  /** What the events of a run append, in order; each value is the argument of a call. */
  function Pushes<T>(s: State<T>, past: seq<Event<T>>, evs: seq<Event<T>>): seq<T>
    requires AllEnabled(s, evs)
    decreases |evs|
  {
    if evs == [] then []
    else PushOf(s, past, evs[0]) + Pushes(Next(s, evs[0]), past + [evs[0]], evs[1..])
  }

  function Pops<T>(s: State<T>, evs: seq<Event<T>>): seq<T>
    requires AllEnabled(s, evs)
    decreases |evs|
  {
    if evs == [] then [] else PopOf(s, evs[0]) + Pops(Next(s, evs[0]), evs[1..])
  }

  lemma {:induction false} RunSent<T>(s: State<T>, past: seq<Event<T>>, evs: seq<Event<T>>)
    requires Inv(s) && AllEnabled(s, evs) && Explains(past, s)
    ensures Run(s, evs).sent == s.sent + Pushes(s, past, evs)
    decreases |evs|
  {
    hide Inv, Enabled, Next, PushOf, PopOf, Explains, LastArg, Full;
    if evs == [] {
      assert s.sent + [] == s.sent;
    } else {
      NextKeepsInv(s, evs[0]);
      StepExplains(s, past, evs[0]);
      StepPushes(s, past, evs[0]);
      RunSent(Next(s, evs[0]), past + [evs[0]], evs[1..]);
    }
  }

  lemma {:induction false} RunGot<T>(s: State<T>, evs: seq<Event<T>>)
    requires AllEnabled(s, evs)
    ensures Run(s, evs).got == s.got + Pops(s, evs)
    decreases |evs|
  {
    hide Enabled, Next, PopOf;
    if evs == [] {
      assert s.got + [] == s.got;
    } else {
      StepGot(s, evs[0]);
      RunGot(Next(s, evs[0]), evs[1..]);
    }
  }

  lemma {:induction false} RunExplains<T>(s: State<T>, past: seq<Event<T>>, evs: seq<Event<T>>)
    requires Inv(s) && AllEnabled(s, evs) && Explains(past, s)
    ensures Explains(past + evs, Run(s, evs))
    decreases |evs|
  {
    hide Inv, Enabled, Next, Explains, LastArg;
    if evs == [] {
      assert past + evs == past;
    } else {
      NextKeepsInv(s, evs[0]);
      StepExplains(s, past, evs[0]);
      RunExplains(Next(s, evs[0]), past + [evs[0]], evs[1..]);
      assert past + [evs[0]] + evs[1..] == past + evs;
    }
  }

  /**
   * First in, first out, by the calls alone: what was pushed are the arguments of calls, each at the turn that found
   * room; what was popped are the fronts that the turns of `deq` found; what is left is the rest. And a
   * producer that still waits holds the argument of its own last call.
   */
  lemma EveryRunByCalls<T>(max: nat, evs: seq<Event<T>>)
    requires AllEnabled(Start<T>(max), evs)
    ensures var s0, s := Start<T>(max), Run(Start<T>(max), evs);
      && Pushes(s0, [], evs) == Pops(s0, evs) + s.q
      && s.sent == Pushes(s0, [], evs) && s.got == Pops(s0, evs)
      && forall t :: t in Producers(s) ==> t in s.elem && LastArg(evs, t) == Some(s.elem[t])
  {
    RunKeepsInv(Start<T>(max), evs);
    RunSent(Start<T>(max), [], evs);
    RunGot(Start<T>(max), evs);
    RunExplains(Start<T>(max), [], evs);
    assert [] + evs == evs;
    assert [] + Pushes(Start<T>(max), [], evs) == Pushes(Start<T>(max), [], evs);
    assert [] + Pops(Start<T>(max), evs) == Pops(Start<T>(max), evs);
  }

  // ---- Nothing is lost or doubled ------------------------------------------------------------------------

  /** The arguments of the calls of `enq` that were not refused: all but the non-blocking ones at a full queue. */
  function Accepted<T(==)>(s: State<T>, evs: seq<Event<T>>): multiset<T>
    requires AllEnabled(s, evs)
    decreases |evs|
  {
    if evs == [] then multiset{}
    else
      var ev := evs[0];
      (if ev.EnqCall? && (ev.blocking || !Full(s)) then multiset{ev.e} else multiset{}) +
      Accepted(Next(s, ev), evs[1..])
  }

  /** How many producers wait to push `v`. */
  ghost function Pending<T>(s: State<T>, v: T): nat {
    |Holders(s, v)|
  }

  ghost function Balance<T>(s: State<T>, v: T): nat {
    multiset(s.sent)[v] + Pending(s, v)
  }

  ghost function Holders<T>(s: State<T>, v: T): set<nat> {
    set t | t in Producers(s) && t in s.elem && s.elem[t] == v
  }

  /** How the push of an event and the producers it leaves waiting change. */
  lemma StepHolders<T>(s: State<T>, ev: Event<T>, v: T)
    requires Inv(s) && Enabled(s, ev)
    ensures Holders(Next(s, ev), v) ==
      if ev.EnqCall? && ev.blocking && Full(s) && ev.e == v then Holders(s, v) + {ev.t}
      else if ev.EnqResume? && !Full(s) then Holders(s, v) - {ev.t}
      else Holders(s, v)
    ensures ev.EnqCall? ==> ev.t !in Holders(s, v)
    ensures ev.EnqResume? ==> ev.t in s.elem && (ev.t in Holders(s, v) <==> s.elem[ev.t] == v)
  {
    hide Inv, Next, Full, Signals;
    forall t | t in Producers(Next(s, ev))
      ensures t in Next(s, ev).elem
      ensures if ev.EnqCall? && ev.t == t then Next(s, ev).elem[t] == ev.e
              else t in Producers(s) && t in s.elem && Next(s, ev).elem[t] == s.elem[t]
    {
      StepArg(s, ev, t);
    }
    WhoWaits(s, ev);
  }

  /** One event: a value comes in with a call that is not refused, and then is pushed once or waits. */
  lemma StepBalance<T>(s: State<T>, ev: Event<T>, v: T)
    requires Inv(s) && Enabled(s, ev)
    ensures Balance(Next(s, ev), v) ==
      Balance(s, v) + if ev.EnqCall? && (ev.blocking || !Full(s)) && ev.e == v then 1 else 0
  {
    hide Inv, Next, Full, Signals, Threads, Holders;
    StepHolders(s, ev, v);
    StepSent(s, ev);
  }

  lemma {:induction false} RunBalance<T>(s: State<T>, evs: seq<Event<T>>, v: T)
    requires Inv(s) && AllEnabled(s, evs)
    ensures Balance(Run(s, evs), v) == Balance(s, v) + Accepted(s, evs)[v]
    decreases |evs|
  {
    if evs != [] {
      hide Inv, Enabled, Next, Balance, Full;
      NextKeepsInv(s, evs[0]);
      StepBalance(s, evs[0], v);
      RunBalance(Next(s, evs[0]), evs[1..], v);
    }
  }

  /**
   * In every run, for every value: the calls that were made with it and not refused are as many as the times it was
   * popped, stands in the queue, or is held by a producer that waits.
   */
  lemma NothingLost<T>(max: nat, evs: seq<Event<T>>, v: T)
    requires AllEnabled(Start<T>(max), evs)
    ensures var s := Run(Start<T>(max), evs);
      && multiset(s.sent)[v] + Pending(s, v) == Accepted(Start<T>(max), evs)[v]
      && multiset(s.got)[v] + multiset(s.q)[v] + Pending(s, v) == Accepted(Start<T>(max), evs)[v]
  {
    RunKeepsInv(Start<T>(max), evs);
    RunBalance(Start<T>(max), evs, v);
    assert Holders(Start<T>(max), v) == {};
  }
}
