/**
 * The bounded blocking queue: `fifo<T>`. A thread runs one critical section at a time, from taking
 * the mutex to returning or waiting; every interleaving is a sequence of such sections.
 */
module FifoModel {
  /**
   * `waitItem` and `waitSpace` are the threads blocked on the two condition variables, `wokenC` and
   * `wokenP` those that were woken and have yet to take the mutex again. `elem` is the argument of
   * each producer among them; `sent` and `got` are the values pushed and popped so far.
   */
  datatype State<T> = State(q: seq<T>, max: nat, waitItem: set<nat>, wokenC: set<nat>, waitSpace: set<nat>,
                            wokenP: set<nat>, elem: map<nat, T>, sent: seq<T>, got: seq<T>)

  /** `wake` is the choice of the scheduler: who wakes up if the section signals. */
  datatype Event<T> =
    | EnqCall(t: nat, e: T, blocking: bool, wake: set<nat>)
    | EnqResume(t: nat, wake: set<nat>)
    | DeqCall(t: nat, wake: set<nat>)
    | DeqResume(t: nat, wake: set<nat>)
    | Spurious(t: nat)

  /** What `pthread_cond_signal` may do: wake at least one of the waiting threads, if there are any. */
  predicate Signals(waiting: set<nat>, wake: set<nat>) {
    wake <= waiting && (waiting != {} ==> wake != {})
  }

  function Threads<T>(s: State<T>): set<nat> {
    s.waitItem + s.wokenC + s.waitSpace + s.wokenP
  }

  predicate Enabled<T>(s: State<T>, ev: Event<T>) {
    match ev
    case EnqCall(t, _, _, wake) => t !in Threads(s) && Signals(s.waitItem, wake)
    case EnqResume(t, wake) => t in s.wokenP && t in s.elem && Signals(s.waitItem, wake)
    case DeqCall(t, wake) => t !in Threads(s) && Signals(s.waitSpace, wake)
    case DeqResume(t, wake) => t in s.wokenC && Signals(s.waitSpace, wake)
    case Spurious(t) => t in s.waitItem || t in s.waitSpace
  }

  predicate HasSpace<T>(s: State<T>) {
    s.max == 0 || |s.q| < s.max
  }

  function SignalItem<T>(s: State<T>, wake: set<nat>): State<T> {
    s.(waitItem := s.waitItem - wake, wokenC := s.wokenC + wake)
  }

  function SignalSpace<T>(s: State<T>, wake: set<nat>): State<T> {
    s.(waitSpace := s.waitSpace - wake, wokenP := s.wokenP + wake)
  }

  /** The body of `enq` for thread `t`. */
  function EnqSection<T>(s: State<T>, t: nat, e: T, blocking: bool, wake: set<nat>): State<T> {
    if HasSpace(s) then SignalItem(s.(q := s.q + [e], sent := s.sent + [e]), wake)
    else if blocking then s.(waitSpace := s.waitSpace + {t}, elem := s.elem[t := e])
    else s
  }

  /** The body of `deq` for thread `t`. */
  function DeqSection<T>(s: State<T>, t: nat, wake: set<nat>): State<T> {
    if s.q == [] then s.(waitItem := s.waitItem + {t})
    else
      var s1 := s.(q := s.q[1..], got := s.got + [s.q[0]]);
      if s1.max != 0 && |s1.q| < s1.max then SignalSpace(s1, wake) else s1
  }

  function Next<T>(s: State<T>, ev: Event<T>): State<T>
    requires Enabled(s, ev)
  {
    match ev
    case EnqCall(t, e, blocking, wake) => EnqSection(s, t, e, blocking, wake)
    case EnqResume(t, wake) => EnqSection(s.(wokenP := s.wokenP - {t}), t, s.elem[t], true, wake)
    case DeqCall(t, wake) => DeqSection(s, t, wake)
    case DeqResume(t, wake) => DeqSection(s.(wokenC := s.wokenC - {t}), t, wake)
    case Spurious(t) => if t in s.waitItem then SignalItem(s, {t}) else SignalSpace(s, {t})
  }

  predicate AllEnabled<T>(s: State<T>, evs: seq<Event<T>>)
    decreases |evs|
  {
    evs == [] || (Enabled(s, evs[0]) && AllEnabled(Next(s, evs[0]), evs[1..]))
  }

  function Run<T>(s: State<T>, evs: seq<Event<T>>): State<T>
    requires AllEnabled(s, evs)
    decreases |evs|
  {
    if evs == [] then s else Run(Next(s, evs[0]), evs[1..])
  }

  function Start<T>(max: nat): State<T> {
    State([], max, {}, {}, {}, {}, map[], [], [])
  }

  // ---- Safety -----------------------------------------------------------------------------------------

  ghost predicate Disjoint<T>(s: State<T>) {
    && (forall t :: t in s.waitItem ==> t !in s.wokenC && t !in s.waitSpace && t !in s.wokenP)
    && (forall t :: t in s.wokenC ==> t !in s.waitSpace && t !in s.wokenP)
    && (forall t :: t in s.waitSpace ==> t !in s.wokenP)
  }

  /** No wakeup is lost: whoever waits beside an item, or beside space, has a woken peer for it. */
  ghost predicate NoLostWakeup<T>(s: State<T>) {
    && (s.waitItem != {} ==> |s.q| <= |s.wokenC|)
    && (s.waitSpace != {} ==> s.max - |s.q| <= |s.wokenP|)
  }

  ghost predicate Inv<T>(s: State<T>) {
    && Disjoint(s)
    && (forall t :: t in s.waitSpace || t in s.wokenP ==> t in s.elem)
    && (s.max > 0 ==> |s.q| <= s.max)
    && (s.max == 0 ==> s.waitSpace == {} && s.wokenP == {})
    && s.sent == s.got + s.q
    && NoLostWakeup(s)
  }

  lemma MoveSize(from: set<nat>, to: set<nat>, moved: set<nat>)
    requires from !! to && moved <= from
    ensures |to + moved| == |to| + |moved| && (moved != {} ==> |moved| > 0)
  {
  }

  lemma RemoveSize(s: set<nat>, t: nat)
    ensures |s - {t}| == |s| - if t in s then 1 else 0
  {
  }

  /** `s` is `s0` with thread `t`, which holds the mutex, taken from the woken producers if it was there. */
  lemma EnqKeepsInv<T>(s0: State<T>, s: State<T>, t: nat, e: T, blocking: bool, wake: set<nat>)
    requires Inv(s0) && Signals(s0.waitItem, wake) && s == s0.(wokenP := s0.wokenP - {t})
    requires t !in s.waitItem + s.wokenC + s.waitSpace
    ensures Inv(EnqSection(s, t, e, blocking, wake))
  {
    RemoveSize(s0.wokenP, t);
    if HasSpace(s) {
      MoveSize(s.waitItem, s.wokenC, wake);
      assert s.sent + [e] == s.got + (s.q + [e]);
    }
  }

  lemma DeqKeepsInv<T>(s0: State<T>, s: State<T>, t: nat, wake: set<nat>)
    requires Inv(s0) && Signals(s0.waitSpace, wake) && s == s0.(wokenC := s0.wokenC - {t})
    requires t !in s.waitItem + s.waitSpace + s.wokenP
    ensures Inv(DeqSection(s, t, wake))
  {
    RemoveSize(s0.wokenC, t);
    MoveSize(s.waitSpace, s.wokenP, wake);
    if s.q != [] {
      assert s.sent == s.got + [s.q[0]] + s.q[1..];
    }
  }

  lemma NextKeepsInv<T>(s: State<T>, ev: Event<T>)
    requires Inv(s) && Enabled(s, ev)
    ensures Inv(Next(s, ev)) && Next(s, ev).max == s.max
  {
    hide Inv, EnqSection, DeqSection, Signals;
    InvThreads(s);
    match ev
    case EnqCall(t, e, blocking, wake) =>
      assert s == s.(wokenP := s.wokenP - {t});
      EnqKeepsInv(s, s, t, e, blocking, wake);
      EnqFrame(s, t, e, blocking, wake);
    case EnqResume(t, wake) =>
      var s1 := s.(wokenP := s.wokenP - {t});
      EnqKeepsInv(s, s1, t, s.elem[t], true, wake);
      EnqFrame(s1, t, s.elem[t], true, wake);
    case DeqCall(t, wake) =>
      assert s == s.(wokenC := s.wokenC - {t});
      DeqKeepsInv(s, s, t, wake);
      DeqFrame(s, t, wake);
    case DeqResume(t, wake) =>
      var s1 := s.(wokenC := s.wokenC - {t});
      DeqKeepsInv(s, s1, t, wake);
      DeqFrame(s1, t, wake);
    case Spurious(t) =>
      SpuriousKeepsInv(s, t);
  }

  lemma InvThreads<T>(s: State<T>)
    requires Inv(s)
    ensures Disjoint(s)
  {
  }

  /** The threads of the system after a section: `t` stays in it only if it has to wait. */
  lemma EnqFrame<T>(s: State<T>, t: nat, e: T, blocking: bool, wake: set<nat>)
    requires Signals(s.waitItem, wake)
    ensures var s' := EnqSection(s, t, e, blocking, wake);
      && s'.max == s.max
      && Threads(s') == (if HasSpace(s) || !blocking then Threads(s) else Threads(s) + {t})
      && (!HasSpace(s) ==> s'.wokenC == s.wokenC && s'.wokenP == s.wokenP)
  {
  }

  lemma DeqFrame<T>(s: State<T>, t: nat, wake: set<nat>)
    requires Signals(s.waitSpace, wake)
    ensures var s' := DeqSection(s, t, wake);
      && s'.max == s.max
      && Threads(s') == (if s.q == [] then Threads(s) + {t} else Threads(s))
      && (s.q == [] ==> s'.wokenC == s.wokenC && s'.wokenP == s.wokenP)
  {
  }

  lemma SpuriousKeepsInv<T>(s: State<T>, t: nat)
    requires Inv(s) && (t in s.waitItem || t in s.waitSpace)
    ensures Inv(if t in s.waitItem then SignalItem(s, {t}) else SignalSpace(s, {t}))
  {
    if t in s.waitItem {
      SpuriousConsumer(s, t);
    } else {
      SpuriousProducer(s, t);
    }
  }

  lemma SpuriousConsumer<T>(s: State<T>, t: nat)
    requires Inv(s) && t in s.waitItem
    ensures Inv(SignalItem(s, {t}))
  {
  }

  lemma SpuriousProducer<T>(s: State<T>, t: nat)
    requires Inv(s) && t in s.waitSpace
    ensures Inv(SignalSpace(s, {t}))
  {
  }

  /** In every interleaving, with spurious wakeups, the invariant holds. */
  lemma {:induction false} RunKeepsInv<T>(s: State<T>, evs: seq<Event<T>>)
    requires Inv(s) && AllEnabled(s, evs)
    ensures Inv(Run(s, evs)) && Run(s, evs).max == s.max
    decreases |evs|
  {
    if evs != [] {
      NextKeepsInv(s, evs[0]);
      RunKeepsInv(Next(s, evs[0]), evs[1..]);
    }
  }

  /**
   * From the empty queue, whatever the threads do: values come out in the order they went in, each
   * once; the capacity is respected; and a thread that sleeps beside a usable item or beside
   * space is not alone, a peer was woken for it.
   */
  lemma EveryRun<T>(max: nat, evs: seq<Event<T>>)
    requires AllEnabled(Start<T>(max), evs)
    ensures var s := Run(Start<T>(max), evs);
      && s.sent == s.got + s.q
      && (max > 0 ==> |s.q| <= max)
      && (s.waitItem != {} ==> |s.q| <= |s.wokenC|)
      && (s.waitSpace != {} ==> max - |s.q| <= |s.wokenP|)
      && (s.waitItem != {} && s.q != [] ==> s.wokenC != {})
      && (s.waitSpace != {} && |s.q| < max ==> s.wokenP != {})
  {
    RunKeepsInv(Start<T>(max), evs);
  }

  /** Once nobody is left to run, consumers sleep only at an empty queue and producers only at a full one. */
  lemma QuietIsJustified<T>(s: State<T>)
    requires Inv(s) && s.wokenC == {} && s.wokenP == {}
    ensures s.waitItem != {} ==> s.q == [] && s.waitSpace == {}
    ensures s.waitSpace != {} ==> |s.q| == s.max > 0 && s.waitItem == {}
  {
  }

  /** A non-blocking `enq` fails exactly when the queue is full, and then changes nothing. */
  lemma NonBlockingEnq<T>(s: State<T>, t: nat, e: T, wake: set<nat>)
    requires Inv(s) && Enabled(s, EnqCall(t, e, false, wake))
    ensures var s' := Next(s, EnqCall(t, e, false, wake));
      && (s' == s <==> s.max > 0 && |s.q| == s.max)
      && (s' != s ==> s'.q == s.q + [e] && s'.sent == s.sent + [e])
  {
  }

  // ---- Progress -----------------------------------------------------------------------------------------

  predicate IsResume<T>(ev: Event<T>) {
    ev.EnqResume? || ev.DeqResume?
  }

  ghost function Woken<T>(s: State<T>): nat {
    |s.wokenC| + |s.wokenP|
  }

  /** Each time a woken thread runs, a call returns or one thread fewer is awake. */
  lemma ResumeProgress<T>(s: State<T>, ev: Event<T>)
    requires Inv(s) && Enabled(s, ev) && IsResume(ev)
    ensures var s' := Next(s, ev);
      |Threads(s')| < |Threads(s)| || (|Threads(s')| == |Threads(s)| && Woken(s') < Woken(s))
  {
    hide Inv, EnqSection, DeqSection, HasSpace, Signals, Disjoint, Threads;
    InvThreads(s);
    match ev
    case EnqResume(t, wake) =>
      EnqFrame(s.(wokenP := s.wokenP - {t}), t, s.elem[t], true, wake);
      ProducerLeaves(s, t);
    case DeqResume(t, wake) =>
      DeqFrame(s.(wokenC := s.wokenC - {t}), t, wake);
      ConsumerLeaves(s, t);
  }

  lemma ProducerLeaves<T>(s: State<T>, t: nat)
    requires Disjoint(s) && t in s.wokenP
    ensures var s1 := s.(wokenP := s.wokenP - {t});
      |s1.wokenP| == |s.wokenP| - 1 && |Threads(s1)| == |Threads(s)| - 1 && Threads(s1) + {t} == Threads(s)
  {
  }

  lemma ConsumerLeaves<T>(s: State<T>, t: nat)
    requires Disjoint(s) && t in s.wokenC
    ensures var s1 := s.(wokenC := s.wokenC - {t});
      |s1.wokenC| == |s.wokenC| - 1 && |Threads(s1)| == |Threads(s)| - 1 && Threads(s1) + {t} == Threads(s)
  {
  }

  lemma WokenBound<T>(s: State<T>)
    requires Disjoint(s)
    ensures Woken(s) <= |Threads(s)|
  {
  }

  /** How many turns woken threads can still take. */
  ghost function Budget<T>(s: State<T>): nat {
    |Threads(s)| * (|Threads(s)| + 1) + Woken(s)
  }

  lemma BudgetShrinks<T>(s: State<T>, ev: Event<T>)
    requires Inv(s) && Enabled(s, ev) && IsResume(ev)
    ensures Budget(Next(s, ev)) < Budget(s)
  {
    hide Inv, Threads, Woken, Enabled, Next;
    NextKeepsInv(s, ev);
    ResumeProgress(s, ev);
    InvThreads(Next(s, ev));
    WokenBound(Next(s, ev));
    BoundStep(|Threads(s)|, Woken(s), |Threads(Next(s, ev))|, Woken(Next(s, ev)));
  }

  /** No schedule of woken threads runs for ever: its length is bounded by the threads in the system. */
  lemma {:induction false} ResumesEnd<T>(s: State<T>, evs: seq<Event<T>>)
    requires Inv(s) && AllEnabled(s, evs) && forall ev :: ev in evs ==> IsResume(ev)
    ensures |evs| <= Budget(s)
    decreases |evs|
  {
    if evs != [] {
      hide Inv, Enabled, Next, Budget;
      assert IsResume(evs[0]);
      NextKeepsInv(s, evs[0]);
      BudgetShrinks(s, evs[0]);
      ResumesEnd(Next(s, evs[0]), evs[1..]);
    }
  }

  lemma BoundStep(n: nat, w: nat, n': nat, w': nat)
    requires (n' < n || (n' == n && w' < w)) && w' <= n'
    ensures n' * (n' + 1) + w' < n * (n + 1) + w
  {
    if n' < n {
      assert n' * (n' + 1) + n' < (n' + 1) * (n' + 2);
      assert (n' + 1) * (n' + 2) <= n * (n + 1) by {
        assert n' + 1 <= n;
      }
    }
  }

  /** Nobody is left to run: no woken thread can take its turn, however it would signal. */
  ghost predicate AtRest<T>(s: State<T>) {
    forall t, wake :: !Enabled(s, EnqResume(t, wake)) && !Enabled(s, DeqResume(t, wake))
  }

  /**
   * Whichever way the woken threads are scheduled, the schedule ends, and once none of them can go on all
   * of them have gone on; consumers then sleep only at an empty queue and producers only at a full one.
   */
  lemma EveryScheduleSettles<T>(s: State<T>, evs: seq<Event<T>>)
    requires Inv(s) && AllEnabled(s, evs) && forall ev :: ev in evs ==> IsResume(ev)
    ensures |evs| <= Budget(s)
    ensures var s' := Run(s, evs);
      && (AtRest(s') <==> s'.wokenC == {} && s'.wokenP == {})
      && (AtRest(s') && s'.waitItem != {} ==> s'.q == [] && s'.waitSpace == {})
      && (AtRest(s') && s'.waitSpace != {} ==> |s'.q| == s'.max > 0 && s'.waitItem == {})
  {
    hide Budget, AllEnabled;
    ResumesEnd(s, evs);
    RunKeepsInv(s, evs);
    var s' := Run(s, evs);
    if t :| t in s'.wokenC {
      assert Enabled(s', DeqResume(t, s'.waitSpace));
    } else if t :| t in s'.wokenP {
      assert Enabled(s', EnqResume(t, s'.waitItem));
    } else {
      QuietIsJustified(s');
    }
  }

  /** Letting the woken threads run leads to rest: no thread sleeps beside an item or beside space. */
  lemma {:induction false} Settles<T>(s: State<T>) returns (evs: seq<Event<T>>)
    requires Inv(s)
    ensures AllEnabled(s, evs) && forall ev :: ev in evs ==> IsResume(ev)
    ensures var s' := Run(s, evs);
      && Inv(s') && s'.wokenC == {} && s'.wokenP == {}
      && (s'.waitItem != {} ==> s'.q == []) && (s'.waitSpace != {} ==> |s'.q| == s'.max)
    decreases |Threads(s)|, Woken(s)
  {
    if s.wokenC == {} && s.wokenP == {} {
      evs := [];
      QuietIsJustified(s);
    } else {
      var ev;
      if s.wokenC != {} {
        var t :| t in s.wokenC;
        ev := DeqResume(t, s.waitSpace);
      } else {
        var t :| t in s.wokenP;
        ev := EnqResume(t, s.waitItem);
      }
      NextKeepsInv(s, ev);
      ResumeProgress(s, ev);
      var rest := Settles(Next(s, ev));
      evs := [ev] + rest;
      assert evs[1..] == rest;
    }
  }
}

/**
 * The queue as an object. `FifoModel` says what a critical section does to the state; the methods here are the
 * statements of the C++ functions, in their order, on the object's own list and limit: append, return or wait, then
 * signal; take the front, then signal below the limit. Their contracts prove that each run of those statements is
 * one section of the model, and say what the caller gets back. The sets of threads stand for the two condition
 * variables and the mutex, whose memory the code leaves to the thread library.
 */
module FifoObject {
  import opened Wrappers
  import M = FifoModel

  /** How a critical section of `enq` ends. */
  datatype Verdict = Returned(ok: bool) | Waiting

  class Fifo<T> {
    var q: seq<T>
    const max: nat
    var waitItem: set<nat>
    var wokenC: set<nat>
    var waitSpace: set<nat>
    var wokenP: set<nat>
    var elem: map<nat, T>
    ghost var sent: seq<T>
    ghost var got: seq<T>

    ghost function State(): M.State<T>
      reads this
    {
      M.State(q, max, waitItem, wokenC, waitSpace, wokenP, elem, sent, got)
    }

    ghost predicate Valid()
      reads this
    {
      M.Inv(State())
    }

    constructor (limit: nat)
      ensures Valid() && State() == M.Start(limit)
    {
      q, max := [], limit;
      waitItem, wokenC, waitSpace, wokenP, elem := {}, {}, {}, {}, map[];
      sent, got := [], [];
    }

    /** Despite its name and type: whether the queue holds anything. */
    method Size() returns (r: bool)
      ensures r <==> |q| > 0
    {
      return |q| != 0;
    }

    /** One turn of the loop of `enq`, up to the return or the wait. */
    method EnqTurn(t: nat, e: T, blocking: bool, wake: set<nat>) returns (r: Verdict)
      requires M.Signals(waitItem, wake)
      modifies this
      ensures State() == M.EnqSection(old(State()), t, e, blocking, wake)
      ensures r == if M.HasSpace(old(State())) then Returned(true) else if blocking then Waiting else Returned(false)
    {
      if max == 0 || |q| < max {
        q := q + [e];
        sent := sent + [e];
      } else if blocking {
        waitSpace, elem := waitSpace + {t}, elem[t := e];
        return Waiting;
      } else {
        return Returned(false);
      }
      waitItem, wokenC := waitItem - wake, wokenC + wake;
      return Returned(true);
    }

    /** One turn of the loop of `deq`; None is waiting. */
    method DeqTurn(t: nat, wake: set<nat>) returns (r: Option<T>)
      requires M.Signals(waitSpace, wake)
      modifies this
      ensures State() == M.DeqSection(old(State()), t, wake)
      ensures r == if old(q) == [] then None else Some(old(q)[0])
    {
      if q == [] {
        waitItem := waitItem + {t};
        return None;
      }
      r := Some(q[0]);
      got := got + [q[0]];
      q := q[1..];
      if max != 0 && |q| < max {
        waitSpace, wokenP := waitSpace - wake, wokenP + wake;
      }
    }

    method Enq(t: nat, e: T, blocking: bool, wake: set<nat>) returns (r: Verdict)
      requires Valid() && M.Enabled(State(), M.EnqCall(t, e, blocking, wake))
      modifies this
      ensures Valid() && State() == M.Next(old(State()), M.EnqCall(t, e, blocking, wake))
      ensures r == Returned(false) <==> !blocking && max > 0 && |old(q)| == max
      ensures r == Waiting <==> blocking && max > 0 && |old(q)| == max
    {
      M.NextKeepsInv(State(), M.EnqCall(t, e, blocking, wake));
      r := EnqTurn(t, e, blocking, wake);
    }

    /** A woken producer has the mutex again and goes around the loop. */
    method EnqAgain(t: nat, wake: set<nat>) returns (r: Verdict)
      requires Valid() && M.Enabled(State(), M.EnqResume(t, wake))
      modifies this
      ensures Valid() && State() == M.Next(old(State()), M.EnqResume(t, wake))
      ensures r == if max > 0 && |old(q)| == max then Waiting else Returned(true)
    {
      M.NextKeepsInv(State(), M.EnqResume(t, wake));
      wokenP := wokenP - {t};
      r := EnqTurn(t, elem[t], true, wake);
    }

    method Deq(t: nat, wake: set<nat>) returns (r: Option<T>)
      requires Valid() && M.Enabled(State(), M.DeqCall(t, wake))
      modifies this
      ensures Valid() && State() == M.Next(old(State()), M.DeqCall(t, wake))
      ensures r == if old(q) == [] then None else Some(old(q)[0])
    {
      M.NextKeepsInv(State(), M.DeqCall(t, wake));
      r := DeqTurn(t, wake);
    }

    /** A woken consumer has the mutex again and goes around the loop. */
    method DeqAgain(t: nat, wake: set<nat>) returns (r: Option<T>)
      requires Valid() && M.Enabled(State(), M.DeqResume(t, wake))
      modifies this
      ensures Valid() && State() == M.Next(old(State()), M.DeqResume(t, wake))
      ensures r == if old(q) == [] then None else Some(old(q)[0])
    {
      M.NextKeepsInv(State(), M.DeqResume(t, wake));
      wokenC := wokenC - {t};
      r := DeqTurn(t, wake);
    }
  }
}
