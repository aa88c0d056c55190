/**
 The transaction queue: a monitor around one database connection, with explicit
 transactions granted in the order of their requests and implicit ones in between.
 */
module Transactions {

  type Thread = nat

  /** What the callbacks into the database see. */
  datatype Call = OpenCall(t: Thread) | RequestCall(t: Thread) | CloseCall(t: Thread)

  /** The monitor's fields, and the calls it has made so far. */
  datatype Monitor = Monitor(isOpen: bool, queue: seq<Thread>, current: Thread, calls: seq<Call>)

  // ---- The critical sections ----------------------------------------------------------

  function Opened(m: Monitor, t: Thread): Monitor {
    m.(isOpen := true, current := t, calls := m.calls + [OpenCall(t)])
  }

  /** performOpen from its lock to its first wait, or to the open transaction. */
  function EnterOpen(m: Monitor, t: Thread): (r: (Monitor, bool))
    ensures r.1 ==> r.0.isOpen && r.0.queue != []
  {
    if m.queue == [] && !m.isOpen then (Opened(m, t).(queue := [t]), true)
    else
      var q := m.(queue := m.queue + [t]);
      if !m.isOpen && q.queue[0] == t then (Opened(q, t), true) else (q, false)
  }

  /** performOpen from a wake-up to the next wait, or to the open transaction. */
  function ResumeOpen(m: Monitor, t: Thread): (r: (Monitor, bool))
  {
    if m.queue != [] && m.queue[0] == t && !m.isOpen then (Opened(m, t), true) else (m, false)
  }

  /** performClose under the lock; closing what is not open is an error. */
  function CloseOpen(m: Monitor, t: Thread): (r: (Monitor, bool))
    ensures r.1 <==> m.isOpen
  {
    if !m.isOpen then (m, false)
    else
      (m.(isOpen := false, queue := if m.queue == [] then [] else m.queue[1..], calls := m.calls + [CloseCall(t)]), true)
  }

  /** performRequest: inside the open transaction, or in one of its own. */
  function DoRequest(m: Monitor, t: Thread): Monitor {
    if m.isOpen then m.(calls := m.calls + [RequestCall(t)])
    else m.(current := t, calls := m.calls + [OpenCall(t), RequestCall(t), CloseCall(t)])
  }

  /** The monitor as an object; each method is one stretch of code under the lock. */
  class LuaScript {
    var isOpen: bool
    var openQueue: seq<Thread>
    var openCurrentId: Thread
    ghost var calls: seq<Call>

    ghost function State(): Monitor
      reads this
    {
      Monitor(isOpen, openQueue, openCurrentId, calls)
    }

    constructor ()
      ensures State() == Monitor(false, [], 0, [])
    {
      isOpen, openQueue, openCurrentId, calls := false, [], 0, [];
    }

    method OpenNow(t: Thread)
      modifies this
      ensures State() == Opened(old(State()), t)
    {
      calls := calls + [OpenCall(t)];
      isOpen := true;
      openCurrentId := t;
    }

    /**
     The first pass through performOpen's loop. The thread queues up unless the monitor is
     free, and opens or gives up the lock to wait.
     */
    method Enter(t: Thread) returns (granted: bool)
      modifies this
      ensures (State(), granted) == EnterOpen(old(State()), t)
    {
      var wait := false;
      while (|openQueue| > 0 || isOpen) && !wait
        invariant !wait ==> State() == old(State())
        invariant wait ==> (State(), false) == EnterOpen(old(State()), t)
        decreases !wait
      {
        openQueue := openQueue + [t];
        if isOpen {
          return false;
        }
        if t == openQueue[0] && !isOpen {
          break;
        }
        wait := true;
      }
      if wait {
        return false;
      }
      if |openQueue| == 0 {
        openQueue := openQueue + [t];
        assert openQueue == [t];
      }
      OpenNow(t);
      granted := true;
    }

    /** A pass through the loop after a wake-up. */
    method Resume(t: Thread) returns (granted: bool)
      modifies this
      ensures (State(), granted) == ResumeOpen(old(State()), t)
    {
      if |openQueue| > 0 && t == openQueue[0] && !isOpen {
        OpenNow(t);
        return true;
      }
      granted := false;
    }

    /** performClose up to the release of the lock; the notification comes after it. */
    method Close(t: Thread) returns (ok: bool)
      modifies this
      ensures (State(), ok) == CloseOpen(old(State()), t)
    {
      if !isOpen {
        return false;
      }
      calls := calls + [CloseCall(t)];
      isOpen := false;
      if |openQueue| > 0 {
        openQueue := openQueue[1..];
      }
      ok := true;
    }

    /** performRequest, which holds the lock throughout. */
    method Request(t: Thread)
      modifies this
      ensures State() == DoRequest(old(State()), t)
    {
      if !isOpen {
        OpenNow(t);
        calls := calls + [RequestCall(t)];
        calls := calls + [CloseCall(t)];
        isOpen := false;
      } else {
        calls := calls + [RequestCall(t)];
      }
    }
  }

  // ---- Threads and their interleavings ------------------------------------------------

  /** Where a thread is: outside, in the condition variable, woken and wanting the lock, in its
      transaction, or past the lock of its close with the notification still to come. */
  datatype Phase = Idle | Waiting | Woken | InTransaction | Closing

  /** The monitor, the threads, and the order in which opens were asked for and granted. */
  datatype System = System(m: Monitor, phases: map<Thread, Phase>, arrivals: seq<Thread>, grants: seq<Thread>)

  datatype Action =
    Enter(t: Thread) | Wake(t: Thread) | Resume(t: Thread) | Close(t: Thread) | Notify(t: Thread) | Request(t: Thread)

  function PhaseOf(s: System, t: Thread): Phase {
    if t in s.phases then s.phases[t] else Idle
  }

  function Start(): System {
    System(Monitor(false, [], 0, []), map[], [], [])
  }

  /** A thread opens only when it is outside, and closes only its own transaction. */
  predicate Enabled(s: System, a: Action) {
    match a
    case Enter(t) => PhaseOf(s, t).Idle?
    case Wake(t) => PhaseOf(s, t).Waiting?
    case Resume(t) => PhaseOf(s, t).Woken?
    case Close(t) => PhaseOf(s, t).InTransaction?
    case Notify(t) => PhaseOf(s, t).Closing?
    case Request(t) => PhaseOf(s, t).Idle? || PhaseOf(s, t).InTransaction?
  }

  function Granted(s: System, t: Thread, granted: bool): System {
    if granted then s.(phases := s.phases[t := InTransaction], grants := s.grants + [t])
    else s.(phases := s.phases[t := Waiting])
  }

  function WakeAll(phases: map<Thread, Phase>): map<Thread, Phase> {
    map t | t in phases :: if phases[t].Waiting? then Woken else phases[t]
  }

  function Apply(s: System, a: Action): System {
    match a
    case Enter(t) =>
      var (m, granted) := EnterOpen(s.m, t);
      Granted(s.(m := m, arrivals := s.arrivals + [t]), t, granted)
    case Wake(t) => s.(phases := s.phases[t := Woken])
    case Resume(t) =>
      var (m, granted) := ResumeOpen(s.m, t);
      Granted(s.(m := m), t, granted)
    case Close(t) => s.(m := CloseOpen(s.m, t).0, phases := s.phases[t := Closing])
    case Notify(t) => s.(phases := WakeAll(s.phases)[t := Idle])
    case Request(t) => s.(m := DoRequest(s.m, t))
  }

  /** Any interleaving: a sequence of actions, each enabled where it happens. */
  predicate IsRun(s: System, run: seq<Action>)
    decreases |run|
  {
    run == [] || (Enabled(s, run[0]) && IsRun(Apply(s, run[0]), run[1..]))
  }

  function After(s: System, run: seq<Action>): System
    decreases |run|
  {
    if run == [] then s else After(Apply(s, run[0]), run[1..])
  }

  // ---- The invariant ------------------------------------------------------------------

  predicate NoRepeat(q: seq<Thread>) {
    forall i, j :: 0 <= i < j < |q| ==> q[i] != q[j]
  }

  predicate Queued(p: Phase) {
    p.Waiting? || p.Woken? || p.InTransaction?
  }

  /** Opens and closes of the database alternate, and requests come only in between. */
  predicate Bracketed(calls: seq<Call>, open: bool) {
    if calls == [] then !open
    else
      var init, last := calls[..|calls| - 1], calls[|calls| - 1];
      match last
      case OpenCall(_) => open && Bracketed(init, false)
      case RequestCall(_) => open && Bracketed(init, true)
      case CloseCall(_) => !open && Bracketed(init, true)
  }

  /** The threads still to be granted: all in the queue but the one whose transaction is open. */
  function Pending(m: Monitor): seq<Thread> {
    if m.isOpen && m.queue != [] then m.queue[1..] else m.queue
  }

  ghost predicate Inv(s: System) {
    && NoRepeat(s.m.queue)
    && (forall t :: t in s.m.queue <==> Queued(PhaseOf(s, t)))
    && (forall t :: PhaseOf(s, t).InTransaction? <==> s.m.isOpen && s.m.queue != [] && s.m.queue[0] == t)
    && (s.m.isOpen ==> s.m.queue != [] && s.m.current == s.m.queue[0])
    && Bracketed(s.m.calls, s.m.isOpen)
    && s.arrivals == s.grants + Pending(s.m)
    && (!s.m.isOpen && s.m.queue != [] ==> CanProceed(s))
  }

  /** The front waiter is awake, or will be by a notification that is under way. */
  ghost predicate CanProceed(s: System)
    requires s.m.queue != []
  {
    PhaseOf(s, s.m.queue[0]).Woken? || exists c :: c in s.phases && s.phases[c].Closing?
  }

  lemma CallsSnoc(calls: seq<Call>, c: Call, open: bool)
    ensures Bracketed(calls + [c], open) ==
      match c
      case OpenCall(_) => open && Bracketed(calls, false)
      case RequestCall(_) => open && Bracketed(calls, true)
      case CloseCall(_) => !open && Bracketed(calls, true)
  {
    assert (calls + [c])[..|calls|] == calls;
  }

  lemma EnterKeeps(s: System, t: Thread)
    requires Inv(s) && Enabled(s, Enter(t))
    ensures Inv(Apply(s, Enter(t)))
  {
    var s' := Apply(s, Enter(t));
    assert t !in s.m.queue;
    CallsSnoc(s.m.calls, OpenCall(t), true);
    if s.m.queue == [] && !s.m.isOpen {
      assert s'.m.queue == [t];
    } else {
      assert s'.m.queue == s.m.queue + [t] && s'.m.queue[0] == s.m.queue[0];
      assert s'.arrivals == s.grants + (Pending(s.m) + [t]);
      assert Pending(s'.m) == Pending(s.m) + [t];
      if !s.m.isOpen && !PhaseOf(s, s.m.queue[0]).Woken? {
        var c :| c in s.phases && s.phases[c].Closing?;
        assert c in s'.phases && s'.phases[c].Closing?;
      }
    }
  }

  lemma ResumeKeeps(s: System, t: Thread)
    requires Inv(s) && Enabled(s, Resume(t))
    ensures Inv(Apply(s, Resume(t)))
  {
    hide Bracketed;
    var s' := Apply(s, Resume(t));
    assert t in s.m.queue;
    forall u
      ensures u in s'.m.queue <==> Queued(PhaseOf(s', u))
      ensures PhaseOf(s', u).InTransaction? <==> s'.m.isOpen && s'.m.queue[0] == u
    {
      assert u != t ==> PhaseOf(s', u) == PhaseOf(s, u);
    }
    if s.m.queue[0] == t && !s.m.isOpen {
      CallsSnoc(s.m.calls, OpenCall(t), true);
      GrantOrder(s.grants, t, s.m.queue);
    } else if !s.m.isOpen && !PhaseOf(s, s.m.queue[0]).Woken? {
      var c :| c in s.phases && s.phases[c].Closing?;
      assert c in s'.phases && s'.phases[c].Closing?;
    }
  }

  lemma GrantOrder(grants: seq<Thread>, t: Thread, queue: seq<Thread>)
    requires queue != [] && queue[0] == t
    ensures grants + queue == grants + [t] + queue[1..]
  {
  }

  lemma CloseKeeps(s: System, t: Thread)
    requires Inv(s) && Enabled(s, Close(t))
    ensures Inv(Apply(s, Close(t)))
  {
    var s' := Apply(s, Close(t));
    CallsSnoc(s.m.calls, CloseCall(t), false);
    assert s.m.queue == [t] + s'.m.queue;
    assert t !in s'.m.queue;
    assert t in s'.phases && s'.phases[t].Closing?;
    forall u
      ensures u in s'.m.queue <==> Queued(PhaseOf(s', u))
      ensures !PhaseOf(s', u).InTransaction?
    {
      assert u in s.m.queue <==> u == t || u in s'.m.queue;
      assert u != t ==> PhaseOf(s', u) == PhaseOf(s, u);
    }
  }

  lemma RequestBracketed(m: Monitor, t: Thread)
    requires Bracketed(m.calls, m.isOpen)
    ensures Bracketed(DoRequest(m, t).calls, m.isOpen)
  {
    var calls := m.calls;
    if m.isOpen {
      CallsSnoc(calls, RequestCall(t), true);
    } else {
      CallsSnoc(calls, OpenCall(t), true);
      CallsSnoc(calls + [OpenCall(t)], RequestCall(t), true);
      CallsSnoc(calls + [OpenCall(t)] + [RequestCall(t)], CloseCall(t), false);
      assert DoRequest(m, t).calls == calls + [OpenCall(t)] + [RequestCall(t)] + [CloseCall(t)];
    }
  }

  lemma OthersKeep(s: System, a: Action)
    requires Inv(s) && Enabled(s, a) && (a.Wake? || a.Notify? || a.Request?)
    ensures Inv(Apply(s, a))
  {
    hide Bracketed;
    var t, s' := a.t, Apply(s, a);
    if a.Request? {
      RequestBracketed(s.m, t);
    }
    forall u
      ensures u in s'.m.queue <==> Queued(PhaseOf(s', u))
      ensures PhaseOf(s', u).InTransaction? <==> s'.m.isOpen && s'.m.queue != [] && s'.m.queue[0] == u
    {
      assert PhaseOf(s', u) == if a.Wake? && u == t then Woken
                               else if a.Notify? && u == t then Idle
                               else if a.Notify? && PhaseOf(s, u).Waiting? then Woken
                               else PhaseOf(s, u);
    }
    if !s.m.isOpen && s.m.queue != [] {
      var front := s.m.queue[0];
      assert front in s.m.queue;
      if !a.Notify? && !PhaseOf(s, front).Woken? {
        var c :| c in s.phases && s.phases[c].Closing?;
        assert c in s'.phases && s'.phases[c].Closing?;
      }
    }
  }

  lemma ActionKeeps(s: System, a: Action)
    requires Inv(s) && Enabled(s, a)
    ensures Inv(Apply(s, a))
  {
    match a
    case Enter(t) => EnterKeeps(s, t);
    case Resume(t) => ResumeKeeps(s, t);
    case Close(t) => CloseKeeps(s, t);
    case _ => OthersKeep(s, a);
  }

  /** Every interleaving keeps the invariant. */
  lemma {:induction false} RunKeeps(s: System, run: seq<Action>)
    requires Inv(s) && IsRun(s, run)
    ensures Inv(After(s, run))
    decreases |run|
  {
    if run != [] {
      ActionKeeps(s, run[0]);
      RunKeeps(Apply(s, run[0]), run[1..]);
    }
  }

  // ---- What the protocol guarantees -----------------------------------------------------

  /** The thread of an explicit transaction is the front of the queue, and there is only one. */
  lemma OneTransaction(run: seq<Action>)
    requires IsRun(Start(), run)
    ensures var s := After(Start(), run);
            && (forall t :: PhaseOf(s, t).InTransaction? ==> s.m.isOpen && s.m.queue != [] && s.m.queue[0] == t && s.m.current == t)
            && (forall t, u :: PhaseOf(s, t).InTransaction? && PhaseOf(s, u).InTransaction? ==> t == u)
            && Bracketed(s.m.calls, s.m.isOpen)
  {
    assert Inv(Start());
    RunKeeps(Start(), run);
  }

  /** Explicit opens are granted in the order in which they were asked for. */
  lemma FirstComeFirstServed(run: seq<Action>)
    requires IsRun(Start(), run)
    ensures var s := After(Start(), run); s.grants <= s.arrivals && s.arrivals == s.grants + Pending(s.m)
  {
    assert Inv(Start());
    RunKeeps(Start(), run);
  }

  lemma RunOne(s: System, a: Action)
    ensures After(s, [a]) == Apply(s, a) && IsRun(s, [a]) == Enabled(s, a)
  {
    assert [a][1..] == [];
  }

  /** No wake-up is lost: with nothing open and threads queued, the front thread can be granted next. */
  lemma FrontProceeds(run: seq<Action>) returns (more: seq<Action>)
    requires IsRun(Start(), run)
    requires var s := After(Start(), run); !s.m.isOpen && s.m.queue != []
    ensures var s := After(Start(), run);
            |more| <= 2 && IsRun(s, more) && After(s, more).grants == s.grants + [s.m.queue[0]]
  {
    assert Inv(Start());
    RunKeeps(Start(), run);
    var s := After(Start(), run);
    var front := s.m.queue[0];
    assert front in s.m.queue;
    if PhaseOf(s, front).Woken? {
      more := [Resume(front)];
      RunOne(s, Resume(front));
    } else {
      var c :| c in s.phases && s.phases[c].Closing?;
      more := [Notify(c), Resume(front)];
      var s1 := Apply(s, Notify(c));
      assert front != c && PhaseOf(s, front).Waiting?;
      assert PhaseOf(s1, front).Woken?;
      assert more[1..] == [Resume(front)];
      RunOne(s1, Resume(front));
    }
  }

  /** While a thread waits nobody gets in front of it: its place in the queue only moves forward. */
  lemma NoOvertaking(s: System, a: Action, i: nat)
    requires Inv(s) && Enabled(s, a) && i < |s.m.queue| && a != Close(s.m.queue[i])
    ensures var q := Apply(s, a).m.queue;
            if a.Close? then i > 0 && i - 1 < |q| && q[i - 1] == s.m.queue[i]
            else i < |q| && q[i] == s.m.queue[i]
  {
    if a.Close? {
      assert PhaseOf(s, a.t).InTransaction?;
    }
  }
}
