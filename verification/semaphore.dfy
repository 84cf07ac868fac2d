/** The counting semaphore: its locked sections on the value and the wait list, and what holds in every
    interleaving of any number of threads that wait, try, signal and retry after being woken. */
module Semaphore {
  import opened Sets

  type Tid = nat

  // ----- the locked sections -----

  /** The semaphore's own fields. */
  datatype Core = Core(value: int, waiters: seq<Tid>)

  /** One round of the wait loop: take a unit, or join the tail of the wait list unless already on it. */
  function AfterWait(c: Core, cur: Tid): Core {
    if c.value > 0 then c.(value := c.value - 1)
    else if cur in c.waiters then c
    else c.(waiters := c.waiters + [cur])
  }

  function AfterTry(c: Core): Core {
    if c.value > 0 then c.(value := c.value - 1) else c
  }

  /** Threads a signal wakes: the longest waiting one. */
  function WokenBySignal(c: Core): seq<Tid> {
    if c.value + 1 > 0 && c.waiters != [] then [c.waiters[0]] else []
  }

  function WokenBySignalAll(c: Core): seq<Tid> {
    if c.value + 1 > 0 then c.waiters else []
  }

  /** A unit is added once, however many threads are woken off the head of the list. */
  function AfterSignal(c: Core, woken: seq<Tid>): Core
    requires |woken| <= |c.waiters|
  {
    Core(c.value + 1, c.waiters[|woken|..])
  }

  class Sem {
    var value: int
    var waiters: seq<Tid>

    function Fields(): Core
      reads this
    {
      Core(value, waiters)
    }

    constructor (init: int)
      ensures Fields() == Core(init, [])
    {
      value, waiters := init, [];
    }

    /** The body of the loop of NX_SemaphoreWait; false means the caller blocks and retries when woken. */
    method WaitRound(cur: Tid) returns (taken: bool)
      modifies this
      ensures taken <==> old(value) > 0
      ensures Fields() == AfterWait(old(Fields()), cur)
    {
      if value > 0 {
        value := value - 1;
        return true;
      }
      if cur !in waiters {
        waiters := waiters + [cur];
      }
      return false;
    }

    method TryWait() returns (taken: bool)
      modifies this
      ensures taken <==> old(value) > 0
      ensures Fields() == AfterTry(old(Fields()))
    {
      taken := false;
      if value > 0 {
        value := value - 1;
        taken := true;
      }
    }

    method Signal() returns (woken: seq<Tid>)
      modifies this
      ensures woken == WokenBySignal(old(Fields()))
      ensures Fields() == AfterSignal(old(Fields()), woken)
    {
      woken := [];
      value := value + 1;
      if value > 0 {
        if waiters != [] {
          woken := [waiters[0]];
          waiters := waiters[1..];
        }
      }
    }

    method SignalAll() returns (woken: seq<Tid>)
      modifies this
      ensures woken == WokenBySignalAll(old(Fields()))
      ensures Fields() == AfterSignal(old(Fields()), woken)
    {
      woken := [];
      value := value + 1;
      if value > 0 {
        while waiters != []
          invariant woken + waiters == old(waiters) && value == old(value) + 1
          decreases |waiters|
        {
          woken := woken + [waiters[0]];
          waiters := waiters[1..];
        }
      }
    }
  }

  // ----- any number of threads -----

  datatype Thread = Outside | Entering | Blocked | Woken

  /** `signals` and `taken` count the units ever added and removed. */
  datatype State = State(core: Core, threads: map<Tid, Thread>, init: int, signals: nat, taken: nat)

  datatype Action = Enter(t: Tid) | Round(t: Tid) | Try(t: Tid) | Signal | SignalAll

  function Initial(init: int, tids: set<Tid>): State {
    State(Core(init, []), map t | t in tids :: Outside, init, 0, 0)
  }

  predicate Enabled(s: State, a: Action) {
    match a
    case Enter(t) => t in s.threads && s.threads[t] == Outside
    case Try(t) => t in s.threads && s.threads[t] == Outside
    case Round(t) => t in s.threads && (s.threads[t] == Entering || s.threads[t] == Woken)
    case Signal => true
    case SignalAll => true
  }

  function Wake(threads: map<Tid, Thread>, woken: seq<Tid>): map<Tid, Thread> {
    map t | t in threads :: if t in threads && t !in woken then threads[t] else Woken
  }

  function Signalled(s: State, woken: seq<Tid>): State
    requires |woken| <= |s.core.waiters|
  {
    s.(core := AfterSignal(s.core, woken), threads := Wake(s.threads, woken), signals := s.signals + 1)
  }

  function Step(s: State, a: Action): State {
    if !Enabled(s, a) then s else
    match a
    case Enter(t) => s.(threads := s.threads[t := Entering])
    case Try(t) => s.(core := AfterTry(s.core), taken := s.taken + if s.core.value > 0 then 1 else 0)
    case Round(t) =>
      if s.core.value > 0 then
        s.(core := AfterWait(s.core, t), threads := s.threads[t := Outside], taken := s.taken + 1)
      else
        s.(core := AfterWait(s.core, t), threads := s.threads[t := Blocked])
    case Signal => Signalled(s, WokenBySignal(s.core))
    case SignalAll => Signalled(s, WokenBySignalAll(s.core))
  }

  function Run(s: State, actions: seq<Action>): State
    decreases |actions|
  {
    if actions == [] then s else Run(Step(s, actions[0]), actions[1..])
  }

  function InPhase(threads: map<Tid, Thread>, ph: Thread): set<Tid> {
    set t | t in threads && threads[t] == ph
  }

  ghost predicate Distinct(s: seq<Tid>) {
    forall i, j :: 0 <= i < j < |s| ==> s[i] != s[j]
  }

  /** Units are conserved; the wait list holds exactly the blocked threads; and while anyone is queued, at
      least `value` threads have been woken that have yet to retry. */
  ghost predicate Inv(s: State) {
    && s.core.value == s.init + s.signals - s.taken
    && (s.core.value >= 0 || s.taken == 0)
    && Distinct(s.core.waiters)
    && (forall t :: t in s.core.waiters <==> t in s.threads && s.threads[t] == Blocked)
    && (s.core.waiters != [] ==> |InPhase(s.threads, Woken)| >= s.core.value)
  }

  lemma EnterKeepsInv(s: State, t: Tid)
    requires Inv(s) && Enabled(s, Enter(t))
    ensures Inv(Step(s, Enter(t)))
  {
    assert InPhase(s.threads[t := Entering], Woken) == InPhase(s.threads, Woken);
  }

  lemma TryKeepsInv(s: State, a: Action)
    requires Inv(s) && a.Try? && Enabled(s, a)
    ensures Inv(Step(s, a))
  {
  }

  lemma RoundTakes(s: State, t: Tid)
    requires Inv(s) && Enabled(s, Round(t)) && s.core.value > 0
    ensures Inv(Step(s, Round(t)))
  {
    var s' := Step(s, Round(t));
    assert InPhase(s'.threads, Woken) == InPhase(s.threads, Woken) - {t};
    assert s'.core.waiters == s.core.waiters;
  }

  lemma RoundQueues(s: State, t: Tid)
    requires Inv(s) && Enabled(s, Round(t)) && s.core.value <= 0
    ensures Inv(Step(s, Round(t)))
  {
    var s' := Step(s, Round(t));
    assert s'.core == Core(s.core.value, s.core.waiters + [t]);
    assert forall u :: u in s'.core.waiters <==> u in s.core.waiters || u == t;
    assert t !in s.core.waiters;
    OneMoreDistinct(s.core.waiters, t);
  }

  lemma OneMoreDistinct(s: seq<Tid>, t: Tid)
    requires Distinct(s) && t !in s
    ensures Distinct(s + [t])
  {
  }

  lemma StepKeepsInv(s: State, a: Action)
    requires Inv(s)
    ensures Inv(Step(s, a))
  {
    hide Inv, Wake;
    if Enabled(s, a) {
      match a
      case Enter(t) => EnterKeepsInv(s, t);
      case Try(_) => TryKeepsInv(s, a);
      case Round(t) => if s.core.value > 0 { RoundTakes(s, t); } else { RoundQueues(s, t); }
      case Signal => SignalKeepsInv(s, WokenBySignal(s.core));
      case SignalAll => SignalKeepsInv(s, WokenBySignalAll(s.core));
    }
  }

  lemma SignalKeepsInv(s: State, woken: seq<Tid>)
    requires Inv(s) && woken <= s.core.waiters
    requires s.core.value + 1 > 0 && s.core.waiters != [] ==> woken != []
    ensures Inv(Signalled(s, woken))
  {
    var s' := Signalled(s, woken);
    var rest := s.core.waiters[|woken|..];
    WakeSplits(s.core.waiters, woken);
    if woken != [] {
      WakeCounts(s.threads, woken);
    } else {
      assert InPhase(s'.threads, Woken) == InPhase(s.threads, Woken);
    }
  }

  lemma WakeSplits(waiters: seq<Tid>, woken: seq<Tid>)
    requires Distinct(waiters) && woken <= waiters
    ensures var rest := waiters[|woken|..];
      Distinct(rest) && forall t :: t in rest <==> t in waiters && t !in woken
  {
    var rest := waiters[|woken|..];
    assert waiters == woken + rest;
    forall t | t in woken ensures t !in rest {
      var i :| 0 <= i < |woken| && woken[i] == t;
      assert forall j :: 0 <= j < |rest| ==> rest[j] == waiters[|woken| + j];
    }
  }

  lemma WakeCounts(threads: map<Tid, Thread>, woken: seq<Tid>)
    requires woken != [] && woken[0] in threads && threads[woken[0]] == Blocked
    ensures |InPhase(Wake(threads, woken), Woken)| > |InPhase(threads, Woken)|
  {
    var before, after := InPhase(threads, Woken), InPhase(Wake(threads, woken), Woken);
    SubsetSize(before + {woken[0]}, after);
  }

  lemma {:induction false} RunKeepsInv(s: State, actions: seq<Action>)
    requires Inv(s)
    ensures Inv(Run(s, actions)) && Run(s, actions).init == s.init
    decreases |actions|
  {
    if actions != [] {
      StepKeepsInv(s, actions[0]);
      RunKeepsInv(Step(s, actions[0]), actions[1..]);
    }
  }

  /** In every run: no more units are taken than were there, and the value is never negative if it began so. */
  lemma UnitsConserved(init: int, tids: set<Tid>, actions: seq<Action>)
    ensures var s := Run(Initial(init, tids), actions);
      && s.core.value == init + s.signals - s.taken
      && (init >= 0 ==> s.core.value >= 0 && s.taken <= init + s.signals)
  {
    RunKeepsInv(Initial(init, tids), actions);
  }

  /** No lost wake-up: units and queued threads at the same time mean that at least as many woken threads
      are about to retry; once all of them have, a thread stays blocked only while there is no unit. */
  lemma NoLostWakeup(init: int, tids: set<Tid>, actions: seq<Action>)
    ensures var s := Run(Initial(init, tids), actions);
      && ((exists t :: t in s.threads && s.threads[t] == Blocked) ==> |InPhase(s.threads, Woken)| >= s.core.value)
      && (InPhase(s.threads, Woken) == {} && s.core.value > 0 ==> InPhase(s.threads, Blocked) == {})
  {
    var s := Run(Initial(init, tids), actions);
    RunKeepsInv(Initial(init, tids), actions);
    if InPhase(s.threads, Blocked) != {} {
      var t :| t in InPhase(s.threads, Blocked);
      assert t in s.core.waiters;
    }
  }

  /** Waking everyone admits one: from an exhausted semaphore, of all woken threads exactly the first to retry
      gets through, whoever that is, and the next one queues up again. */
  lemma SignalAllAdmitsOne(s: State, t: Tid, u: Tid)
    requires Inv(s) && s.core.value == 0 && t in s.core.waiters && u in s.core.waiters && t != u
    ensures var r := Step(Step(Step(s, SignalAll), Round(t)), Round(u));
      r.threads[t] == Outside && r.threads[u] == Blocked && r.core == Core(0, [u])
  {
    var s1 := Step(s, SignalAll);
    assert s1.core == Core(1, []);
    var s2 := Step(s1, Round(t));
    assert s2.core == Core(0, []);
  }

  // ----- who is woken -----

  /** The threads with the moments at which they last came to be blocked. */
  datatype Timed = Timed(s: State, since: map<Tid, nat>, now: nat)

  predicate BlockedIn(s: State, t: Tid) {
    t in s.threads && s.threads[t] == Blocked
  }

  function TimedStart(init: int, tids: set<Tid>): Timed {
    Timed(Initial(init, tids), map t | t in tids :: 0, 0)
  }

  function TimedStep(ts: Timed, a: Action): Timed {
    var after := Step(ts.s, a);
    Timed(after,
          map t | t in ts.since ::
            if BlockedIn(after, t) && !BlockedIn(ts.s, t) then ts.now else if t in ts.since then ts.since[t] else 0,
          ts.now + 1)
  }

  function TimedRun(ts: Timed, actions: seq<Action>): Timed
    decreases |actions|
  {
    if actions == [] then ts else TimedRun(TimedStep(ts, actions[0]), actions[1..])
  }

  /** Blocked threads are queued in the order in which they came to be blocked. */
  ghost predicate InOrder(ts: Timed) {
    Inv(ts.s) && ts.since.Keys == ts.s.threads.Keys && Queued(ts, ts.s.core.waiters)
  }

  ghost predicate Queued(ts: Timed, w: seq<Tid>) {
    && (forall i :: 0 <= i < |w| ==> Since(ts, w[i]) < ts.now)
    && forall i, j :: 0 <= i < j < |w| ==> Since(ts, w[i]) < Since(ts, w[j])
  }

  function Since(ts: Timed, t: Tid): nat {
    if t in ts.since then ts.since[t] else 0
  }

  lemma StepThreads(s: State, a: Action)
    ensures Step(s, a).threads.Keys == s.threads.Keys
  {
  }

  lemma WaitersAfter(ts: Timed, a: Action)
    requires InOrder(ts)
    ensures var w, w' := ts.s.core.waiters, Step(ts.s, a).core.waiters;
      || (|w'| <= |w| && w' == w[|w| - |w'|..])
      || (a.Round? && w' == w + [a.t] && !BlockedIn(ts.s, a.t))
  {
    var w := ts.s.core.waiters;
    if Enabled(ts.s, a) && a.Round? && ts.s.core.value <= 0 {
      assert a.t !in w;
    }
  }

  lemma SinceAfter(ts: Timed, a: Action, t: Tid)
    requires InOrder(ts) && BlockedIn(Step(ts.s, a), t)
    ensures Since(TimedStep(ts, a), t) == if BlockedIn(ts.s, t) then Since(ts, t) else ts.now
  {
    StepThreads(ts.s, a);
    hide Step;
  }

  lemma StillQueued(ts: Timed, after: Timed, w: seq<Tid>, k: nat)
    requires Queued(ts, w) && k <= |w| && ts.now <= after.now
    requires forall t :: t in w[k..] ==> Since(after, t) == Since(ts, t)
    ensures Queued(after, w[k..])
  {
    hide Since;
    var rest := w[k..];
    assert forall i :: 0 <= i < |rest| ==> rest[i] == w[k + i] && rest[i] in rest;
  }

  lemma OneMoreQueued(after: Timed, w: seq<Tid>, t: Tid, now: nat)
    requires Queued(after, w) && Since(after, t) == now < after.now
    requires forall i :: 0 <= i < |w| ==> Since(after, w[i]) < now
    ensures Queued(after, w + [t])
  {
    hide Since;
  }

  lemma StepInOrder(ts: Timed, a: Action)
    requires InOrder(ts)
    ensures InOrder(TimedStep(ts, a))
  {
    hide Step, Since, Enabled;
    var after := TimedStep(ts, a);
    var w, w' := ts.s.core.waiters, after.s.core.waiters;
    StepKeepsInv(ts.s, a);
    StepThreads(ts.s, a);
    WaitersAfter(ts, a);
    forall t | t in w' ensures Since(after, t) == if BlockedIn(ts.s, t) then Since(ts, t) else ts.now {
      SinceAfter(ts, a, t);
    }
    if |w'| <= |w| && w' == w[|w| - |w'|..] {
      assert forall t :: t in w' ==> t in w;
      StillQueued(ts, after, w, |w| - |w'|);
    } else {
      assert w[0..] == w && forall t :: t in w ==> t in w';
      StillQueued(ts, after, w, 0);
      assert a.t in w';
      OneMoreQueued(after, w, a.t, ts.now);
    }
  }

  lemma {:induction false} RunInOrder(ts: Timed, actions: seq<Action>)
    requires InOrder(ts)
    ensures InOrder(TimedRun(ts, actions))
    decreases |actions|
  {
    if actions != [] {
      StepInOrder(ts, actions[0]);
      RunInOrder(TimedStep(ts, actions[0]), actions[1..]);
    }
  }

  /** First come, first woken, in every run: no thread is woken past one that has been blocked for longer. */
  lemma FirstComeFirstWoken(init: int, tids: set<Tid>, actions: seq<Action>, a: Action, t: Tid, u: Tid)
    ensures var ts := TimedRun(TimedStart(init, tids), actions); var after := Step(ts.s, a);
      BlockedIn(ts.s, t) && BlockedIn(ts.s, u) && Since(ts, t) < Since(ts, u) && !BlockedIn(after, u) ==>
        !BlockedIn(after, t)
  {
    var ts := TimedRun(TimedStart(init, tids), actions);
    RunInOrder(TimedStart(init, tids), actions);
    hide TimedRun, TimedStart, Since;
    if BlockedIn(ts.s, t) && BlockedIn(ts.s, u) && Since(ts, t) < Since(ts, u) {
      var w := ts.s.core.waiters;
      var i :| 0 <= i < |w| && w[i] == t;
      var j :| 0 <= j < |w| && w[j] == u;
      assert i < j;
      WokenInFront(ts.s, a, i, j);
    }
  }

  lemma WokenInFront(s: State, a: Action, i: nat, j: nat)
    requires Inv(s) && i < j < |s.core.waiters|
    ensures !BlockedIn(Step(s, a), s.core.waiters[j]) ==> !BlockedIn(Step(s, a), s.core.waiters[i])
  {
    var t, u := s.core.waiters[i], s.core.waiters[j];
    assert t in s.core.waiters && u in s.core.waiters;
    if Enabled(s, a) && a.SignalAll? { assert t in s.core.waiters; }
  }

  /** A signal that may admit someone wakes exactly the thread that has been blocked for longest, if there is one. */
  lemma SignalWakesLongest(init: int, tids: set<Tid>, actions: seq<Action>, t: Tid)
    ensures var ts := TimedRun(TimedStart(init, tids), actions); var after := Step(ts.s, Signal);
      BlockedIn(ts.s, t) ==>
        (!BlockedIn(after, t) <==>
         ts.s.core.value >= 0 && forall u :: BlockedIn(ts.s, u) ==> Since(ts, t) <= Since(ts, u))
  {
    var ts := TimedRun(TimedStart(init, tids), actions);
    RunInOrder(TimedStart(init, tids), actions);
    if BlockedIn(ts.s, t) {
      var w := ts.s.core.waiters;
      var i :| 0 <= i < |w| && w[i] == t;
      forall u | BlockedIn(ts.s, u) ensures i == 0 ==> Since(ts, t) <= Since(ts, u) {
        var j :| 0 <= j < |w| && w[j] == u;
      }
      assert w[0] in w && BlockedIn(ts.s, w[0]);
    }
  }

  /** Signalling all wakes every blocked thread once the count is no longer negative, and only then. */
  lemma SignalAllWakesAll(s: State, t: Tid)
    requires Inv(s) && BlockedIn(s, t)
    ensures !BlockedIn(Step(s, SignalAll), t) <==> s.core.value >= 0
  {
  }
}
