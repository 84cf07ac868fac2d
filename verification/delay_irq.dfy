/** Delayed interrupt work: works marked pending by interrupt handlers and run by a scan that is itself
    interrupted, nested to any depth. No raised work is ever lost. */
module DelayIrq {

  const QUEUES: nat := 5      // NX_IRQ_QUEUE_NR
  const CHECK_TIMES: nat := 5 // NX_IRQ_DELAY_WORK_CHECK_TIMES

  type Work = nat

  /** Where one activation of NX_IRQ_DelayQueueCheck stands. */
  datatype Phase =
    | LoopTop                                                  // interrupts off, about to fetch the event word
    | Scanning(events: set<nat>, queue: nat, pos: nat)         // about to look at position pos of the queue
    | Starting(events: set<nat>, queue: nat, pos: nat)         // pending flag cleared, handler not yet entered
    | Handling(events: set<nat>, queue: nat, pos: nat)         // inside the work's handler

  datatype Frame = Frame(times: nat, phase: Phase)

  /** `frames` is the stack of activations, the running one last; `owed` are the works raised since their
      handler was last entered. */
  datatype State = State(
    queues: seq<seq<Work>>,
    noReenter: set<Work>,
    event: set<nat>,
    pending: set<Work>,
    enabled: bool,
    frames: seq<Frame>,
    owed: set<Work>)

  datatype Action =
    | Interrupt(raised: seq<Work>) // a handler raises works, then checks the queues on the way out
    | Raise(w: Work)               // NX_IRQ_DelayWorkHandle from code that runs with interrupts off
    | Advance                      // the running check takes its next step
    | EnterQueue(queue: nat, w: Work)
    | LeaveQueue(queue: nat, w: Work)

  /** Nothing queued or raised. NX_IRQ_DelayWorkInit clears the flag of `noReenter`, a work set up by hand may
      have it. */
  function Initial(noReenter: set<Work>): State {
    State(seq(QUEUES, q => []), noReenter, {}, {}, true, [], {})
  }

  predicate Queued(queues: seq<seq<Work>>, w: Work) {
    exists q :: 0 <= q < |queues| && w in queues[q]
  }

  function QueueOf(queues: seq<seq<Work>>, w: Work, from: nat): nat
    requires from <= |queues|
    decreases |queues| - from
  {
    if from == |queues| || w in queues[from] then from else QueueOf(queues, w, from + 1)
  }

  /** NX_IRQ_DelayWorkHandle: refused for a work that is on no queue. */
  function Handle(s: State, w: Work): State {
    var q := QueueOf(s.queues, w, 0);
    if q == |s.queues| then s
    else s.(event := s.event + {q}, pending := s.pending + {w}, owed := s.owed + {w})
  }

  function HandleAll(s: State, ws: seq<Work>): State
    decreases |ws|
  {
    if ws == [] then s else HandleAll(Handle(s, ws[0]), ws[1..])
  }

  function Top(s: State): Frame
    requires s.frames != []
  {
    s.frames[|s.frames| - 1]
  }

  function WithTop(s: State, f: Frame): State
    requires s.frames != []
  {
    s.(frames := s.frames[|s.frames| - 1 := f])
  }

  /** The check returns, and so does the interrupt it ended, which turns interrupts on again. */
  function Return(s: State): State
    requires s.frames != []
  {
    s.(frames := s.frames[..|s.frames| - 1], enabled := true)
  }

  /** One step of the running check. */
  function Check(s: State): State
    requires s.frames != []
  {
    var f := Top(s);
    match f.phase
    case LoopTop =>
      if f.times == 0 then Return(s)
      else if s.event == {} then Return(s)
      else WithTop(s, Frame(f.times - 1, Scanning(s.event, 0, 0))).(event := {}, enabled := true)
    case Scanning(events, queue, pos) =>
      if queue >= |s.queues| then WithTop(s, f.(phase := LoopTop)).(enabled := false)
      else if queue !in events || pos >= |s.queues[queue]| then WithTop(s, f.(phase := Scanning(events, queue + 1, 0)))
      else
        var w := s.queues[queue][pos];
        if w !in s.pending then WithTop(s, f.(phase := Scanning(events, queue, pos + 1)))
        else WithTop(s, f.(phase := Starting(events, queue, pos))).(
               pending := s.pending - {w}, enabled := s.enabled || w !in s.noReenter)
    case Starting(events, queue, pos) =>
      if queue >= |s.queues| || pos >= |s.queues[queue]| then s
      else WithTop(s, f.(phase := Handling(events, queue, pos))).(owed := s.owed - {s.queues[queue][pos]})
    case Handling(events, queue, pos) =>
      if queue >= |s.queues| || pos >= |s.queues[queue]| then s
      else WithTop(s, f.(phase := Scanning(events, queue, pos + 1))).(
             enabled := s.enabled && s.queues[queue][pos] in s.noReenter)
  }

  function Without(s: seq<Work>, w: Work): seq<Work> {
    if s == [] then [] else if s[0] == w then s[1..] else [s[0]] + Without(s[1..], w)
  }

  /** Works are queued when on no queue, and taken off only while no check runs and they are not pending. */
  function Step(s: State, a: Action): State {
    match a
    case Interrupt(ws) =>
      if !s.enabled then s
      else
        var h := HandleAll(s, ws);
        h.(frames := h.frames + [Frame(CHECK_TIMES, LoopTop)], enabled := false)
    case Raise(w) => Handle(s, w)
    case Advance => if s.frames == [] then s else Check(s)
    case EnterQueue(q, w) =>
      if q >= |s.queues| || Queued(s.queues, w) then s else s.(queues := s.queues[q := s.queues[q] + [w]])
    case LeaveQueue(q, w) =>
      if q >= |s.queues| || w !in s.queues[q] || s.frames != [] || w in s.pending then s
      else s.(queues := s.queues[q := Without(s.queues[q], w)])
  }

  function Run(s: State, actions: seq<Action>): State
    decreases |actions|
  {
    if actions == [] then s else Run(Step(s, actions[0]), actions[1..])
  }

  // ----- the invariant -----

  /** Position (q, i) lies ahead of an activation: it will still be looked at in this pass. */
  predicate Ahead(f: Frame, q: nat, i: nat) {
    match f.phase
    case LoopTop => false
    case Scanning(events, queue, pos) => q in events && (q > queue || (q == queue && i >= pos))
    case Starting(events, queue, pos) => q in events && (q > queue || (q == queue && i > pos))
    case Handling(events, queue, pos) => q in events && (q > queue || (q == queue && i > pos))
  }

  ghost predicate AheadOfSome(s: State, q: nat, i: nat) {
    exists k :: 0 <= k < |s.frames| && Ahead(s.frames[k], q, i)
  }

  /** A pending work is queued; its queue's event bit is set, or it is still ahead of a running pass. */
  ghost predicate WillBeFound(s: State, w: Work) {
    exists q: nat, i: nat :: q < |s.queues| && i < |s.queues[q]| && s.queues[q][i] == w
      && (q in s.event || AheadOfSome(s, q, i))
  }

  /** The work at (queue, pos) of some activation has had its flag cleared and is about to be entered. */
  ghost predicate AboutToStart(s: State, w: Work) {
    exists k :: 0 <= k < |s.frames| && StartsWork(s, s.frames[k], w)
  }

  predicate StartsWork(s: State, f: Frame, w: Work) {
    f.phase.Starting? && f.phase.queue < |s.queues| && f.phase.pos < |s.queues[f.phase.queue]|
    && s.queues[f.phase.queue][f.phase.pos] == w
  }

  ghost predicate Inv(s: State) {
    && (forall w :: w in s.pending ==> WillBeFound(s, w))
    && (forall w :: w in s.owed ==> w in s.pending || AboutToStart(s, w))
  }

  // ----- every step keeps it -----

  /** What finds the works of s still finds them in t. */
  ghost predicate Finds(s: State, t: State) {
    && |s.queues| == |t.queues|
    && (forall q: nat, i: nat :: q < |s.queues| && i < |s.queues[q]| ==>
          i < |t.queues[q]| && t.queues[q][i] == s.queues[q][i])
  }

  lemma StillFound(s: State, t: State, w: Work)
    requires WillBeFound(s, w) && Finds(s, t)
    requires forall q: nat, i: nat | q < |s.queues| && i < |s.queues[q]| && s.queues[q][i] == w ::
      q in s.event || AheadOfSome(s, q, i) ==> q in t.event || AheadOfSome(t, q, i)
    ensures WillBeFound(t, w)
  {
    var q: nat, i: nat :| q < |s.queues| && i < |s.queues[q]| && s.queues[q][i] == w
      && (q in s.event || AheadOfSome(s, q, i));
    assert t.queues[q][i] == w;
  }

  lemma SameFrames(s: State, t: State)
    requires s.frames == t.frames
    ensures forall q: nat, i: nat :: AheadOfSome(t, q, i) == AheadOfSome(s, q, i)
    ensures Finds(s, t) ==> forall w :: AboutToStart(s, w) ==> AboutToStart(t, w)
  {
    if Finds(s, t) {
      forall w | AboutToStart(s, w) ensures AboutToStart(t, w) {
        var k :| 0 <= k < |s.frames| && StartsWork(s, s.frames[k], w);
        assert StartsWork(t, t.frames[k], w);
      }
    }
  }

  lemma {:induction false} QueueOfFinds(queues: seq<seq<Work>>, w: Work, from: nat)
    requires from <= |queues|
    ensures var q := QueueOf(queues, w, from); from <= q <= |queues| && (q < |queues| ==> w in queues[q])
    decreases |queues| - from
  {
    if from < |queues| && w !in queues[from] { QueueOfFinds(queues, w, from + 1); }
  }

  lemma HandleKeepsInv(s: State, w: Work)
    requires Inv(s)
    ensures Inv(Handle(s, w)) && Handle(s, w).frames == s.frames && Handle(s, w).queues == s.queues
  {
    QueueOfFinds(s.queues, w, 0);
    var q, t := QueueOf(s.queues, w, 0), Handle(s, w);
    if q < |s.queues| {
      var i :| 0 <= i < |s.queues[q]| && s.queues[q][i] == w;
      SameFrames(s, t);
      forall v | v in t.pending ensures WillBeFound(t, v) {
        if v != w { StillFound(s, t, v); }
      }
    }
  }

  lemma {:induction false} HandleAllKeepsInv(s: State, ws: seq<Work>)
    requires Inv(s)
    ensures Inv(HandleAll(s, ws)) && HandleAll(s, ws).frames == s.frames && HandleAll(s, ws).queues == s.queues
    decreases |ws|
  {
    if ws != [] {
      HandleKeepsInv(s, ws[0]);
      HandleAllKeepsInv(Handle(s, ws[0]), ws[1..]);
    }
  }

  /** The invariant needs of a new top frame what it no longer gets from the old one. */
  lemma TopStepKeepsInv(s: State, t: State)
    requires Inv(s) && s.frames != [] && t.queues == s.queues
    requires |t.frames| == |s.frames| && t.frames[..|s.frames| - 1] == s.frames[..|s.frames| - 1]
    requires t.pending <= s.pending && t.owed <= s.owed
    requires forall q: nat, i: nat | q < |s.queues| && i < |s.queues[q]| && s.queues[q][i] in t.pending ::
      q in s.event || Ahead(Top(s), q, i) ==> q in t.event || Ahead(Top(t), q, i)
    requires forall w :: w in t.owed && (w in s.pending || StartsWork(s, Top(s), w)) ==>
      w in t.pending || StartsWork(t, Top(t), w)
    ensures Inv(t)
  {
    var n := |s.frames| - 1;
    assert forall k :: 0 <= k < n ==> t.frames[k] == t.frames[..n][k] == s.frames[..n][k] == s.frames[k];
    forall w | w in t.pending ensures WillBeFound(t, w) {
      TopStepFinds(s, t, w);
    }
    forall w | w in t.owed && w !in t.pending ensures AboutToStart(t, w) {
      if w in s.pending || StartsWork(s, Top(s), w) {
        assert StartsWork(t, t.frames[n], w);
      } else {
        var k :| 0 <= k < |s.frames| && StartsWork(s, s.frames[k], w);
        assert StartsWork(t, t.frames[k], w);
      }
    }
  }

  lemma TopStepFinds(s: State, t: State, w: Work)
    requires s.frames != [] && t.queues == s.queues && |t.frames| == |s.frames|
    requires forall k :: 0 <= k < |s.frames| - 1 ==> t.frames[k] == s.frames[k]
    requires forall q: nat, i: nat | q < |s.queues| && i < |s.queues[q]| && s.queues[q][i] in t.pending ::
      q in s.event || Ahead(Top(s), q, i) ==> q in t.event || Ahead(Top(t), q, i)
    requires w in t.pending && WillBeFound(s, w)
    ensures WillBeFound(t, w)
  {
    var q: nat, i: nat :| q < |s.queues| && i < |s.queues[q]| && s.queues[q][i] == w
      && (q in s.event || AheadOfSome(s, q, i));
    if q in s.event || Ahead(Top(s), q, i) {
      if q !in t.event { assert Ahead(t.frames[|t.frames| - 1], q, i); }
    } else {
      var k :| 0 <= k < |s.frames| && Ahead(s.frames[k], q, i);
      assert Ahead(t.frames[k], q, i);
    }
    assert q in t.event || AheadOfSome(t, q, i);
  }

  lemma ReturnKeepsInv(s: State)
    requires Inv(s) && s.frames != [] && Top(s).phase.LoopTop?
    ensures Inv(Return(s))
  {
    var t, n := Return(s), |s.frames| - 1;
    forall q: nat, i: nat | AheadOfSome(s, q, i) ensures AheadOfSome(t, q, i) {
      var k :| 0 <= k < |s.frames| && Ahead(s.frames[k], q, i);
      assert Ahead(t.frames[k], q, i);
    }
    forall w | w in t.pending ensures WillBeFound(t, w) { StillFound(s, t, w); }
    forall w | w in t.owed && w !in t.pending ensures AboutToStart(t, w) {
      var k :| 0 <= k < |s.frames| && StartsWork(s, s.frames[k], w);
      assert StartsWork(t, t.frames[k], w);
    }
  }

  lemma CheckKeepsInv(s: State)
    requires Inv(s) && s.frames != []
    ensures Inv(Check(s))
  {
    var f := Top(s);
    if f.phase.LoopTop? && (f.times == 0 || s.event == {}) {
      ReturnKeepsInv(s);
    } else {
      TopStepKeepsInv(s, Check(s));
    }
  }

  lemma InterruptKeepsInv(s: State, ws: seq<Work>)
    requires Inv(s)
    ensures Inv(Step(s, Interrupt(ws)))
  {
    if s.enabled {
      HandleAllKeepsInv(s, ws);
      var h := HandleAll(s, ws);
      var t := Step(s, Interrupt(ws));
      assert forall k :: 0 <= k < |h.frames| ==> t.frames[k] == h.frames[k];
      forall q: nat, i: nat | AheadOfSome(h, q, i) ensures AheadOfSome(t, q, i) {
        var k :| 0 <= k < |h.frames| && Ahead(h.frames[k], q, i);
        assert Ahead(t.frames[k], q, i);
      }
      forall w | w in t.pending ensures WillBeFound(t, w) { StillFound(h, t, w); }
      forall w | w in t.owed && w !in t.pending ensures AboutToStart(t, w) {
        var k :| 0 <= k < |h.frames| && StartsWork(h, h.frames[k], w);
        assert StartsWork(t, t.frames[k], w);
      }
    }
  }

  lemma EnterKeepsInv(s: State, q: nat, w: Work)
    requires Inv(s)
    ensures Inv(Step(s, EnterQueue(q, w)))
  {
    var t := Step(s, EnterQueue(q, w));
    SameFrames(s, t);
    forall v | v in t.pending ensures WillBeFound(t, v) { StillFound(s, t, v); }
  }

  lemma {:induction false} WithoutKeeps(s: seq<Work>, w: Work, v: Work)
    requires v in s && v != w
    ensures v in Without(s, w)
  {
    if s[0] != w && s[0] != v { WithoutKeeps(s[1..], w, v); }
  }

  lemma LeaveKeepsInv(s: State, q: nat, w: Work)
    requires Inv(s)
    ensures Inv(Step(s, LeaveQueue(q, w)))
  {
    var t := Step(s, LeaveQueue(q, w));
    forall v | v in t.pending ensures WillBeFound(t, v) {
      if t != s {
        var p: nat, i: nat :| p < |s.queues| && i < |s.queues[p]| && s.queues[p][i] == v
          && (p in s.event || AheadOfSome(s, p, i));
        assert p in s.event && v in s.queues[p];
        if p == q { WithoutKeeps(s.queues[q], w, v); }
        var j :| 0 <= j < |t.queues[p]| && t.queues[p][j] == v;
      }
    }
  }

  lemma StepKeepsInv(s: State, a: Action)
    requires Inv(s)
    ensures Inv(Step(s, a))
  {
    match a
    case Interrupt(ws) => InterruptKeepsInv(s, ws);
    case Raise(w) => HandleKeepsInv(s, w);
    case Advance => if s.frames != [] { CheckKeepsInv(s); }
    case EnterQueue(q, w) => EnterKeepsInv(s, q, w);
    case LeaveQueue(q, w) => LeaveKeepsInv(s, q, w);
  }

  lemma {:induction false} RunKeepsInv(s: State, actions: seq<Action>)
    requires Inv(s)
    ensures Inv(Run(s, actions))
    decreases |actions|
  {
    if actions != [] {
      StepKeepsInv(s, actions[0]);
      RunKeepsInv(Step(s, actions[0]), actions[1..]);
    }
  }

  /** A work whose handler has not been entered since it was raised is about to be, or is pending and will be
      found by a running pass or by the event word. */
  lemma NeverLost(noReenter: set<Work>, actions: seq<Action>, w: Work)
    ensures var s := Run(Initial(noReenter), actions);
      w in s.owed ==> AboutToStart(s, w) || (w in s.pending && WillBeFound(s, w))
  {
    RunKeepsInv(Initial(noReenter), actions);
  }

  /** When the outermost check has returned with the event word zero, no raised work is waiting. */
  lemma NothingPendingAtRest(noReenter: set<Work>, actions: seq<Action>)
    ensures var s := Run(Initial(noReenter), actions);
      s.frames == [] && s.event == {} ==> s.pending == {} && s.owed == {}
  {
    RunKeepsInv(Initial(noReenter), actions);
    var s := Run(Initial(noReenter), actions);
    if s.frames == [] && s.event == {} {
      assert forall w :: !WillBeFound(s, w);
    }
  }

  // ----- progress -----

  function Advances(n: nat): seq<Action> {
    if n == 0 then [] else [Advance] + Advances(n - 1)
  }

  lemma RunAdvance(s: State, n: nat)
    requires n > 0
    ensures Run(s, Advances(n)) == Run(Step(s, Advance), Advances(n - 1))
  {
    assert Advances(n)[1..] == Advances(n - 1);
  }

  /** One check is running, at a place in the queues. */
  predicate Alone(s: State) {
    |s.frames| == 1 &&
    match s.frames[0].phase
    case LoopTop => true
    case Scanning(_, queue, pos) => queue < |s.queues| ==> pos <= |s.queues[queue]|
    case Starting(_, queue, pos) => queue < |s.queues| && pos < |s.queues[queue]|
    case Handling(_, queue, pos) => queue < |s.queues| && pos < |s.queues[queue]|
  }

  function QueuesLeft(s: State): nat
    requires Alone(s)
  {
    match s.frames[0].phase
    case LoopTop => 0
    case Scanning(_, queue, _) => if queue < |s.queues| then |s.queues| + 1 - queue else 1
    case Starting(_, queue, _) => |s.queues| + 1 - queue
    case Handling(_, queue, _) => |s.queues| + 1 - queue
  }

  function WorksLeft(s: State): nat
    requires Alone(s)
  {
    match s.frames[0].phase
    case LoopTop => 0
    case Scanning(_, queue, pos) => if queue < |s.queues| then |s.queues[queue]| - pos else 0
    case Starting(_, queue, pos) => |s.queues[queue]| - pos
    case Handling(_, queue, pos) => |s.queues[queue]| - pos
  }

  function PhaseLeft(s: State): nat
    requires Alone(s)
  {
    match s.frames[0].phase
    case Starting(_, _, _) => 1
    case Handling(_, _, _) => 0
    case _ => 2
  }

  /** Another pass can begin, and ends with the event word zero. */
  predicate PassLeft(s: State)
    requires Alone(s)
  {
    s.event == {} || (s.frames[0].times > 0 && s.frames[0].phase.LoopTop?)
  }

  lemma AdvanceAlone(s: State)
    requires Alone(s) && PassLeft(s) && !(s.frames[0].phase.LoopTop? && s.event == {})
    ensures var t := Step(s, Advance);
      && Alone(t) && PassLeft(t) && t.queues == s.queues
      && (|t.event| < |s.event| || (t.event == s.event &&
            (QueuesLeft(t) < QueuesLeft(s) || (QueuesLeft(t) == QueuesLeft(s) &&
              (WorksLeft(t) < WorksLeft(s) || (WorksLeft(t) == WorksLeft(s) && PhaseLeft(t) < PhaseLeft(s)))))))
  {
    if s.event != {} { assert |s.event| > 0; }
  }

  /** A check that nothing interrupts returns, with the event word zero. */
  lemma {:induction false} CheckReturns(s: State) returns (n: nat)
    requires Alone(s) && PassLeft(s)
    ensures var t := Run(s, Advances(n)); t.frames == [] && t.event == {} && t.enabled && t.queues == s.queues
    decreases |s.event|, QueuesLeft(s), WorksLeft(s), PhaseLeft(s)
  {
    hide Run, Advances;
    if s.frames[0].phase.LoopTop? && s.event == {} {
      n := 1;
      RunAdvance(s, 1);
      RunNothing(Step(s, Advance));
    } else {
      AdvanceAlone(s);
      var m := CheckReturns(Step(s, Advance));
      n := m + 1;
      RunAdvance(s, n);
    }
  }

  lemma RunNothing(s: State)
    ensures Advances(0) == [] && Run(s, []) == s
  {
  }

  /** Whatever is raised when nothing runs is run by the check that follows, if nothing interrupts it. */
  lemma RaisedWorksRun(s: State, raised: seq<Work>) returns (n: nat)
    requires Inv(s) && s.frames == [] && s.enabled
    ensures var t := Run(Step(s, Interrupt(raised)), Advances(n));
      t.frames == [] && t.pending == {} && t.owed == {} && t.queues == s.queues
  {
    var t := Step(s, Interrupt(raised));
    HandleAllKeepsQueues(s, raised);
    assert Alone(t) && PassLeft(t);
    n := CheckReturns(t);
    StepKeepsInv(s, Interrupt(raised));
    RunKeepsInv(t, Advances(n));
    hide Run, Step;
    var last := Run(t, Advances(n));
    assert forall w :: !WillBeFound(last, w);
  }

  lemma {:induction false} HandleAllKeepsQueues(s: State, ws: seq<Work>)
    ensures HandleAll(s, ws).queues == s.queues && HandleAll(s, ws).frames == s.frames
    decreases |ws|
  {
    if ws != [] {
      HandleAllKeepsQueues(Handle(s, ws[0]), ws[1..]);
    }
  }

  /** What an interrupt raises becomes pending exactly if it is on a queue. */
  lemma {:induction false} RaisedArePending(s: State, ws: seq<Work>, w: Work)
    ensures w in HandleAll(s, ws).pending <==> w in s.pending || (w in ws && Queued(s.queues, w))
    decreases |ws|
  {
    if ws != [] {
      OnQueue(s.queues, ws[0], 0);
      RaisedArePending(Handle(s, ws[0]), ws[1..], w);
      assert w in ws <==> w == ws[0] || w in ws[1..];
    }
  }

  lemma {:induction false} OnQueue(queues: seq<seq<Work>>, w: Work, from: nat)
    requires from <= |queues|
    ensures QueueOf(queues, w, from) <= |queues|
    ensures QueueOf(queues, w, from) < |queues| <==> exists q :: from <= q < |queues| && w in queues[q]
    ensures from == 0 ==> (QueueOf(queues, w, 0) < |queues| <==> Queued(queues, w))
    decreases |queues| - from
  {
    if from < |queues| { OnQueue(queues, w, from + 1); }
  }
}
