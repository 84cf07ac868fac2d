/** Which works an interrupt can come back to while their handler runs. Works flagged NX_IRQ_WORK_NOREENTER are meant
    not to be, but their check only leaves interrupts as they are. */
module DelayReenter {
  import opened DelayIrq

  /** For each activation, whether it has in this pass finished a work without the flag, which leaves interrupts
      off. */
  type History = seq<bool>

  predicate InQueue(s: State, queue: nat, pos: nat) {
    queue < |s.queues| && pos < |s.queues[queue]|
  }

  /** The history after one step of the running check. */
  function AfterCheck(s: State, h: History): History
    requires s.frames != [] && |h| == |s.frames|
  {
    var f, top := Top(s), |h| - 1;
    match f.phase
    case LoopTop => if f.times == 0 || s.event == {} then h[..top] else h[top := false]
    case Handling(_, queue, pos) =>
      if InQueue(s, queue, pos) then h[top := h[top] || s.queues[queue][pos] !in s.noReenter] else h
    case _ => h
  }

  function After(s: State, h: History, a: Action): History
    requires |h| == |s.frames|
  {
    match a
    case Interrupt(_) => if s.enabled then h + [false] else h
    case Advance => if s.frames == [] then h else AfterCheck(s, h)
    case _ => h
  }

  /** Whether interrupts are on while the activation runs. */
  predicate Interruptible(s: State, f: Frame, ran: bool) {
    match f.phase
    case LoopTop => false
    case Scanning(_, _, _) => !ran
    case Starting(_, queue, pos) => InQueue(s, queue, pos) && (!ran || s.queues[queue][pos] !in s.noReenter)
    case Handling(_, queue, pos) => InQueue(s, queue, pos) && (!ran || s.queues[queue][pos] !in s.noReenter)
  }

  predicate InPlace(s: State, f: Frame) {
    match f.phase
    case Starting(_, queue, pos) => InQueue(s, queue, pos)
    case Handling(_, queue, pos) => InQueue(s, queue, pos)
    case _ => true
  }

  /** All but the running activation have been interrupted; whether it can be is told by its history. */
  ghost predicate Recorded(s: State, h: History) {
    && |h| == |s.frames|
    && (forall k :: 0 <= k < |h| ==> InPlace(s, s.frames[k]))
    && (forall k :: 0 <= k < |h| - 1 ==> Interruptible(s, s.frames[k], h[k]))
    && (s.enabled <==> s.frames == [] || Interruptible(s, Top(s), h[|h| - 1]))
  }

  /** Queues only grow at their ends, so nothing that is under way changes places. */
  ghost predicate SamePlaces(s: State, t: State) {
    && t.noReenter == s.noReenter && |t.queues| == |s.queues|
    && forall q :: 0 <= q < |s.queues| ==> s.queues[q] <= t.queues[q]
  }

  lemma SameInterruptible(s: State, t: State, f: Frame, ran: bool)
    requires SamePlaces(s, t) && InPlace(s, f)
    ensures InPlace(t, f) && Interruptible(t, f, ran) == Interruptible(s, f, ran)
  {
  }

  lemma SameRecorded(s: State, t: State, h: History)
    requires Recorded(s, h) && SamePlaces(s, t) && t.frames == s.frames && t.enabled == s.enabled
    ensures Recorded(t, h)
  {
    forall k | 0 <= k < |h| ensures InPlace(t, s.frames[k])
      && Interruptible(t, s.frames[k], h[k]) == Interruptible(s, s.frames[k], h[k])
    {
      SameInterruptible(s, t, s.frames[k], h[k]);
    }
  }

  lemma {:induction false} HandleAllSame(s: State, ws: seq<Work>)
    ensures var t := HandleAll(s, ws);
      && t.queues == s.queues && t.noReenter == s.noReenter && t.frames == s.frames && t.enabled == s.enabled
    decreases |ws|
  {
    if ws != [] {
      HandleAllSame(Handle(s, ws[0]), ws[1..]);
    }
  }

  lemma CheckRecorded(s: State, h: History)
    requires Recorded(s, h) && s.frames != []
    ensures Recorded(Check(s), AfterCheck(s, h))
  {
    var t, g := Check(s), AfterCheck(s, h);
    forall k | 0 <= k < |h| - 1 ensures InPlace(t, s.frames[k]) && Interruptible(t, s.frames[k], h[k]) {
      SameInterruptible(s, t, s.frames[k], h[k]);
    }
    assert |g| == |t.frames|;
  }

  lemma StepRecorded(s: State, h: History, a: Action)
    requires Recorded(s, h)
    ensures Recorded(Step(s, a), After(s, h, a))
  {
    match a
    case Interrupt(ws) =>
      if s.enabled {
        HandleAllSame(s, ws);
        SameRecorded(s, HandleAll(s, ws), h);
      }
    case Raise(w) =>
      HandleAllSame(s, [w]);
      SameRecorded(s, Step(s, a), h);
    case Advance => if s.frames != [] { CheckRecorded(s, h); }
    case EnterQueue(_, _) => SameRecorded(s, Step(s, a), h);
    case LeaveQueue(_, _) =>
  }

  function RunHistory(s: State, h: History, actions: seq<Action>): History
    requires |h| == |s.frames|
    decreases |actions|
  {
    if actions == [] then h
    else
      var (t, g) := (Step(s, actions[0]), After(s, h, actions[0]));
      if |g| == |t.frames| then RunHistory(t, g, actions[1..]) else h
  }

  lemma {:induction false} RunRecorded(s: State, h: History, actions: seq<Action>)
    requires Recorded(s, h)
    ensures Recorded(Run(s, actions), RunHistory(s, h, actions))
    decreases |actions|
  {
    if actions != [] {
      StepRecorded(s, h, actions[0]);
      RunRecorded(Step(s, actions[0]), After(s, h, actions[0]), actions[1..]);
    }
  }

  /** Exactly when the handler of a flagged work can be interrupted, and so re-entered: when no work without the flag
      has been finished before it in the pass. The first work of a pass always can. */
  lemma FlaggedInterruptible(noReenter: set<Work>, actions: seq<Action>)
    ensures var s, h := Run(Initial(noReenter), actions), RunHistory(Initial(noReenter), [], actions);
      && |h| == |s.frames|
      && (s.frames != [] && Top(s).phase.Handling? ==>
            var (queue, pos) := (Top(s).phase.queue, Top(s).phase.pos);
            && InQueue(s, queue, pos)
            && (s.enabled <==> s.queues[queue][pos] in s.noReenter ==> !h[|h| - 1]))
  {
    RunRecorded(Initial(noReenter), [], actions);
  }

  lemma RunStep(s: State, a: Action, rest: seq<Action>)
    ensures Run(s, [a] + rest) == Run(Step(s, a), rest)
  {
    assert ([a] + rest)[1..] == rest;
  }

  /** An interrupt that raises the work, the check's entry into its handler: three steps on. */
  lemma IntoHandler(s: State)
    requires s.queues != [] && s.queues[0] == [7] && s.enabled && s.event == {} && 7 !in s.pending
    ensures var t := Run(s, [Interrupt([7]), Advance, Advance, Advance]);
      t == State(s.queues, s.noReenter, {}, s.pending, true,
                 s.frames + [Frame(CHECK_TIMES - 1, Handling({0}, 0, 0))], s.owed - {7})
  {
    hide Run;
    assert [Interrupt([7]), Advance, Advance, Advance] == [Interrupt([7])] + [Advance, Advance, Advance];
    assert [Advance, Advance, Advance] == [Advance] + [Advance, Advance];
    assert [Advance, Advance] == [Advance] + [Advance] && [Advance] == [Advance] + [];
    RunStep(s, Interrupt([7]), [Advance, Advance, Advance]);
    var t1 := Step(s, Interrupt([7]));
    assert [7][1..] == [] && QueueOf(s.queues, 7, 0) == 0;
    assert HandleAll(s, [7]) == HandleAll(Handle(s, 7), []) == Handle(s, 7);
    assert t1 == State(s.queues, s.noReenter, {0}, s.pending + {7}, false,
                       s.frames + [Frame(CHECK_TIMES, LoopTop)], s.owed + {7});
    RunStep(t1, Advance, [Advance, Advance]);
    var t2 := Step(t1, Advance);
    assert t2 == t1.(event := {}, enabled := true, frames := s.frames + [Frame(CHECK_TIMES - 1, Scanning({0}, 0, 0))]);
    RunStep(t2, Advance, [Advance]);
    var t3 := Step(t2, Advance);
    assert t3 == t2.(pending := s.pending, frames := s.frames + [Frame(CHECK_TIMES - 1, Starting({0}, 0, 0))]);
    RunStep(t3, Advance, []);
    var t4 := Step(t3, Advance);
    assert t4 == t3.(owed := s.owed - {7}, frames := s.frames + [Frame(CHECK_TIMES - 1, Handling({0}, 0, 0))]);
    RunNone(t4);
  }

  lemma RunNone(s: State)
    ensures Run(s, []) == s
  {
  }

  lemma {:induction false} RunAppend(s: State, a: seq<Action>, b: seq<Action>)
    ensures Run(s, a + b) == Run(Run(s, a), b)
    decreases |a|
  {
    if a == [] {
      assert a + b == b;
    } else {
      RunAppend(Step(s, a[0]), a[1..], b);
      assert a + b == [a[0]] + (a[1..] + b);
      RunStep(s, a[0], a[1..] + b);
    }
  }

  /** A flagged work inside its own handler: it is the first of its pass, and the interrupt raises it again. */
  lemma FlaggedReentered()
    ensures var raised := [Interrupt([7]), Advance, Advance, Advance];
      var s := Run(Initial({7}), [EnterQueue(0, 7)] + raised + raised);
      && 7 in s.noReenter && |s.queues| > 0 && s.queues[0] == [7] && |s.frames| == 2
      && s.frames[0].phase == Handling({0}, 0, 0) && s.frames[1].phase == Handling({0}, 0, 0)
  {
    hide Run;
    var raised := [Interrupt([7]), Advance, Advance, Advance];
    var s := Step(Initial({7}), EnterQueue(0, 7));
    assert s.queues[0] == [7];
    assert [EnterQueue(0, 7)] + raised + raised == [EnterQueue(0, 7)] + (raised + raised);
    RunStep(Initial({7}), EnterQueue(0, 7), raised + raised);
    RunAppend(s, raised, raised);
    IntoHandler(s);
    IntoHandler(Run(s, raised));
  }
}
