/** The bounded byte queue: a circular buffer between two counting semaphores and a mutex, in every
    interleaving of any number of getting and putting threads. */
module IoQueue {
  import opened Sets

  type Tid = nat

  datatype Option<T> = None | Some(value: T)

  /** Where a thread stands in NX_IoQueueGet or NX_IoQueuePut. */
  datatype Pc =
    | Idle
    | GetToken                // full was waited for
    | GetLocked
    | GetRead(data: int)      // byte read, getIndex advanced
    | GetWrapped(data: int)   // getIndex reduced modulo the length
    | GetUnlocked(data: int)
    | PutToken(data: int)     // empty was waited for
    | PutLocked(data: int)
    | PutStored               // byte stored, putIndex advanced
    | PutWrapped
    | PutUnlocked

  /** The queue and its semaphores, the threads, and the bytes stored and taken so far. */
  datatype State = State(
    buf: seq<int>, getIndex: nat, putIndex: nat,
    mutex: nat, full: nat, empty: nat,
    pcs: map<Tid, Pc>,
    puts: seq<int>, gets: seq<int>)

  datatype Action = StartGet(t: Tid) | StartPut(t: Tid, data: int) | Advance(t: Tid)

  function Initial(buf: seq<int>, tids: set<Tid>): State
    requires buf != []
  {
    State(buf, 0, 0, 1, 0, |buf|, map t | t in tids :: Idle, [], [])
  }

  function At(s: State, t: Tid, pc: Pc): State {
    s.(pcs := s.pcs[t := pc])
  }

  /** One atomic action; None when it cannot be taken: a wait on an exhausted semaphore blocks (the try
      forms return instead, which changes nothing either). */
  function Step(s: State, a: Action): Option<State> {
    if a.t !in s.pcs then None else
    match (a, s.pcs[a.t])
    case (StartGet(t), Idle) => if s.full > 0 then Some(At(s, t, GetToken).(full := s.full - 1)) else None
    case (StartPut(t, data), Idle) => if s.empty > 0 then Some(At(s, t, PutToken(data)).(empty := s.empty - 1))
      else None
    case (Advance(t), GetToken) => if s.mutex > 0 then Some(At(s, t, GetLocked).(mutex := s.mutex - 1)) else None
    case (Advance(t), GetLocked) =>
      if s.getIndex < |s.buf| then
        var data := s.buf[s.getIndex];
        Some(At(s, t, GetRead(data)).(getIndex := s.getIndex + 1, gets := s.gets + [data]))
      else None
    case (Advance(t), GetRead(data)) =>
      if |s.buf| > 0 then Some(At(s, t, GetWrapped(data)).(getIndex := s.getIndex % |s.buf|)) else None
    case (Advance(t), GetWrapped(data)) => Some(At(s, t, GetUnlocked(data)).(mutex := s.mutex + 1))
    case (Advance(t), GetUnlocked(data)) => Some(At(s, t, Idle).(empty := s.empty + 1))
    case (Advance(t), PutToken(data)) => if s.mutex > 0 then Some(At(s, t, PutLocked(data)).(mutex := s.mutex - 1))
      else None
    case (Advance(t), PutLocked(data)) =>
      if s.putIndex < |s.buf| then
        Some(At(s, t, PutStored).(buf := s.buf[s.putIndex := data], putIndex := s.putIndex + 1,
          puts := s.puts + [data]))
      else None
    case (Advance(t), PutStored) =>
      if |s.buf| > 0 then Some(At(s, t, PutWrapped).(putIndex := s.putIndex % |s.buf|)) else None
    case (Advance(t), PutWrapped) => Some(At(s, t, PutUnlocked).(mutex := s.mutex + 1))
    case (Advance(t), PutUnlocked) => Some(At(s, t, Idle).(full := s.full + 1))
    case _ => None
  }

  function Run(s: State, actions: seq<Action>): State
    decreases |actions|
  {
    if actions == [] then s
    else
      var r := Step(s, actions[0]);
      Run(if r.Some? then r.value else s, actions[1..])
  }

  // ----- counting threads -----

  datatype Role = Neither | Taking | Taken | Storing | Stored

  /** Taking and Storing hold a token not yet used, Taken and Stored owe one to the other side. */
  function RoleOf(pc: Pc): Role {
    match pc
    case Idle => Neither
    case GetToken | GetLocked => Taking
    case GetRead(_) | GetWrapped(_) | GetUnlocked(_) => Taken
    case PutToken(_) | PutLocked(_) => Storing
    case PutStored | PutWrapped | PutUnlocked => Stored
  }

  predicate Critical(pc: Pc) {
    pc.GetLocked? || pc.GetRead? || pc.GetWrapped? || pc.PutLocked? || pc.PutStored? || pc.PutWrapped?
  }

  function WithRole(pcs: map<Tid, Pc>, r: Role): set<Tid> {
    set t | t in pcs && RoleOf(pcs[t]) == r
  }

  function Inside(pcs: map<Tid, Pc>): set<Tid> {
    set t | t in pcs && Critical(pcs[t])
  }

  function Count(pcs: map<Tid, Pc>, r: Role): nat {
    |WithRole(pcs, r)|
  }

  function One(b: bool): nat {
    if b then 1 else 0
  }

  lemma SizesDiffer(a: set<Tid>, b: set<Tid>, t: Tid)
    requires a - {t} == b - {t}
    ensures |a| + One(t in b) == |b| + One(t in a)
  {
    var rest := a - {t};
    assert a == if t in a then rest + {t} else rest;
    assert b == if t in b then rest + {t} else rest;
  }

  lemma CountMoves(pcs: map<Tid, Pc>, t: Tid, pc: Pc, r: Role)
    requires t in pcs
    ensures Count(pcs[t := pc], r) + One(RoleOf(pcs[t]) == r) == Count(pcs, r) + One(RoleOf(pc) == r)
  {
    hide RoleOf;
    SizesDiffer(WithRole(pcs, r), WithRole(pcs[t := pc], r), t);
  }

  lemma InsideMoves(pcs: map<Tid, Pc>, t: Tid, pc: Pc)
    requires t in pcs
    ensures |Inside(pcs[t := pc])| + One(Critical(pcs[t])) == |Inside(pcs)| + One(Critical(pc))
  {
    hide Critical;
    SizesDiffer(Inside(pcs), Inside(pcs[t := pc]), t);
  }

  // ----- the invariant -----

  function Unread(s: State): int {
    |s.puts| - |s.gets|
  }

  /** The mutex admits one thread; tokens and operations in flight account for every slot. */
  ghost predicate Accounted(s: State) {
    && s.mutex + |Inside(s.pcs)| == 1
    && s.full + Count(s.pcs, Taking) + Count(s.pcs, Stored) == Unread(s)
    && s.empty + Count(s.pcs, Storing) + Count(s.pcs, Taken) == |s.buf| - Unread(s)
  }

  /** The slot of the count-th byte: count modulo the length. */
  function Slot(count: nat, length: nat): nat
    requires length > 0
    decreases count
  {
    if count < length then count else Slot(count - length, length)
  }

  /** The indexes follow the numbers of bytes taken and stored, except between an increment and its wrap. */
  ghost predicate IndexOk(index: nat, count: nat, length: nat, midway: bool)
    requires length > 0
  {
    if midway then count > 0 && index == Slot(count - 1, length) + 1 else index == Slot(count, length)
  }

  ghost predicate Midway(s: State, get: bool) {
    exists t :: t in s.pcs && (if get then s.pcs[t].GetRead? else s.pcs[t].PutStored?)
  }

  /** Taken bytes are the oldest stored ones; the unread ones are in their slots. */
  ghost predicate Fifo(s: State)
    requires |s.buf| > 0
  {
    && |s.gets| <= |s.puts| && s.gets == s.puts[..|s.gets|]
    && forall k :: |s.gets| <= k < |s.puts| ==> Slot(k, |s.buf|) < |s.buf| && s.buf[Slot(k, |s.buf|)] == s.puts[k]
  }

  ghost predicate Inv(s: State) {
    && |s.buf| > 0 && Accounted(s) && Fifo(s)
    && IndexOk(s.getIndex, |s.gets|, |s.buf|, Midway(s, true))
    && IndexOk(s.putIndex, |s.puts|, |s.buf|, Midway(s, false))
  }

  // ----- slots -----

  /** Different unread positions are in different slots. */
  lemma {:induction false} SlotsDiffer(a: nat, b: nat, length: nat)
    requires a < b < a + length
    ensures Slot(a, length) != Slot(b, length)
    decreases a
  {
    if a >= length { SlotsDiffer(a - length, b - length, length); }
  }

  /** Advancing an index and reducing it is counting modulo the length. */
  lemma {:induction false} NextSlot(count: nat, length: nat)
    requires length > 0
    ensures Slot(count, length) < length
    ensures Slot(count + 1, length) == if Slot(count, length) + 1 == length then 0 else Slot(count, length) + 1
    ensures Slot(count + 1, length) == (Slot(count, length) + 1) % length
    decreases count
  {
    if count >= length { NextSlot(count - length, length); }
  }

  // ----- each step keeps the invariant -----

  lemma OnlyOneInside(pcs: map<Tid, Pc>, t: Tid, u: Tid)
    requires |Inside(pcs)| <= 1 && t in pcs && u in pcs && Critical(pcs[t]) && Critical(pcs[u])
    ensures t == u
  {
    if t != u { SubsetSize({t, u}, Inside(pcs)); }
  }

  lemma StepPcs(s: State, a: Action)
    requires Step(s, a).Some?
    ensures var s' := Step(s, a).value;
      a.t in s.pcs && a.t in s'.pcs && s'.pcs == s.pcs[a.t := s'.pcs[a.t]] && |s'.buf| == |s.buf|
  {
  }

  /** What a step adds to and takes from the semaphores is what its thread gives up and takes on. */
  lemma StepMutex(s: State, a: Action)
    requires Step(s, a).Some? && a.t in Step(s, a).value.pcs
    ensures var s' := Step(s, a).value;
      s'.mutex + One(Critical(s'.pcs[a.t])) == s.mutex + One(Critical(s.pcs[a.t]))
  {
  }

  lemma StepFull(s: State, a: Action)
    requires Step(s, a).Some? && a.t in Step(s, a).value.pcs
    ensures var s', pc, pc' := Step(s, a).value, s.pcs[a.t], Step(s, a).value.pcs[a.t];
      s'.full + One(RoleOf(pc') == Taking) + One(RoleOf(pc') == Stored) - Unread(s')
      == s.full + One(RoleOf(pc) == Taking) + One(RoleOf(pc) == Stored) - Unread(s)
  {
    hide Critical;
  }

  lemma StepEmpty(s: State, a: Action)
    requires Step(s, a).Some? && a.t in Step(s, a).value.pcs
    ensures var s', pc, pc' := Step(s, a).value, s.pcs[a.t], Step(s, a).value.pcs[a.t];
      s'.empty + One(RoleOf(pc') == Storing) + One(RoleOf(pc') == Taken) + Unread(s')
      == s.empty + One(RoleOf(pc) == Storing) + One(RoleOf(pc) == Taken) + Unread(s)
  {
    hide Critical;
  }

  lemma StepAccounted(s: State, a: Action)
    requires Accounted(s) && Step(s, a).Some?
    ensures Accounted(Step(s, a).value) && |Step(s, a).value.buf| == |s.buf|
  {
    hide Step, RoleOf, Critical, Unread, Count, Inside;
    StepPcs(s, a);
    StepMutex(s, a);
    StepFull(s, a);
    StepEmpty(s, a);
    var pc := Step(s, a).value.pcs[a.t];
    InsideMoves(s.pcs, a.t, pc);
    CountMoves(s.pcs, a.t, pc, Taking);
    CountMoves(s.pcs, a.t, pc, Taken);
    CountMoves(s.pcs, a.t, pc, Storing);
    CountMoves(s.pcs, a.t, pc, Stored);
  }

  lemma HasRole(pcs: map<Tid, Pc>, t: Tid)
    requires t in pcs
    ensures Count(pcs, RoleOf(pcs[t])) >= 1
  {
    CountMoves(pcs, t, Idle, RoleOf(pcs[t]));
    if RoleOf(pcs[t]) == Neither { assert t in WithRole(pcs, Neither); }
  }

  lemma InsideAlone(pcs: map<Tid, Pc>, t: Tid)
    requires |Inside(pcs)| <= 1 && t in pcs && Critical(pcs[t])
    ensures forall u :: u in pcs && u != t ==> !Critical(pcs[u])
  {
    forall u | u in pcs && u != t ensures !Critical(pcs[u]) {
      if Critical(pcs[u]) { OnlyOneInside(pcs, t, u); }
    }
  }

  /** A take reads the oldest unread byte. */
  lemma TakeIsOldest(s: State, t: Tid)
    requires Inv(s) && t in s.pcs && s.pcs[t] == GetLocked
    ensures |s.gets| < |s.puts| && s.getIndex < |s.buf| && s.buf[s.getIndex] == s.puts[|s.gets|]
    ensures !Midway(s, true) && s.getIndex == Slot(|s.gets|, |s.buf|)
  {
    HasRole(s.pcs, t);
    InsideAlone(s.pcs, t);
    NextSlot(|s.gets|, |s.buf|);
    assert !Midway(s, true);
  }

  /** A store goes to a slot that holds no unread byte. */
  lemma StoreOverwritesNothing(s: State, t: Tid)
    requires Inv(s) && t in s.pcs && s.pcs[t].PutLocked?
    ensures |s.puts| - |s.gets| < |s.buf| && s.putIndex < |s.buf|
    ensures !Midway(s, false) && s.putIndex == Slot(|s.puts|, |s.buf|)
    ensures forall k :: |s.gets| <= k < |s.puts| ==> Slot(k, |s.buf|) != s.putIndex
  {
    HasRole(s.pcs, t);
    InsideAlone(s.pcs, t);
    NextSlot(|s.puts|, |s.buf|);
    assert !Midway(s, false);
    forall k | |s.gets| <= k < |s.puts| ensures Slot(k, |s.buf|) != s.putIndex {
      SlotsDiffer(k, |s.puts|, |s.buf|);
    }
  }

  lemma StepFifo(s: State, a: Action)
    requires Inv(s) && Step(s, a).Some?
    ensures |Step(s, a).value.buf| == |s.buf| && Fifo(Step(s, a).value)
  {
    hide Slot, Accounted, IndexOk, Midway;
    if a.Advance? && s.pcs[a.t] == GetLocked {
      TakeIsOldest(s, a.t);
    } else if a.Advance? && s.pcs[a.t].PutLocked? {
      StoreOverwritesNothing(s, a.t);
    }
  }

  lemma StepIndexes(s: State, a: Action)
    requires Inv(s) && Step(s, a).Some?
    ensures var s' := Step(s, a).value;
      && |s'.buf| == |s.buf|
      && IndexOk(s'.getIndex, |s'.gets|, |s.buf|, Midway(s', true))
      && IndexOk(s'.putIndex, |s'.puts|, |s.buf|, Midway(s', false))
  {
    hide Slot, Accounted, Fifo, IndexOk, Midway;
    var t := a.t;
    if a.Advance? && Critical(s.pcs[t]) {
      if s.pcs[t].GetLocked? || s.pcs[t].GetRead? || s.pcs[t].GetWrapped? {
        GetIndexes(s, t);
      } else {
        PutIndexes(s, t);
      }
    } else {
      OtherIndexes(s, a);
    }
  }

  lemma OtherIndexes(s: State, a: Action)
    requires Inv(s) && Step(s, a).Some? && !(a.Advance? && Critical(s.pcs[a.t]))
    ensures var s' := Step(s, a).value;
      && IndexOk(s'.getIndex, |s'.gets|, |s.buf|, Midway(s', true))
      && IndexOk(s'.putIndex, |s'.puts|, |s.buf|, Midway(s', false))
  {
    hide Slot, Accounted, Fifo, IndexOk, Midway;
    MidwayElsewhere(s, Step(s, a).value, a.t, true);
    MidwayElsewhere(s, Step(s, a).value, a.t, false);
  }

  lemma GetIndexes(s: State, t: Tid)
    requires Inv(s) && Step(s, Advance(t)).Some? && (s.pcs[t].GetLocked? || s.pcs[t].GetRead? || s.pcs[t].GetWrapped?)
    ensures var s' := Step(s, Advance(t)).value;
      && IndexOk(s'.getIndex, |s'.gets|, |s.buf|, Midway(s', true))
      && IndexOk(s'.putIndex, |s'.puts|, |s.buf|, Midway(s', false))
  {
    hide Fifo, Slot, WithRole, Inside;
    var s' := Step(s, Advance(t)).value;
    InsideAlone(s.pcs, t);
    assert !Midway(s, false) && !Midway(s', false);
    if s.pcs[t].GetLocked? {
      TakeIsOldest(s, t);
      assert s'.pcs[t].GetRead?;
    } else if s.pcs[t].GetRead? {
      assert Midway(s, true) && !Midway(s', true);
      NextSlot(|s.gets| - 1, |s.buf|);
    } else {
      assert !Midway(s, true) && !Midway(s', true);
    }
  }

  lemma PutIndexes(s: State, t: Tid)
    requires Inv(s) && Step(s, Advance(t)).Some? && (s.pcs[t].PutLocked? || s.pcs[t].PutStored? || s.pcs[t].PutWrapped?)
    ensures var s' := Step(s, Advance(t)).value;
      && IndexOk(s'.getIndex, |s'.gets|, |s.buf|, Midway(s', true))
      && IndexOk(s'.putIndex, |s'.puts|, |s.buf|, Midway(s', false))
  {
    hide Fifo, Slot, WithRole, Inside;
    var s' := Step(s, Advance(t)).value;
    InsideAlone(s.pcs, t);
    assert !Midway(s, true) && !Midway(s', true);
    if s.pcs[t].PutLocked? {
      StoreOverwritesNothing(s, t);
      assert s'.pcs[t].PutStored?;
    } else if s.pcs[t].PutStored? {
      assert Midway(s, false) && !Midway(s', false);
      NextSlot(|s.puts| - 1, |s.buf|);
    } else {
      assert !Midway(s, false) && !Midway(s', false);
    }
  }

  lemma MidwayElsewhere(s: State, s': State, t: Tid, get: bool)
    requires t in s.pcs && !Critical(s.pcs[t]) && t in s'.pcs && s'.pcs == s.pcs[t := s'.pcs[t]]
    requires !s'.pcs[t].GetRead? && !s'.pcs[t].PutStored?
    ensures Midway(s', get) == Midway(s, get)
  {
    forall u | u in s.pcs && u != t ensures u in s'.pcs && s'.pcs[u] == s.pcs[u] { }
  }

  lemma StepKeepsInv(s: State, a: Action)
    requires Inv(s) && Step(s, a).Some?
    ensures Inv(Step(s, a).value)
  {
    StepAccounted(s, a);
    StepFifo(s, a);
    StepIndexes(s, a);
  }

  lemma InitialInv(buf: seq<int>, tids: set<Tid>)
    requires buf != []
    ensures Inv(Initial(buf, tids))
  {
    var s := Initial(buf, tids);
    assert Inside(s.pcs) == {};
    assert WithRole(s.pcs, Taking) == WithRole(s.pcs, Taken) == WithRole(s.pcs, Storing)
      == WithRole(s.pcs, Stored) == {};
  }

  lemma {:induction false} RunKeepsInv(s: State, actions: seq<Action>)
    requires Inv(s)
    ensures Inv(Run(s, actions)) && |Run(s, actions).buf| == |s.buf|
    decreases |actions|
  {
    if actions != [] {
      if Step(s, actions[0]).Some? {
        StepKeepsInv(s, actions[0]);
        StepAccounted(s, actions[0]);
        RunKeepsInv(Step(s, actions[0]).value, actions[1..]);
      } else {
        RunKeepsInv(s, actions[1..]);
      }
    }
  }

  /** In every interleaving the bytes taken are a prefix of the bytes put, in the order of the critical sections. */
  lemma QueueIsFifo(buf: seq<int>, tids: set<Tid>, actions: seq<Action>)
    requires buf != []
    ensures var s := Run(Initial(buf, tids), actions); s.gets <= s.puts && |s.puts| - |s.gets| <= |buf|
  {
    InitialInv(buf, tids);
    RunKeepsInv(Initial(buf, tids), actions);
  }

  /** Tokens are conserved: the two semaphores and the operations in flight always add up to the length. */
  lemma TokensConserved(buf: seq<int>, tids: set<Tid>, actions: seq<Action>)
    requires buf != []
    ensures var s := Run(Initial(buf, tids), actions);
      s.full + s.empty + Count(s.pcs, Taking) + Count(s.pcs, Taken) + Count(s.pcs, Storing)
      + Count(s.pcs, Stored) == |buf|
  {
    InitialInv(buf, tids);
    RunKeepsInv(Initial(buf, tids), actions);
  }

  /** With all threads idle the semaphores count the unread bytes and the free slots. */
  lemma QuietQueue(buf: seq<int>, tids: set<Tid>, actions: seq<Action>)
    requires buf != []
    ensures var s := Run(Initial(buf, tids), actions);
      (forall t :: t in s.pcs ==> s.pcs[t] == Idle) ==>
        s.mutex == 1 && s.full == |s.puts| - |s.gets| && s.empty == |buf| - s.full
  {
    InitialInv(buf, tids);
    RunKeepsInv(Initial(buf, tids), actions);
    var s := Run(Initial(buf, tids), actions);
    if forall t :: t in s.pcs ==> s.pcs[t] == Idle {
      assert Inside(s.pcs) == {};
      assert WithRole(s.pcs, Taking) == {} && WithRole(s.pcs, Taken) == {};
      assert WithRole(s.pcs, Storing) == {} && WithRole(s.pcs, Stored) == {};
    }
  }

  // ----- progress -----

  /** Exactly when an operation that has begun can go on: always, but for the wait on the mutex. */
  lemma GoesOn(s: State, t: Tid)
    requires Inv(s) && t in s.pcs && s.pcs[t] != Idle
    ensures Step(s, Advance(t)).Some? <==> (s.pcs[t].GetToken? || s.pcs[t].PutToken? ==> s.mutex > 0)
  {
    hide Fifo, Accounted, IndexOk;
    if s.pcs[t].GetLocked? { TakeIsOldest(s, t); }
    if s.pcs[t].PutLocked? { StoreOverwritesNothing(s, t); }
  }

  /** No deadlock: in every run, while operations are under way one of them can go on. */
  lemma NeverStuck(buf: seq<int>, tids: set<Tid>, actions: seq<Action>)
    requires buf != []
    ensures var s := Run(Initial(buf, tids), actions);
      (exists t :: t in s.pcs && s.pcs[t] != Idle) ==> exists t :: t in s.pcs && Step(s, Advance(t)).Some?
  {
    var s := Run(Initial(buf, tids), actions);
    InitialInv(buf, tids);
    RunKeepsInv(Initial(buf, tids), actions);
    hide Step, Run, Initial, Fifo, IndexOk;
    if t :| t in s.pcs && s.pcs[t] != Idle {
      if s.mutex == 0 {
        var u := SomeoneInside(s);
        GoesOn(s, u);
      } else {
        GoesOn(s, t);
      }
    }
  }

  lemma SomeoneInside(s: State) returns (t: Tid)
    requires Accounted(s) && s.mutex == 0
    ensures t in s.pcs && Critical(s.pcs[t])
  {
    assert Inside(s.pcs) != {};
    t :| t in Inside(s.pcs);
  }

  ghost predicate AllIdle(s: State) {
    forall t :: t in s.pcs ==> s.pcs[t] == Idle
  }

  lemma AtRest(s: State)
    requires Inv(s) && AllIdle(s)
    ensures s.mutex == 1 && s.full == Unread(s) && s.empty == |s.buf| - Unread(s)
  {
    assert Inside(s.pcs) == {};
    assert WithRole(s.pcs, Taking) == {} && WithRole(s.pcs, Taken) == {};
    assert WithRole(s.pcs, Storing) == {} && WithRole(s.pcs, Stored) == {};
  }

  /** The last four actions of an operation, from inside the mutex. */
  function Rest(t: Tid): seq<Action> {
    [Advance(t)] + ([Advance(t)] + ([Advance(t)] + ([Advance(t)] + [])))
  }

  /** A thread's start and the five actions that follow it. */
  function Whole(first: Action): seq<Action> {
    [first] + ([Advance(first.t)] + Rest(first.t))
  }

  lemma RunStep(s: State, a: Action, rest: seq<Action>)
    requires Step(s, a).Some?
    ensures Run(s, [a] + rest) == Run(Step(s, a).value, rest)
  {
    hide Step;
    assert ([a] + rest)[1..] == rest;
  }

  lemma RunNothing(s: State)
    ensures Run(s, []) == s
  {
  }

  lemma PutEnds(s: State, t: Tid, data: int)
    requires t in s.pcs && s.pcs[t] == PutLocked(data) && s.putIndex < |s.buf|
    ensures Run(s, Rest(t)) ==
      s.(buf := s.buf[s.putIndex := data], putIndex := (s.putIndex + 1) % |s.buf|, puts := s.puts + [data],
         mutex := s.mutex + 1, full := s.full + 1, pcs := s.pcs[t := Idle])
  {
    hide Run;
    var on, none: seq<Action> := Advance(t), [];
    var stored := s.(buf := s.buf[s.putIndex := data], puts := s.puts + [data], putIndex := (s.putIndex + 1) % |s.buf|);
    var s1 := At(stored, t, PutStored).(putIndex := s.putIndex + 1);
    var s2 := At(stored, t, PutWrapped);
    assert s2.pcs == s1.pcs[t := PutWrapped];
    assert Step(s, on) == Some(s1);
    assert Step(s1, on) == Some(s2);
    UnlocksPut(s2, t);
    hide Step;
    RunStep(s, on, [on] + ([on] + ([on] + none)));
    RunStep(s1, on, [on] + ([on] + none));
    assert s2.pcs[t := Idle] == s.pcs[t := Idle];
  }

  lemma UnlocksPut(s: State, t: Tid)
    requires t in s.pcs && s.pcs[t] == PutWrapped
    ensures Run(s, [Advance(t)] + ([Advance(t)] + [])) ==
      s.(mutex := s.mutex + 1, full := s.full + 1, pcs := s.pcs[t := Idle])
  {
    hide Run;
    var on, none: seq<Action> := Advance(t), [];
    var s1 := At(s, t, PutUnlocked).(mutex := s.mutex + 1);
    var s2 := At(s1, t, Idle).(full := s.full + 1);
    assert s2.pcs == s.pcs[t := Idle];
    assert Step(s, on) == Some(s1) && Step(s1, on) == Some(s2);
    hide Step;
    RunStep(s, on, [on] + none);
    RunStep(s1, on, none);
    RunNothing(s2);
  }

  lemma GetEnds(s: State, t: Tid)
    requires t in s.pcs && s.pcs[t] == GetLocked && s.getIndex < |s.buf|
    ensures Run(s, Rest(t)) ==
      s.(getIndex := (s.getIndex + 1) % |s.buf|, gets := s.gets + [s.buf[s.getIndex]],
         mutex := s.mutex + 1, empty := s.empty + 1, pcs := s.pcs[t := Idle])
  {
    hide Run;
    var on, none: seq<Action> := Advance(t), [];
    var data := s.buf[s.getIndex];
    var s1 := At(s, t, GetRead(data)).(getIndex := s.getIndex + 1, gets := s.gets + [data]);
    var s2 := At(s1, t, GetWrapped(data)).(getIndex := s1.getIndex % |s.buf|);
    var s3 := At(s2, t, GetUnlocked(data)).(mutex := s.mutex + 1);
    var s4 := At(s3, t, Idle).(empty := s.empty + 1);
    assert s4.pcs == s.pcs[t := Idle];
    assert Step(s, on) == Some(s1) && Step(s1, on) == Some(s2) && Step(s2, on) == Some(s3) && Step(s3, on) == Some(s4);
    hide Step;
    RunStep(s, on, [on] + ([on] + ([on] + none)));
    RunStep(s1, on, [on] + ([on] + none));
    RunStep(s2, on, [on] + none);
    RunStep(s3, on, none);
    RunNothing(s4);
  }

  lemma PutBegins(s: State, t: Tid, data: int)
    requires t in s.pcs && s.pcs[t] == Idle && s.empty > 0 && s.mutex > 0
    ensures var s2 := At(s, t, PutLocked(data)).(empty := s.empty - 1, mutex := s.mutex - 1);
      && Run(s, Whole(StartPut(t, data))) == Run(s2, Rest(t))
      && (Inv(s) ==> Inv(s2))
  {
    hide Run, Rest, Inv;
    var on := Advance(t);
    var s1 := At(s, t, PutToken(data)).(empty := s.empty - 1);
    var s2 := At(s1, t, PutLocked(data)).(mutex := s.mutex - 1);
    assert s2.pcs == s.pcs[t := PutLocked(data)];
    assert Step(s, StartPut(t, data)) == Some(s1) && Step(s1, on) == Some(s2);
    hide Step;
    RunStep(s, StartPut(t, data), [on] + Rest(t));
    RunStep(s1, on, Rest(t));
    if Inv(s) {
      StepKeepsInv(s, StartPut(t, data));
      StepKeepsInv(s1, on);
    }
  }

  lemma GetBegins(s: State, t: Tid)
    requires t in s.pcs && s.pcs[t] == Idle && s.full > 0 && s.mutex > 0
    ensures var s2 := At(s, t, GetLocked).(full := s.full - 1, mutex := s.mutex - 1);
      && Run(s, Whole(StartGet(t))) == Run(s2, Rest(t))
      && (Inv(s) ==> Inv(s2))
  {
    hide Run, Rest, Inv;
    var on := Advance(t);
    var s1 := At(s, t, GetToken).(full := s.full - 1);
    var s2 := At(s1, t, GetLocked).(mutex := s.mutex - 1);
    assert s2.pcs == s.pcs[t := GetLocked];
    assert Step(s, StartGet(t)) == Some(s1) && Step(s1, on) == Some(s2);
    hide Step;
    RunStep(s, StartGet(t), [on] + Rest(t));
    RunStep(s1, on, Rest(t));
    if Inv(s) {
      StepKeepsInv(s, StartGet(t));
      StepKeepsInv(s1, on);
    }
  }

  /** A put at rest is refused exactly when the queue is full; else it appends its byte and all threads are idle
      again. */
  lemma PutAtRest(s: State, t: Tid, data: int)
    requires Inv(s) && AllIdle(s) && t in s.pcs
    ensures Step(s, StartPut(t, data)).Some? <==> Unread(s) < |s.buf|
    ensures Unread(s) < |s.buf| ==>
      var s' := Run(s, Whole(StartPut(t, data)));
      s'.puts == s.puts + [data] && s'.gets == s.gets && s'.pcs == s.pcs && |s'.buf| == |s.buf|
  {
    hide Inv, Run, Whole, Rest;
    AtRest(s);
    assert s.pcs[t] == Idle;
    if Unread(s) < |s.buf| {
      PutBegins(s, t, data);
      var s2 := At(s, t, PutLocked(data)).(empty := s.empty - 1, mutex := s.mutex - 1);
      StoreOverwritesNothing(s2, t);
      PutEnds(s2, t, data);
      assert s.pcs[t := PutLocked(data)][t := Idle] == s.pcs;
    }
  }

  /** A get at rest is refused exactly when the queue is empty; else it takes the oldest byte. */
  lemma GetAtRest(s: State, t: Tid)
    requires Inv(s) && AllIdle(s) && t in s.pcs
    ensures Step(s, StartGet(t)).Some? <==> Unread(s) > 0
    ensures Unread(s) > 0 ==>
      var s' := Run(s, Whole(StartGet(t)));
      s'.gets == s.gets + [s.puts[|s.gets|]] && s'.puts == s.puts && s'.pcs == s.pcs && s'.buf == s.buf
  {
    hide Inv, Run, Whole, Rest;
    AtRest(s);
    assert s.pcs[t] == Idle;
    if Unread(s) > 0 {
      GetBegins(s, t);
      var s2 := At(s, t, GetLocked).(full := s.full - 1, mutex := s.mutex - 1);
      TakeIsOldest(s2, t);
      GetEnds(s2, t);
      assert s.pcs[t := GetLocked][t := Idle] == s.pcs;
    }
  }
}
