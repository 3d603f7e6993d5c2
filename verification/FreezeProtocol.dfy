/**
  The freeze protocol as a state machine: one serial client and any number of workers,
  interleaved at the granularity of single flag loads and stores, backend calls, counter
  updates and 1 ms sleep slices. Everything the threads do not decide themselves (what the
  backend answers, who runs next) is carried by the label of a step.
*/
module FreezeProtocol {
  import opened Common
  import opened ByteMemory

  // ---------------------------------------------------------------- requests and entries

  /** value is an unsigned 64-bit number, interval counts milliseconds. */
  datatype FreezeRequest = FreezeRequest(id: string, address: Address, typeName: string, value: nat, interval: int, size: nat)

  /** What a backend write answers: an error without effect, or how many leading bytes it wrote. */
  datatype Outcome = Failed | Wrote(count: nat)

  /** The next thing a worker thread does. */
  datatype Pc =
    | NotStarted
    | LoopCancel
    | LoopActive
    | CheckAlive
    | Writing
    | Counting(outcome: Outcome)
    | NapCancel(slept: nat)
    | NapActive(slept: nat)
    | Napping(slept: nat)
    | MarkDead
    | CountDead
    | Exited

  datatype Entry = Entry(
    request: FreezeRequest,
    original: seq<Byte>,
    cancel: bool,
    active: bool,
    restored: bool,
    okCount: nat,
    failCount: nat,
    pc: Pc,
    joined: bool)
  {
    /** std::thread::joinable */
    predicate Joinable() {
      pc != NotStarted && !joined
    }

    predicate Covers(a: int) {
      request.address <= a < request.address + request.size
    }
  }

  /** What status tells about an entry; the saved bytes appear as a little-endian number. */
  datatype FreezeStatus = FreezeStatus(
    id: string, address: Address, size: nat, value: nat, original: nat,
    rewrites: nat, failures: nat, active: bool, restored: bool)

  function StatusOf(e: Entry): FreezeStatus {
    FreezeStatus(e.request.id, e.request.address, e.request.size, e.request.value, FromBytes(e.original),
                 e.okCount, e.failCount, e.active, e.restored)
  }

  function SizeForType(name: string): nat {
    if name == "uint8" || name == "int8" then 1
    else if name == "uint16" || name == "int16" then 2
    else if name == "uint32" || name == "int32" || name == "float" then 4
    else if name == "uint64" || name == "int64" || name == "double" then 8
    else 0
  }

  /** The checks freeze makes before it takes the lock, and the defaults it fills in. */
  function Normalize(request: FreezeRequest): (r: Result<FreezeRequest>)
    ensures r.Success? ==> 1 <= r.value.size <= 8 && r.value.interval >= 1 && r.value.id != "" && r.value.address != 0
    ensures r.Success? ==> r.value.id == request.id && r.value.address == request.address && r.value.value == request.value
  {
    var size := if request.size == 0 then SizeForType(request.typeName) else request.size;
    if request.address == 0 then Failure(InvalidAddress)
    else if size == 0 || size > 8 then Failure(InvalidType)
    else if request.id == "" then Failure(InvalidEntryId)
    else Success(request.(size := size, interval := if request.interval < 1 then 50 else request.interval))
  }

  function Interval(e: Entry): (r: nat)
    ensures r >= 1
  {
    if e.request.interval < 1 then 1 else e.request.interval
  }

  // ---------------------------------------------------------------- worker steps

  datatype Action =
    | LoadCancel
    | LoadActive
    | AskAlive(alive: bool)
    | Rewrite(outcome: Outcome)
    | Count
    | Sleep
    | ClearActive

  predicate Possible(outcome: Outcome, size: nat) {
    outcome.Wrote? ==> outcome.count <= size
  }

  /** A backend never reports more bytes than it was given. */
  function Clip(outcome: Outcome, size: nat): (r: Outcome)
    ensures Possible(r, size)
    ensures Possible(outcome, size) ==> r == outcome
  {
    if Possible(outcome, size) then outcome else Wrote(size)
  }

  predicate Full(outcome: Outcome, size: nat) {
    outcome == Wrote(size)
  }

  /** Where a worker goes with this action, or None when the action is not what it does next. */
  function NextPc(e: Entry, act: Action): Option<Pc> {
    match e.pc
    case NotStarted => None
    case LoopCancel => if act.LoadCancel? then Some(if e.cancel then Exited else LoopActive) else None
    case LoopActive => if act.LoadActive? then Some(if e.active then CheckAlive else Exited) else None
    case CheckAlive => if act.AskAlive? then Some(if act.alive then Writing else MarkDead) else None
    case Writing => if act.Rewrite? && Possible(act.outcome, e.request.size) then Some(Counting(act.outcome)) else None
    case Counting(_) => if act.Count? then Some(NapCancel(0)) else None
    case NapCancel(slept) => if act.LoadCancel? then Some(if e.cancel then LoopCancel else NapActive(slept)) else None
    case NapActive(slept) => if act.LoadActive? then Some(if e.active then Napping(slept) else LoopCancel) else None
    case Napping(slept) => if act.Sleep? then Some(if slept + 1 < Interval(e) then NapCancel(slept + 1) else LoopCancel) else None
    case MarkDead => if act.ClearActive? then Some(CountDead) else None
    case CountDead => if act.Count? then Some(Exited) else None
    case Exited => None
  }

  /** What the worker asks of, or is told by, its environment at this point of its loop. */
  function NextAction(e: Entry, alive: bool, outcome: Outcome): Action {
    match e.pc
    case LoopActive => LoadActive
    case NapActive(_) => LoadActive
    case CheckAlive => AskAlive(alive)
    case Writing => Rewrite(Clip(outcome, e.request.size))
    case Counting(_) => Count
    case CountDead => Count
    case Napping(_) => Sleep
    case MarkDead => ClearActive
    case _ => LoadCancel
  }

  /** One step of worker_loop. A count goes to ok after a full write, to fail in every other case. */
  function WorkerStep(e: Entry, act: Action): Option<Entry> {
    var next := NextPc(e, act);
    if next.None? then None
    else
      var good := act.Count? && e.pc.Counting? && Full(e.pc.outcome, e.request.size);
      Some(e.(
        pc := next.value,
        active := e.active && !act.ClearActive?,
        okCount := if good then e.okCount + 1 else e.okCount,
        failCount := if act.Count? && !good then e.failCount + 1 else e.failCount))
  }

  // ---------------------------------------------------------------- the client

  datatype Goal = ToUnfreeze | ToRestore

  datatype Client =
    | Idle
    | Spawning(i: nat)
    | Cancelling(i: nat, goal: Goal)
    | Joining(i: nat, goal: Goal)
    | Closing(i: nat)
    | Rewriting(i: nat)
    | Marking(i: nat)
    | Clearing(i: nat)
    | StoppingAll(todo: set<nat>)
    | StoppingOne(i: nat, todo: set<nat>)
    | JoiningAll(todo: set<nat>)

  datatype Op =
    | Freeze(request: FreezeRequest)
    | Spawn
    | Begin(id: string, goal: Goal)
    | SetCancel
    | Join
    | Close
    | RestoreWrite(outcome: Outcome)
    | MarkRestored
    | ClearFlag
    | BeginCancelAll
    | StopOne(i: nat)
    | ClearOne
    | JoinOne(i: nat)

  /** The steps a call of freeze, unfreeze or restore is made of; written is what restore's write answers. */
  function FreezeOps(request: FreezeRequest): set<Op> {
    {Freeze(request), Spawn}
  }

  function StopOps(id: string, goal: Goal): set<Op> {
    {Begin(id, goal), SetCancel, Join}
  }

  function UnfreezeOps(id: string): set<Op> {
    StopOps(id, ToUnfreeze) + {Close}
  }

  function RestoreOps(id: string, written: Outcome): set<Op> {
    StopOps(id, ToRestore) + {RestoreWrite(written), MarkRestored, ClearFlag}
  }

  /** entries are kept in the order of their freeze calls. */
  datatype State = State(mem: Memory, entries: seq<Entry>, client: Client)

  datatype Label = Worker(i: nat, act: Action) | Caller(op: Op)

  function Init(mem: Memory): State {
    State(mem, [], Idle)
  }

  /** The position of the entry registered under id, or the number of entries. */
  function Find(entries: seq<Entry>, id: string): (i: nat)
    ensures i <= |entries|
    ensures i < |entries| ==> entries[i].request.id == id
    ensures forall k | 0 <= k < i :: entries[k].request.id != id
  {
    if entries == [] then 0
    else if entries[0].request.id == id then 0
    else 1 + Find(entries[1..], id)
  }

  /** What the write of restore answers about the bytes saved under id. */
  function AnsweredTo(entries: seq<Entry>, id: string, written: Outcome): Outcome {
    var i := Find(entries, id);
    if i == |entries| then written else Clip(written, |entries[i].original|)
  }

  /** What unfreeze returns. */
  function UnfreezeResult(entries: seq<Entry>, id: string): Result<()> {
    if Find(entries, id) < |entries| then Success(()) else Failure(SnapshotMissing)
  }

  /** What restore returns. */
  function RestoreResult(entries: seq<Entry>, id: string, written: Outcome): Result<()> {
    var i := Find(entries, id);
    if i == |entries| then Failure(SnapshotMissing)
    else
      match Clip(written, |entries[i].original|)
      case Failed => Failure(WriteFailed)
      case Wrote(count) => if count == |entries[i].original| then Success(()) else Failure(PartialWrite)
  }

  /** What status returns. */
  function StatusResult(entries: seq<Entry>, id: string): Result<FreezeStatus> {
    var i := Find(entries, id);
    if i == |entries| then Failure(SnapshotMissing) else Success(StatusOf(entries[i]))
  }

  /** Positions of entries, each at most once: those of every entry whose id is not among these. */
  predicate Visited(entries: seq<Entry>, ids: set<string>, at: seq<nat>) {
    && (forall i | 0 <= i < |at| :: at[i] < |entries|)
    && (forall i, j | 0 <= i < j < |at| :: at[i] != at[j])
    && forall k: nat | k < |entries| :: k in at <==> entries[k].request.id !in ids
  }

  /** What all_status returns: the entries in the order in which the hash map lists them. */
  function Listed(entries: seq<Entry>, at: seq<nat>): (r: seq<FreezeStatus>)
    requires forall i | 0 <= i < |at| :: at[i] < |entries|
    ensures |r| == |at| && forall i | 0 <= i < |at| :: r[i] == StatusOf(entries[at[i]])
  {
    seq(|at|, i requires 0 <= i < |at| => StatusOf(entries[at[i]]))
  }

  /** The result of the locked part of freeze: refused, or the entry it publishes. */
  ghost function Snapshot(s: State, request: FreezeRequest): Result<Entry> {
    var normal :- Normalize(request);
    if Find(s.entries, normal.id) < |s.entries| then Failure(InvalidEntryId)
    else
      var original :- Load(s.mem, normal.address, normal.size);
      Success(Entry(normal, original, false, true, false, 0, 0, NotStarted, false))
  }

  /** What comes after the join of unfreeze and of restore. */
  function AfterJoin(i: nat, goal: Goal): Client {
    if goal == ToUnfreeze then Closing(i) else Rewriting(i)
  }

  /** The positions below n, in the unspecified order in which cancel_all visits them. */
  function Everyone(n: nat): (all: set<nat>)
    ensures forall i: nat :: i in all <==> i < n
  {
    if n == 0 then {} else Everyone(n - 1) + {n - 1}
  }

  /** One step of the client, or None when op is not what it does next. */
  ghost function CallerStep(s: State, op: Op): Option<State> {
    var n := |s.entries|;
    match op
    case Freeze(request) =>
      if !s.client.Idle? then None
      else
        (match Snapshot(s, request)
         case Failure(_) => Some(s)
         case Success(e) => Some(s.(entries := s.entries + [e], client := Spawning(n))))
    case Spawn =>
      if s.client.Spawning? && s.client.i < n && s.entries[s.client.i].pc == NotStarted
      then Some(s.(entries := s.entries[s.client.i := s.entries[s.client.i].(pc := LoopCancel)], client := Idle)) else None
    case Begin(id, goal) =>
      var i := Find(s.entries, id);
      if !s.client.Idle? then None
      else if i == n then Some(s)
      else if s.entries[i].Joinable() then Some(s.(client := Cancelling(i, goal)))
      else Some(s.(client := AfterJoin(i, goal)))
    case SetCancel =>
      if s.client.Cancelling? && s.client.i < n
      then Some(s.(entries := s.entries[s.client.i := s.entries[s.client.i].(cancel := true)],
                   client := Joining(s.client.i, s.client.goal)))
      else None
    case Join =>
      if s.client.Joining? && s.client.i < n && s.entries[s.client.i].pc == Exited
      then Some(s.(entries := s.entries[s.client.i := s.entries[s.client.i].(joined := true)],
                   client := AfterJoin(s.client.i, s.client.goal)))
      else None
    case Close =>
      if s.client.Closing? && s.client.i < n
      then Some(s.(entries := s.entries[s.client.i := s.entries[s.client.i].(active := false)], client := Idle)) else None
    case RestoreWrite(outcome) =>
      if s.client.Rewriting? && s.client.i < n && Possible(outcome, |s.entries[s.client.i].original|)
      then
        var e := s.entries[s.client.i];
        Some(s.(client := if Full(outcome, |e.original|) then Marking(s.client.i) else Idle,
                mem := Put(s.mem, e.request.address, e.original, outcome)))
      else None
    case MarkRestored =>
      if s.client.Marking? && s.client.i < n
      then Some(s.(entries := s.entries[s.client.i := s.entries[s.client.i].(restored := true)], client := Clearing(s.client.i)))
      else None
    case ClearFlag =>
      if s.client.Clearing? && s.client.i < n
      then Some(s.(entries := s.entries[s.client.i := s.entries[s.client.i].(active := false)], client := Idle)) else None
    case BeginCancelAll =>
      if s.client.Idle? then Some(s.(client := if s.entries == [] then Idle else StoppingAll(Everyone(n)))) else None
    case StopOne(i) =>
      if s.client.StoppingAll? && i in s.client.todo && i < n
      then Some(s.(entries := s.entries[i := s.entries[i].(cancel := true)], client := StoppingOne(i, s.client.todo - {i})))
      else None
    case ClearOne =>
      if s.client.StoppingOne? && s.client.i < n
      then Some(s.(entries := s.entries[s.client.i := s.entries[s.client.i].(active := false)],
                   client := if s.client.todo == {} then JoiningAll(Everyone(n)) else StoppingAll(s.client.todo)))
      else None
    case JoinOne(i) =>
      if s.client.JoiningAll? && i in s.client.todo && i < n && (s.entries[i].Joinable() ==> s.entries[i].pc == Exited)
      then
        var e := s.entries[i];
        Some(s.(entries := s.entries[i := e.(joined := e.joined || e.Joinable())],
                client := if s.client.todo == {i} then Idle else JoiningAll(s.client.todo - {i})))
      else None
  }

  /** Memory after a backend write of bytes at address that answered with outcome. */
  function Put(mem: Memory, address: Address, bytes: seq<Byte>, outcome: Outcome): Memory
    requires Possible(outcome, |bytes|)
  {
    if outcome.Wrote? && address + outcome.count <= ADDRESS_SPACE
    then Written(mem, address, bytes[..outcome.count]) else mem
  }

  ghost function Next(s: State, step: Label): Option<State> {
    match step
    case Caller(op) => CallerStep(s, op)
    case Worker(i, act) =>
      if i >= |s.entries| then None
      else
        match WorkerStep(s.entries[i], act)
        case None => None
        case Some(e) =>
          var mem := if act.Rewrite? then Put(s.mem, e.request.address, ToBytes(e.request.value, e.request.size), act.outcome) else s.mem;
          Some(s.(mem := mem, entries := s.entries[i := e]))
  }

  /** The state a whole run leads to; None when some step was not possible. */
  ghost function Run(s: State, run: seq<Label>): Option<State>
    decreases |run|
  {
    if run == [] then Some(s)
    else
      match Next(s, run[0])
      case None => None
      case Some(s') => Run(s', run[1..])
  }

  /** The client takes only these steps; workers may take any. */
  ghost predicate Within(run: seq<Label>, ops: set<Op>) {
    forall step | step in run :: step.Worker? || step.op in ops
  }

  lemma {:induction false} RunConcat(s: State, xs: seq<Label>, ys: seq<Label>)
    ensures Run(s, xs + ys) == match Run(s, xs) case None => None case Some(m) => Run(m, ys)
    decreases |xs|
  {
    if xs == [] {
      assert xs + ys == ys;
    } else {
      assert (xs + ys)[1..] == xs[1..] + ys;
      match Next(s, xs[0])
      case None =>
      case Some(m) => RunConcat(m, xs[1..], ys);
    }
  }
}
