// One client connection: the read loop, its workers, and the upgrade to TLS. Every method
// is one atomic step, of the read loop or of a worker; a run is any sequence of steps.
module Connections {
  type MsgId = nat
  type WorkerId = nat
  type Subject = string

  /** A worker runs its operation, then has left the registry, then gives back its token and is gone. */
  datatype Stage = Running | Unregistered
  datatype Worker = Worker(msg: MsgId, subject: Subject, stage: Stage)

  /** Where the read loop is between its steps. */
  datatype Loop =
    | Reading
    | Admitted(msg: MsgId)
    | Duplicate(msg: MsgId)
    | Upgrading(acknowledged: bool)
    | Closed

  datatype Event =
    | LoopWrite
    | WorkerWrite(worker: WorkerId)
    | CheckPassed
    | Swapped

  datatype Step =
    | ReadRequest(msg: MsgId)
    | RegisterRequest
    | RejectDuplicate
    | ReadBind(subject: Subject)
    | ReadAbandon(msg: MsgId)
    | ReadStartTLS(controlsOk: bool, hasValue: bool)
    | SendSuccess(ok: bool)
    | SwapTransport(ok: bool)
    | Write(worker: WorkerId)
    | Finish(worker: WorkerId)
    | Release(worker: WorkerId)
    | Close

  // ---------------------------------------------------------------------------
  // The log
  // ---------------------------------------------------------------------------

  /** The last passed check has not led to a swap yet. */
  ghost predicate MidUpgrade(log: seq<Event>)
    decreases |log|
  {
    log != [] &&
    match log[|log| - 1]
    case CheckPassed => true
    case Swapped => false
    case _ => MidUpgrade(log[..|log| - 1])
  }

  /** No worker writes between a passed check and the swap of the transport. */
  ghost predicate QuietUpgrades(log: seq<Event>) {
    forall i :: 0 <= i < |log| && log[i].WorkerWrite? ==> !MidUpgrade(log[..i])
  }

  lemma LogGrows(log: seq<Event>, e: Event)
    requires QuietUpgrades(log) && (e.WorkerWrite? ==> !MidUpgrade(log))
    ensures QuietUpgrades(log + [e])
    ensures MidUpgrade(log + [e]) <==> e == CheckPassed || (e != Swapped && MidUpgrade(log))
  {
    var l := log + [e];
    assert l[..|log|] == log;
    forall i | 0 <= i < |l| && l[i].WorkerWrite? ensures !MidUpgrade(l[..i]) {
      assert l[..i] == log[..i];
      if i == |log| { assert log[..i] == log; }
    }
  }

  /** Spelled out: a worker's write never falls between a passed check and the swap that follows it. */
  lemma {:induction false} NoWriteInBetween(log: seq<Event>, i: nat, j: nat, k: nat)
    requires QuietUpgrades(log) && i < j < k < |log| && log[i] == CheckPassed && log[k] == Swapped
    requires forall m :: i < m < k ==> log[m] != Swapped
    ensures !log[j].WorkerWrite?
  {
    StillMid(log, i, j);
  }

  lemma {:induction false} StillMid(log: seq<Event>, i: nat, j: nat)
    requires i < j <= |log| && log[i] == CheckPassed && forall m :: i < m < j ==> log[m] != Swapped
    ensures MidUpgrade(log[..j])
    decreases j - i
  {
    if j > i + 1 {
      StillMid(log, i, j - 1);
      assert log[..j][..j - 1] == log[..j - 1];
    }
  }

  // ---------------------------------------------------------------------------
  // The invariant
  // ---------------------------------------------------------------------------

  /** Tokens are conserved: one for every worker that is not gone, and one for a request being registered. */
  ghost predicate Conserved(used: nat, workers: map<WorkerId, Worker>, loop: Loop) {
    used == |workers| + if loop.Admitted? || loop.Duplicate? then 1 else 0
  }

  /** Every in-flight message ID belongs to the one worker that runs it. */
  ghost predicate Registered(inflight: map<MsgId, WorkerId>, workers: map<WorkerId, Worker>) {
    && (forall id :: id in inflight ==>
        inflight[id] in workers && workers[inflight[id]].msg == id && workers[inflight[id]].stage == Running)
    && forall w :: w in workers && workers[w].stage == Running ==>
        workers[w].msg in inflight && inflight[workers[w].msg] == w
  }

  /** Workers act as the subject that was bound when they were dispatched. */
  ghost predicate AsDispatched(workers: map<WorkerId, Worker>, dispatched: map<WorkerId, Subject>, started: nat) {
    && (forall w :: w in workers ==> w in dispatched && workers[w].subject == dispatched[w])
    && forall w :: w in dispatched ==> w < started
  }

  // ---------------------------------------------------------------------------
  // States and steps
  // ---------------------------------------------------------------------------

  datatype Config = Config(maxOutstanding: nat, allowStartTLS: bool)

  datatype State = State(
    used: nat, inflight: map<MsgId, WorkerId>, workers: map<WorkerId, Worker>, cancelled: set<WorkerId>,
    subject: Subject, isTLS: bool, loop: Loop, started: nat, dispatched: map<WorkerId, Subject>, log: seq<Event>)

  function Start(isTLS: bool): State { State(0, map[], map[], {}, "", isTLS, Reading, 0, map[], []) }

  ghost predicate Good(c: Config, s: State) {
    && s.used <= c.maxOutstanding && Conserved(s.used, s.workers, s.loop)
    && Registered(s.inflight, s.workers) && AsDispatched(s.workers, s.dispatched, s.started)
    && (s.loop.Upgrading? ==> s.inflight == map[] && !s.isTLS)
    && QuietUpgrades(s.log) && (s.loop.Upgrading? <==> MidUpgrade(s.log) && !s.loop.Closed?)
  }

  predicate Enabled(s: State, step: Step) {
    match step
    case RegisterRequest => s.loop.Admitted?
    case RejectDuplicate => s.loop.Duplicate?
    case SendSuccess(_) => s.loop == Upgrading(false)
    case SwapTransport(_) => s.loop == Upgrading(true)
    case Write(w) => w in s.workers && s.workers[w].stage == Running && !s.loop.Closed?
    case Finish(w) => w in s.workers && s.workers[w].stage == Running
    case Release(w) => w in s.workers && s.workers[w].stage == Unregistered
    case _ => s.loop.Reading?
  }

  function Log(s: State, e: Event): State { s.(log := s.log + [e]) }

  /** The gates of StartTLS, in order: controls, configuration, value, transport, outstanding operations. */
  predicate RefusesTLS(c: Config, s: State, controlsOk: bool, hasValue: bool) {
    !controlsOk || !c.allowStartTLS || hasValue || s.isTLS || s.inflight != map[]
  }

  /** A new worker runs, for the message and as the subject of now. */
  function Spawned(s: State, msg: MsgId): State {
    State(s.used, s.inflight[msg := s.started], s.workers[s.started := Worker(msg, s.subject, Running)], s.cancelled,
          s.subject, s.isTLS, Reading, s.started + 1, s.dispatched[s.started := s.subject], s.log)
  }

  /** One step of the read loop or of a worker; a step whose turn has not come changes nothing. */
  function Next(c: Config, s: State, step: Step): State {
    if !Enabled(s, step) then s
    else
      match step
      case ReadRequest(msg) => if s.used == c.maxOutstanding then Log(s, LoopWrite)
          else s.(used := s.used + 1, loop := Admitted(msg))
      case RegisterRequest => if s.loop.msg in s.inflight then s.(loop := Duplicate(s.loop.msg))
          else Spawned(s, s.loop.msg)
      case RejectDuplicate => Log(s, LoopWrite).(used := if s.used > 0 then s.used - 1 else 0, loop := Reading)
      case ReadBind(subject) => Log(s, LoopWrite).(subject := subject)
      case ReadAbandon(msg) => if msg in s.inflight then s.(cancelled := s.cancelled + {s.inflight[msg]}) else s
      case ReadStartTLS(controlsOk, hasValue) =>
        if RefusesTLS(c, s, controlsOk, hasValue) then Log(s, LoopWrite)
            else Log(s, CheckPassed).(loop := Upgrading(false))
      case SendSuccess(ok) => Log(s, LoopWrite).(loop := if ok then Upgrading(true) else Closed)
      case SwapTransport(ok) => Log(s, Swapped).(isTLS := true, loop := if ok then Reading else Closed)
      case Write(w) => Log(s, WorkerWrite(w))
      case Finish(w) =>
        s.(inflight := s.inflight - {s.workers[w].msg}, workers := s.workers[w := s.workers[w].(stage := Unregistered)])
      case Release(w) => s.(used := if s.used > 0 then s.used - 1 else 0, workers := s.workers - {w})
      case Close => s.(loop := Closed)
  }

  lemma NextAbandon(c: Config, s: State, msg: MsgId)
    requires s.loop.Reading?
    ensures Next(c, s, ReadAbandon(msg)) == if msg in s.inflight then s.(cancelled := s.cancelled + {s.inflight[msg]})
              else s
  {
  }

  lemma NextRegister(c: Config, s: State)
    requires s.loop.Admitted?
    ensures Next(c, s, RegisterRequest) == if s.loop.msg in s.inflight then s.(loop := Duplicate(s.loop.msg))
              else Spawned(s, s.loop.msg)
  {
  }

  /** Where a schedule leads. */
  function After(c: Config, s: State, schedule: seq<Step>): State {
    if schedule == [] then s else Next(c, After(c, s, schedule[..|schedule| - 1]), schedule[|schedule| - 1])
  }

  lemma StepKeeps(c: Config, s: State, step: Step)
    requires Good(c, s)
    ensures Good(c, Next(c, s, step))
  {
    if Enabled(s, step) {
      if step.RegisterRequest? {
        RegisterKeeps(c, s);
      } else if step.Finish? {
        FinishedKeeps(c, s, step.worker);
      } else if step.Release? {
        ReleasedKeeps(c, s, step.worker);
      } else {
        LoggedKeeps(c, s, step);
      }
    }
  }

  lemma LoggedKeeps(c: Config, s: State, step: Step)
    requires Good(c, s) && Enabled(s, step) && !step.RegisterRequest? && !step.Finish? && !step.Release?
    ensures Good(c, Next(c, s, step))
  {
    hide QuietUpgrades, MidUpgrade, Registered, AsDispatched;
    match step {
      case ReadStartTLS(_, _) =>
        LogGrows(s.log, LoopWrite);
        LogGrows(s.log, CheckPassed);
      case SwapTransport(_) => LogGrows(s.log, Swapped);
      case Write(w) =>
        RunningIsRegistered(s.inflight, s.workers, w);
        LogGrows(s.log, WorkerWrite(w));
      case _ => LogGrows(s.log, LoopWrite);
    }
  }

  lemma RegisterKeeps(c: Config, s: State)
    requires Good(c, s) && s.loop.Admitted?
    ensures Good(c, Next(c, s, RegisterRequest))
  {
    hide QuietUpgrades, MidUpgrade, Registered, AsDispatched;
    if s.loop.msg !in s.inflight {
      StartKeeps(s.inflight, s.workers, s.dispatched, s.started, s.loop.msg, s.subject);
    }
  }

  lemma FinishedKeeps(c: Config, s: State, w: WorkerId)
    requires Good(c, s) && Enabled(s, Finish(w))
    ensures Good(c, Next(c, s, Finish(w)))
  {
    hide QuietUpgrades, MidUpgrade, Registered, AsDispatched;
    FinishKeeps(s.inflight, s.workers, s.dispatched, s.started, w);
    RunningIsRegistered(s.inflight, s.workers, w);
  }

  lemma ReleasedKeeps(c: Config, s: State, w: WorkerId)
    requires Good(c, s) && Enabled(s, Release(w))
    ensures Good(c, Next(c, s, Release(w)))
  {
    hide QuietUpgrades, MidUpgrade, Registered, AsDispatched;
    ReleaseKeeps(s.inflight, s.workers, s.dispatched, s.started, w);
  }

  lemma RunningIsRegistered(inflight: map<MsgId, WorkerId>, workers: map<WorkerId, Worker>, w: WorkerId)
    requires Registered(inflight, workers) && w in workers && workers[w].stage == Running
    ensures inflight != map[]
  {
    assert workers[w].msg in inflight;
  }

  /** The invariant holds after every schedule, from the start of the connection. */
  lemma {:induction false} RunKeeps(c: Config, isTLS: bool, schedule: seq<Step>)
    ensures Good(c, After(c, Start(isTLS), schedule))
  {
    hide Next, Good;
    if schedule == [] {
      StartGood(c, isTLS);
    } else {
      RunKeeps(c, isTLS, schedule[..|schedule| - 1]);
      StepKeeps(c, After(c, Start(isTLS), schedule[..|schedule| - 1]), schedule[|schedule| - 1]);
    }
  }

  lemma StartGood(c: Config, isTLS: bool)
    ensures Good(c, Start(isTLS))
  {
  }

  /** Two running workers answer the same message ID. */
  predicate BothRun(v: Worker, w: Worker) { v.stage == w.stage == Running && v.msg == w.msg }

  /**
   * In every run: live workers stay below the ceiling, tokens are conserved, each
   * in-flight message ID has its one worker, workers keep the subject of their dispatch,
   * and none writes between a passed StartTLS check and the swap.
   */
  lemma EveryRun(c: Config, isTLS: bool, schedule: seq<Step>)
    ensures var s := After(c, Start(isTLS), schedule);
      && |s.workers| <= c.maxOutstanding && |s.inflight| <= |s.workers|
      && s.used == |s.workers| + (if s.loop.Admitted? || s.loop.Duplicate? then 1 else 0)
      && (forall id :: id in s.inflight ==> s.inflight[id] in s.workers && s.workers[s.inflight[id]].msg == id)
      && (forall v, w :: v in s.workers && w in s.workers && BothRun(s.workers[v], s.workers[w]) ==> v == w)
      && (forall w :: w in s.workers ==> w in s.dispatched && s.workers[w].subject == s.dispatched[w])
      && QuietUpgrades(s.log)
  {
    RunKeeps(c, isTLS, schedule);
    var s := After(c, Start(isTLS), schedule);
    InflightSize(s.inflight, s.workers);
    hide After, QuietUpgrades, MidUpgrade;
  }

  class Conn {
    const config: Config
    /** Tokens taken from the semaphore. */
    var used: nat
    var inflight: map<MsgId, WorkerId>
    var workers: map<WorkerId, Worker>
    var cancelled: set<WorkerId>
    var subject: Subject
    var isTLS: bool
    var loop: Loop
    var started: nat
    ghost var dispatched: map<WorkerId, Subject>
    ghost var log: seq<Event>

    constructor (config: Config, isTLS: bool)
      ensures Valid() && this.config == config && Now() == Start(isTLS)
    {
      this.config, this.isTLS := config, isTLS;
      used, inflight, workers, cancelled, subject, loop, started := 0, map[], map[], {}, "", Reading, 0;
      dispatched, log := map[], [];
      new;
      StartGood(config, isTLS);
    }

    ghost function Now(): State
      reads this
    {
      State(used, inflight, workers, cancelled, subject, isTLS, loop, started, dispatched, log)
    }

    ghost predicate Valid()
      reads this
    {
      Good(config, Now())
    }

    /** Live workers never exceed the ceiling; the inline operations take no token. */
    lemma CeilingHolds()
      requires Valid()
      ensures |workers| <= config.maxOutstanding && |inflight| <= |workers|
    {
      InflightSize(inflight, workers);
    }

    /** The start of spawnOp: a token, or a busy answer. */
    method Admit(msg: MsgId) returns (busy: bool)
      requires Valid() && loop.Reading?
      modifies this
      ensures Valid() && Now() == Next(config, old(Now()), ReadRequest(msg))
      ensures busy <==> old(used) == config.maxOutstanding
    {
      StepKeeps(config, Now(), ReadRequest(msg));
      hide Good;
      if used == config.maxOutstanding {
        log := log + [LoopWrite];
        return true;
      }
      used := used + 1;
      loop := Admitted(msg);
      busy := false;
    }

    /**
     * The rest of spawnOp: capture the subject, register the message ID, start the worker. A
     * duplicate ID starts none.
     */
    method Register() returns (dup: bool)
      requires Valid() && loop.Admitted?
      modifies this
      ensures Valid() && Now() == Next(config, old(Now()), RegisterRequest) && (dup <==> old(loop).msg in old(inflight))
      ensures !dup ==> workers == old(workers)[old(started) := Worker(old(loop).msg, old(subject), Running)]
    {
      hide Good, Next;
      StepKeeps(config, Now(), RegisterRequest);
      NextRegister(config, Now());
      var msg := loop.msg;
      if msg in inflight {
        loop := Duplicate(msg);
        return true;
      }
      inflight := inflight[msg := started];
      workers := workers[started := Worker(msg, subject, Running)];
      dispatched := dispatched[started := subject];
      started := started + 1;
      loop := Reading;
      dup := false;
    }

    method Reject()
      requires Valid() && loop.Duplicate?
      modifies this
      ensures Valid() && Now() == Next(config, old(Now()), RejectDuplicate) && used == old(used) - 1
    {
      StepKeeps(config, Now(), RejectDuplicate);
      used := used - 1;
      loop := Reading;
      log := log + [LoopWrite];
    }

    /** Bind runs on the read loop; workers already dispatched are not affected. */
    method Bind(s: Subject)
      requires Valid() && loop.Reading?
      modifies this
      ensures Valid() && Now() == Next(config, old(Now()), ReadBind(s)) && workers == old(workers)
    {
      StepKeeps(config, Now(), ReadBind(s));
      hide Good;
      subject := s;
      log := log + [LoopWrite];
    }

    /** Abandon cancels the worker that owns the message ID, if any. */
    method Abandon(msg: MsgId)
      requires Valid() && loop.Reading?
      modifies this
      ensures Valid() && Now() == Next(config, old(Now()), ReadAbandon(msg))
      ensures cancelled == if msg in old(inflight) then old(cancelled) + {old(inflight)[msg]} else old(cancelled)
    {
      hide Good, Next;
      StepKeeps(config, Now(), ReadAbandon(msg));
      NextAbandon(config, Now(), msg);
      if msg in inflight {
        cancelled := cancelled + {inflight[msg]};
      }
    }

    /** The gates of StartTLS, the outstanding check last. */
    method StartTLS(controlsOk: bool, hasValue: bool) returns (refused: bool)
      requires Valid() && loop.Reading?
      modifies this
      ensures Valid() && Now() == Next(config, old(Now()), ReadStartTLS(controlsOk, hasValue))
      ensures refused <==> !controlsOk || !config.allowStartTLS || hasValue || isTLS || old(inflight) != map[]
      ensures loop == if refused then Reading else Upgrading(false)
    {
      StepKeeps(config, Now(), ReadStartTLS(controlsOk, hasValue));
      hide Good;
      if !controlsOk {
        log := log + [LoopWrite];
        return true;
      }
      if !config.allowStartTLS || hasValue || isTLS || |inflight| > 0 {
        log := log + [LoopWrite];
        return true;
      }
      loop := Upgrading(false);
      log := log + [CheckPassed];
      refused := false;
    }

    /** The success response, still in the clear. */
    method Acknowledge(ok: bool)
      requires Valid() && loop == Upgrading(false)
      modifies this
      ensures Valid() && Now() == Next(config, old(Now()), SendSuccess(ok))
    {
      StepKeeps(config, Now(), SendSuccess(ok));
      hide Good;
      log := log + [LoopWrite];
      if !ok {
        loop := Closed;
        return;
      }
      loop := Upgrading(true);
    }

    /** upgradeTLS: the swap, then the handshake; a failed handshake closes the connection. */
    method Swap(ok: bool)
      requires Valid() && loop == Upgrading(true)
      modifies this
      ensures Valid() && Now() == Next(config, old(Now()), SwapTransport(ok)) && !old(isTLS) && isTLS
    {
      StepKeeps(config, Now(), SwapTransport(ok));
      isTLS := true;
      log := log + [Swapped];
      loop := if ok then Reading else Closed;
    }

    /** An unbind, a read error or a shutdown ends the read loop. */
    method Shut()
      requires Valid() && loop.Reading?
      modifies this
      ensures Valid() && Now() == Next(config, old(Now()), Close)
    {
      StepKeeps(config, Now(), Close);
      hide Good;
      loop := Closed;
    }

    /** A running worker writes a response or an entry. */
    method WorkerWrites(w: WorkerId)
      requires Valid() && Enabled(Now(), Write(w))
      modifies this
      ensures Valid() && Now() == Next(config, old(Now()), Write(w))
    {
      StepKeeps(config, Now(), Write(w));
      hide Good;
      log := log + [WorkerWrite(w)];
    }

    /** A worker's operation is over; it leaves the registry. */
    method WorkerFinishes(w: WorkerId)
      requires Valid() && Enabled(Now(), Finish(w))
      modifies this
      ensures Valid() && Now() == Next(config, old(Now()), Finish(w)) && used == old(used)
      ensures inflight == old(inflight) - {old(workers)[w].msg}
    {
      StepKeeps(config, Now(), Finish(w));
      hide Good;
      inflight := inflight - {workers[w].msg};
      workers := workers[w := workers[w].(stage := Unregistered)];
    }

    /** And gives its token back. */
    method WorkerReleases(w: WorkerId)
      requires Valid() && Enabled(Now(), Release(w))
      modifies this
      ensures Valid() && Now() == Next(config, old(Now()), Release(w)) && workers == old(workers) - {w}
      ensures used == old(used) - 1
    {
      StepKeeps(config, Now(), Release(w));
      hide QuietUpgrades, MidUpgrade;
      ReleaseKeeps(inflight, workers, dispatched, started, w);
      used := used - 1;
      workers := workers - {w};
    }

    /** Runs any schedule; a step that is not enabled when its turn comes is passed over. */
    method Run(schedule: seq<Step>)
      requires Valid()
      modifies this
      ensures Valid() && Now() == After(config, old(Now()), schedule)
    {
      hide Good;
      assert schedule[..0] == [];
      for i := 0 to |schedule|
        invariant Valid() && Now() == After(config, old(Now()), schedule[..i])
      {
        assert schedule[..i + 1][..i] == schedule[..i];
        Dispatch(schedule[i]);
      }
      assert schedule[..|schedule|] == schedule;
    }

    method Dispatch(step: Step)
      requires Valid()
      modifies this
      ensures Valid() && Now() == Next(config, old(Now()), step)
    {
      hide Good;
      match step {
        case ReadRequest(m) => if loop.Reading? { var busy := Admit(m); }
        case RegisterRequest => if loop.Admitted? { var dup := Register(); }
        case RejectDuplicate => if loop.Duplicate? { Reject(); }
        case ReadBind(s) => if loop.Reading? { Bind(s); }
        case ReadAbandon(m) => if loop.Reading? { Abandon(m); }
        case ReadStartTLS(c, v) => if loop.Reading? { var refused := StartTLS(c, v); }
        case SendSuccess(ok) => if loop == Upgrading(false) { Acknowledge(ok); }
        case SwapTransport(ok) => if loop == Upgrading(true) { Swap(ok); }
        case Write(w) => if w in workers && workers[w].stage == Running && !loop.Closed? { WorkerWrites(w); }
        case Finish(w) => if w in workers && workers[w].stage == Running { WorkerFinishes(w); }
        case Release(w) => if w in workers && workers[w].stage == Unregistered { WorkerReleases(w); }
        case Close => if loop.Reading? { Shut(); }
      }
    }
  }

  lemma InflightSize(inflight: map<MsgId, WorkerId>, workers: map<WorkerId, Worker>)
    requires Registered(inflight, workers)
    ensures |inflight| <= |workers|
  {
    IdsBound(inflight.Keys, inflight, workers, workers.Keys);
    assert |workers.Keys| == |workers| && |inflight.Keys| == |inflight|;
  }

  /** As many workers as message IDs, one by one. */
  lemma {:induction false} IdsBound(ids: set<MsgId>, inflight: map<MsgId, WorkerId>, workers: map<WorkerId, Worker>,
      ws: set<WorkerId>)
    requires Registered(inflight, workers) && ids <= inflight.Keys && ws <= workers.Keys
    requires forall id :: id in ids ==> inflight[id] in ws
    ensures |ids| <= |ws|
    decreases |ids|
  {
    if |ids| > 0 {
      var m :| m in ids;
      var w := inflight[m];
      forall j | j in ids - {m} ensures inflight[j] in ws - {w} {
        assert workers[inflight[j]].msg == j && workers[w].msg == m;
      }
      IdsBound(ids - {m}, inflight, workers, ws - {w});
    }
  }

  lemma StartKeeps(inflight: map<MsgId, WorkerId>, workers: map<WorkerId, Worker>, dispatched: map<WorkerId, Subject>,
      started: nat, msg: MsgId, s: Subject)
    requires Registered(inflight, workers) && AsDispatched(workers, dispatched, started) && msg !in inflight
    ensures started !in workers && |workers[started := Worker(msg, s, Running)]| == |workers| + 1
    ensures Registered(inflight[msg := started], workers[started := Worker(msg, s, Running)])
    ensures AsDispatched(workers[started := Worker(msg, s, Running)], dispatched[started := s], started + 1)
  {
    hide Registered;
    assert started !in workers;
    StartRegisters(inflight, workers, started, msg, s);
    OneMore(workers, started, Worker(msg, s, Running));
  }

  lemma OneMore(workers: map<WorkerId, Worker>, w: WorkerId, x: Worker)
    requires w !in workers
    ensures |workers[w := x]| == |workers| + 1
  {
    assert workers[w := x].Keys == workers.Keys + {w};
    assert |workers[w := x].Keys| == |workers[w := x]| && |workers.Keys| == |workers|;
  }

  lemma StartRegisters(inflight: map<MsgId, WorkerId>, workers: map<WorkerId, Worker>, w: WorkerId, msg: MsgId,
      s: Subject)
    requires Registered(inflight, workers) && w !in workers && msg !in inflight
    ensures Registered(inflight[msg := w], workers[w := Worker(msg, s, Running)])
  {
  }

  lemma FinishKeeps(inflight: map<MsgId, WorkerId>, workers: map<WorkerId, Worker>, dispatched: map<WorkerId, Subject>,
      started: nat, w: WorkerId)
    requires Registered(inflight, workers) && AsDispatched(workers, dispatched, started) && w in workers
    requires workers[w].stage == Running
    ensures var ws := workers[w := workers[w].(stage := Unregistered)];
      |ws| == |workers| && Registered(inflight - {workers[w].msg}, ws) && AsDispatched(ws, dispatched, started)
  {
    var ws := workers[w := workers[w].(stage := Unregistered)];
    assert ws.Keys == workers.Keys;
    assert |ws.Keys| == |ws| && |workers.Keys| == |workers|;
  }

  lemma ReleaseKeeps(inflight: map<MsgId, WorkerId>, workers: map<WorkerId, Worker>,
      dispatched: map<WorkerId, Subject>, started: nat, w: WorkerId)
    requires Registered(inflight, workers) && AsDispatched(workers, dispatched, started) && w in workers
    requires workers[w].stage == Unregistered
    ensures |workers - {w}| == |workers| - 1 && Registered(inflight, workers - {w})
    ensures AsDispatched(workers - {w}, dispatched, started)
  {
    var ws := workers - {w};
    assert workers.Keys == ws.Keys + {w};
    assert |ws.Keys| == |ws| && |workers.Keys| == |workers|;
  }
}
