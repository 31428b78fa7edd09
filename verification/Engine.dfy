/**
 The daemon as an interleaved step system (crates/daemon/src/main.rs and the
 subscription loop of ipc.rs). Two tasks, the ticker and the midnight resetter,
 share one locked `State`; each saves a clone of it outside the lock and wakes
 the subscribers through a bounded broadcast. A schedule is any sequence of
 actions: an action whose task is not at the right point is skipped, so
 `Exec` ranges over every interleaving, crash and restart.

 Opening `<path>.tmp`, filling it and renaming it over `<path>` are separate
 steps, each of which can fail; see `Storage` for what they do to the files.
 */
module Engine {
  import opened Common
  import opened Config
  import opened Counters
  import opened History
  import opened Storage

  // ---- Tasks ----------------------------------------------------------------

  datatype Task = TickerTask | ResetterTask

  /** Progress of one `save_atomic`. */
  datatype Save = Pending | Opened(fd: nat) | Filled

  datatype Ticker =
    | TickerIdle
    | TickerPolled(active: set<Name>)
    | TickerDated(active: set<Name>, today: Date)
    | TickerSaving(active: set<Name>, snap: View, save: Save)
    | TickerSending(active: set<Name>, snap: View)
    | TickerEnforcing(active: set<Name>, snap: View)

  datatype Resetter =
    | ResetterIdle
    | ResetterDated(today: Date)
    | ResetterSaving(rolled: bool, snap: View, save: Save)
    | ResetterSending

  /** How many messages the broadcast retains. */
  const TICK_BROADCAST_CAPACITY: nat := 64

  /** The broadcast still holds message `i` after `sent` messages. */
  predicate Retained(sent: nat, i: nat) {
    i < sent <= i + TICK_BROADCAST_CAPACITY
  }

  /**
   `Minted`: the receiver exists, nothing computed yet. `Woken`: a message or a
   lag notice arrived. `Waiting`: the last computed view is on the wire.
   */
  datatype Phase = Minted | Woken | Waiting

  datatype Subscriber = Subscriber(name: Name, next: nat, phase: Phase, used: U32, active: bool)

  /** Bookkeeping that no task reads. */
  datatype Trail = Trail(
    base: View,           // what the last start loaded
    log: seq<Section>,    // locked sections since then
    ticked: nat,          // length of `log` just after the last ticker section
    cloned: set<View>,    // every view a locked section ever cloned
    solo: bool,           // the ticker's current save has not met a resetter save
    clean: bool,          // the state file is the ticker's, no resetter section since
    unsaved: nat,         // ticker sections since the one on file
    failed: nat,          // failed ticker saves since the last successful one
    unfinished: set<nat>) // files that hold no whole document, going by lengths

  /** The locked sections up to and including the latest ticker section. */
  function TickerLog(t: Trail): seq<Section> {
    if t.ticked <= |t.log| then t.log[..t.ticked] else t.log
  }

  datatype System = System(
    d: U32,
    mem: View,
    ticker: Ticker,
    resetter: Resetter,
    disk: Disk,
    sent: nat,
    subs: map<nat, Subscriber>,
    trail: Trail)

  datatype Action =
    | Poll(active: set<Name>)
    | TickerReadDate(today: Date)
    | TickerLock
    | ResetterReadDate(today: Date)
    | ResetterLock
    | OpenTmp(who: Task, ok: bool)
    | FillTmp(who: Task, cut: Option<nat>)
    | RenameTmp(who: Task, ok: bool)
    | TickerSend
    | ResetterSend
    | Enforce
    | Subscribe(id: nat, name: Name)
    | Compute(id: nat)
    | Receive(id: nat)
    | Close(id: nat)
    | Restart(today: Date, active: set<Name>)

  // ---- Steps ----------------------------------------------------------------

  function SaveOf(s: System, who: Task): Option<(View, Save)> {
    match who
    case TickerTask =>
      if s.ticker.TickerSaving? then Some((s.ticker.snap, s.ticker.save)) else None
    case ResetterTask =>
      if s.resetter.ResetterSaving? then Some((s.resetter.snap, s.resetter.save)) else None
  }

  /** The task has the temporary file open or filled. */
  predicate InWindow(s: System, who: Task) {
    SaveOf(s, who).Some? && !SaveOf(s, who).value.1.Pending?
  }

  function WithSave(s: System, who: Task, save: Save): System
    requires SaveOf(s, who).Some?
  {
    match who
    case TickerTask => s.(ticker := s.ticker.(save := save))
    case ResetterTask => s.(resetter := s.resetter.(save := save))
  }

  /** `save_atomic` returned: the ticker always sends, the resetter if it rolled. */
  function SaveDone(s: System, who: Task, saved: bool): System
    requires SaveOf(s, who).Some?
  {
    match who
    case TickerTask =>
      s.(ticker := TickerSending(s.ticker.active, s.ticker.snap),
         trail := if saved
                  then s.trail.(clean := s.trail.solo, unsaved := 0, failed := 0)
                  else s.trail.(failed := s.trail.failed + 1))
    case ResetterTask =>
      s.(resetter := if s.resetter.rolled then ResetterSending else ResetterIdle)
  }

  function Lock(s: System, e: Section): System {
    var mem := After(s.mem, e, s.d);
    s.(mem := mem,
       trail := s.trail.(log := s.trail.log + [e], cloned := s.trail.cloned + {Persisted(mem)}))
  }

  function LockTicker(s: System): System
    requires s.ticker.TickerDated?
  {
    var s' := Lock(s, Section(s.ticker.today, Some(s.ticker.active)));
    s'.(ticker := TickerSaving(s.ticker.active, s'.mem, Pending),
        trail := s'.trail.(ticked := |s'.trail.log|, solo := false, unsaved := s'.trail.unsaved + 1))
  }

  function LockResetter(s: System): System
    requires s.resetter.ResetterDated?
  {
    var s' := Lock(s, Section(s.resetter.today, None));
    s'.(resetter := ResetterSaving(s.mem.day != Some(s.resetter.today), s'.mem, Pending),
        trail := s'.trail.(solo := false, clean := false))
  }

  function OpenStep(s: System, who: Task, ok: bool): System
    requires s.disk.Valid() && SaveOf(s, who).Some?
  {
    if !ok then SaveDone(s, who, false)
    else
      var (disk, fd) := s.disk.Open();
      var s' := WithSave(s, who, Opened(fd)).(disk := disk);
      s'.(trail := s'.trail.(unfinished := s.trail.unfinished + {fd},
                             solo := if who == TickerTask then !s.resetter.ResetterSaving? else s.trail.solo))
  }

  /** A write, complete or cut short; only a complete one goes on to the rename. */
  function FillStep(s: System, who: Task, cut: Option<nat>): System
    requires SaveOf(s, who).Some? && SaveOf(s, who).value.1.Opened?
    requires SaveOf(s, who).value.1.fd < |s.disk.nodes|
  {
    var (snap, save) := SaveOf(s, who).value;
    var s' := s.(disk := s.disk.Fill(save.fd, snap, cut),
                 trail := s.trail.(unfinished := UnfinishedAfter(s, save.fd, snap, cut)));
    if cut.None? then WithSave(s', who, Filled) else SaveDone(s', who, false)
  }

  /** Whether a written file is finished, by the lengths of what was there and of what came. */
  function UnfinishedAfter(s: System, fd: nat, snap: View, cut: Option<nat>): set<nat>
    requires fd < |s.disk.nodes|
  {
    var n, k := |s.disk.codec.encode(snap)|, s.disk.Reach(snap, cut);
    if k == 0 then s.trail.unfinished
    else if n <= k && Covers(n, s.disk.nodes[fd]) then s.trail.unfinished - {fd}
    else s.trail.unfinished + {fd}
  }

  function UnfinishedIn(disk: Disk): set<nat> {
    set i: nat | i < |disk.nodes| && disk.ViewAt(i).None?
  }

  function RenameStep(s: System, who: Task, ok: bool): System
    requires SaveOf(s, who).Some?
  {
    if ok && s.disk.tmp.Some?
    then SaveDone(s.(disk := s.disk.Rename()), who, true)
    else SaveDone(s, who, false)
  }

  /** `Sender::subscribe`: the receiver starts at the tail. */
  function MintReceiver(s: System, name: Name): Subscriber {
    Subscriber(name, s.sent, Minted, 0, false)
  }

  /** The locked read of `compute_status`. */
  function Computed(sub: Subscriber, mem: View): Subscriber {
    sub.(phase := Waiting, used := Used(mem, sub.name), active := IsActive(mem, sub.name))
  }

  /**
   `Receiver::recv` with a message or a lag notice: a receiver that fell behind
   the retained window is told once and continues at the oldest retained message.
   */
  function Received(sub: Subscriber, sent: nat): Subscriber {
    if sub.next + TICK_BROADCAST_CAPACITY < sent
    then sub.(phase := Woken, next := sent - TICK_BROADCAST_CAPACITY)
    else sub.(phase := Woken, next := sub.next + 1)
  }

  /** A crash, then the start-up order of `main`: load, day check, console query. */
  function Restarted(s: System, today: Date, active: set<Name>): System
    requires s.disk.Valid()
  {
    Boot(s.d, s.disk, s.trail.cloned, today, active)
  }

  function Boot(d: U32, disk: Disk, cloned: set<View>, today: Date, active: set<Name>): System
    requires disk.Valid()
  {
    var base := disk.Load().(active := active);
    var log := [Section(today, None)];
    System(d, Rolled(base, today), TickerIdle, ResetterIdle, disk, 0, map[],
           Trail(base, log, 0, cloned, false, false, 0, 0, UnfinishedIn(disk)))
  }

  predicate Enabled(s: System, a: Action) {
    match a
    case Poll(_) => s.ticker.TickerIdle?
    case TickerReadDate(_) => s.ticker.TickerPolled?
    case TickerLock => s.ticker.TickerDated?
    case ResetterReadDate(_) => s.resetter.ResetterIdle?
    case ResetterLock => s.resetter.ResetterDated?
    case OpenTmp(who, _) => SaveOf(s, who).Some? && SaveOf(s, who).value.1.Pending?
    case FillTmp(who, _) => SaveOf(s, who).Some? && SaveOf(s, who).value.1.Opened?
    case RenameTmp(who, _) => SaveOf(s, who).Some? && SaveOf(s, who).value.1.Filled?
    case TickerSend => s.ticker.TickerSending?
    case ResetterSend => s.resetter.ResetterSending?
    case Enforce => s.ticker.TickerEnforcing?
    case Subscribe(id, _) => id !in s.subs
    case Compute(id) => id in s.subs && !s.subs[id].phase.Waiting?
    case Receive(id) => id in s.subs && s.subs[id].phase.Waiting? && s.subs[id].next < s.sent
    case Close(id) => id in s.subs
    case Restart(_, _) => true
  }

  /** The parts of the state that the step functions rely on. */
  predicate WellFormed(s: System) {
    && s.disk.Valid()
    && HandleValid(s, TickerTask) && HandleValid(s, ResetterTask)
  }

  predicate HandleValid(s: System, who: Task) {
    SaveOf(s, who).Some? && SaveOf(s, who).value.1.Opened?
    ==> SaveOf(s, who).value.1.fd < |s.disk.nodes|
  }

  function Apply(s: System, a: Action): (s': System)
    requires WellFormed(s)
    ensures WellFormed(s')
  {
    if !Enabled(s, a) then s
    else
      match a
      case Poll(active) => s.(ticker := TickerPolled(active))
      case TickerReadDate(today) => s.(ticker := TickerDated(s.ticker.active, today))
      case TickerLock => LockTicker(s)
      case ResetterReadDate(today) => s.(resetter := ResetterDated(today))
      case ResetterLock => LockResetter(s)
      case OpenTmp(who, ok) => OpenStep(s, who, ok)
      case FillTmp(who, cut) => FillStep(s, who, cut)
      case RenameTmp(who, ok) => RenameStep(s, who, ok)
      case TickerSend =>
        s.(ticker := TickerEnforcing(s.ticker.active, s.ticker.snap), sent := s.sent + 1)
      case ResetterSend => s.(resetter := ResetterIdle, sent := s.sent + 1)
      case Enforce => s.(ticker := TickerIdle)
      case Subscribe(id, name) => s.(subs := s.subs[id := MintReceiver(s, name)])
      case Compute(id) => s.(subs := s.subs[id := Computed(s.subs[id], s.mem)])
      case Receive(id) => s.(subs := s.subs[id := Received(s.subs[id], s.sent)])
      case Close(id) => s.(subs := s.subs - {id})
      case Restart(today, active) => Restarted(s, today, active)
  }

  /** The state a schedule leads to. */
  function Exec(s: System, acts: seq<Action>): (s': System)
    requires WellFormed(s)
    ensures WellFormed(s')
    decreases |acts|
  {
    if acts == [] then s else Exec(Apply(s, acts[0]), acts[1..])
  }

  lemma CodecStays(s: System, a: Action)
    requires WellFormed(s)
    ensures Apply(s, a).disk.codec == s.disk.codec
  {
  }

  /** A write that fails part-way leaves no bytes of another task's text behind its own. */
  predicate SafeStep(s: System, a: Action)
    requires WellFormed(s)
  {
    a.FillTmp? && Enabled(s, a) ==>
      var (snap, save) := SaveOf(s, a.who).value;
      s.disk.SafeFill(save.fd, snap, a.cut)
  }

  predicate SafeFills(s: System, acts: seq<Action>)
    requires WellFormed(s)
    decreases |acts|
  {
    acts != [] ==> SafeStep(s, acts[0]) && SafeFills(Apply(s, acts[0]), acts[1..])
  }
}
