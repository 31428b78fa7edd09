/** What holds over every sequence of admin requests. */
module AdminRuns {
  import opened Common
  import opened Config
  import opened Control
  import Enforcement

  datatype Event = Event(allowed: bool, req: AdminRequest, fault: Fault)

  function Serve(s: Setup, files: Files, events: seq<Event>): Files
    decreases |events|
  {
    if events == [] then files
    else Serve(s, Handled(s, files, events[0].allowed, events[0].req, events[0].fault).0, events[1..])
  }

  // ---- Denied operators -----------------------------------------------------------------

  /** Requests of operators who are not allowed leave no trace. */
  lemma {:induction false} DeniedChangesNothing(s: Setup, files: Files, events: seq<Event>)
    requires forall i :: 0 <= i < |events| ==> !events[i].allowed
    ensures Serve(s, files, events) == files
  {
    if events != [] {
      DeniedChangesNothing(s, files, events[1..]);
    }
  }

  // ---- The config file --------------------------------------------------------------------

  /** The config file is absent, or the daemon accepts it. */
  predicate ConfigOk(s: Setup, files: Files) {
    s.ConfigFile() in files ==> s.Load(files).Some?
  }

  /** The kill switch is another file than the config, temporary names included. */
  predicate Separate(s: Setup, cfg: Config) {
    s.resolve(cfg.killSwitchPath) != s.ConfigFile() && s.TmpFile(cfg.killSwitchPath) != s.ConfigFile()
  }

  predicate ConfigSeparate(s: Setup, files: Files) {
    ConfigOk(s, files) && (s.Load(files).Some? ==> Separate(s, s.Load(files).value))
  }

  /** Every configuration an allowed operator submits names a kill switch of its own. */
  predicate SubmitsSeparate(s: Setup, events: seq<Event>) {
    forall i :: 0 <= i < |events| && events[i].allowed && events[i].req.SetConfig? ==>
      var parsed := s.parse(events[i].req.toml);
      parsed.Some? ==> Separate(s, parsed.value)
  }

  lemma RequestKeepsConfig(s: Setup, files: Files, e: Event)
    requires ConfigSeparate(s, files) && s.TmpFile(s.configPath) != s.ConfigFile()
    requires SubmitsSeparate(s, [e])
    ensures ConfigSeparate(s, Handled(s, files, e.allowed, e.req, e.fault).0)
  {
    assert [e][0] == e;
  }

  /**
   The config file stays absent or valid over every sequence of requests, failing
   ones included, as long as no accepted configuration names the config file
   itself as its kill switch.
   */
  lemma {:induction false} ConfigStaysValid(s: Setup, files: Files, events: seq<Event>)
    requires ConfigSeparate(s, files) && s.TmpFile(s.configPath) != s.ConfigFile() && SubmitsSeparate(s, events)
    ensures ConfigSeparate(s, Serve(s, files, events))
    decreases |events|
  {
    if events != [] {
      var e := events[0];
      assert SubmitsSeparate(s, [e]);
      RequestKeepsConfig(s, files, e);
      ConfigStaysValid(s, Handled(s, files, e.allowed, e.req, e.fault).0, events[1..]);
    }
  }

  /**
   Pausing keeps the config valid exactly when the kill switch is another file than
   the config, however the two paths are spelled: a configuration that names itself
   passes validation, is accepted, and is overwritten by the marker on the first pause.
   */
  lemma PauseKeepsConfigExactlyWhen(s: Setup, files: Files)
    requires s.Load(files).Some? && s.parse(MARKER).None?
    requires var path := s.Load(files).value.killSwitchPath;
             ValidKillSwitchPath(path) && s.TmpFile(path) != s.ConfigFile()
    ensures ConfigOk(s, Handled(s, files, true, SetEnforcementPaused(true), NoFault).0)
            <==> s.resolve(s.Load(files).value.killSwitchPath) != s.ConfigFile()
  {
  }

  /** Paths with the same components are looked up alike. */
  ghost predicate LooksUpByComponents(s: Setup) {
    forall p: Path, q: Path :: IsAbsolute(p) && IsAbsolute(q) && Components(p) == Components(q)
      ==> s.resolve(p) == s.resolve(q)
  }

  lemma {:induction false} PiecesOfJoin(a: Path, b: Path)
    ensures Pieces(a + "/" + b) == Pieces(a) + Pieces(b)
    decreases |a|
  {
    if a == "" {
      assert a + "/" + b == "/" + b && ("/" + b)[1..] == b;
    } else {
      var joined := a + "/" + b;
      assert joined[0] == a[0] && joined[1..] == a[1..] + "/" + b;
      PiecesOfJoin(a[1..], b);
      assert Pieces(joined) == Extended(a[0], Pieces(a[1..]) + Pieces(b));
      ExtendedConcat(a[0], Pieces(a[1..]), Pieces(b));
    }
  }

  lemma ExtendedConcat(c: char, x: seq<string>, y: seq<string>)
    requires x != []
    ensures Extended(c, x + y) == Extended(c, x) + y
  {
    assert (x + y)[0] == x[0] && (x + y)[1..] == x[1..] + y;
  }

  lemma {:induction false} NamedOfConcat(a: seq<string>, b: seq<string>)
    ensures Named(a + b) == Named(a) + Named(b)
  {
    if a == [] {
      assert a + b == b;
    } else {
      assert (a + b)[1..] == a[1..] + b;
      NamedOfConcat(a[1..], b);
    }
  }

  /** A doubled slash makes no difference. */
  lemma DoubledSlash(a: Path, b: Path)
    ensures Components(a + "/" + ("/" + b)) == Components(a + "/" + b) == Components(a) + Components(b)
  {
    PiecesOfJoin(a, "/" + b);
    PiecesOfJoin(a, b);
    assert Pieces("/" + b) == [""] + Pieces(b) by {
      assert ("/" + b)[1..] == b;
    }
    assert Named(Pieces("/" + b)) == Named(Pieces(b)) by {
      assert ([""] + Pieces(b))[1..] == Pieces(b);
    }
    NamedOfConcat(Pieces(a), Pieces("/" + b));
    NamedOfConcat(Pieces(a), Pieces(b));
  }

  lemma {:induction false} PieceWithoutSlash(a: Path)
    requires '/' !in a
    ensures Pieces(a) == [a]
  {
    if a != "" {
      PieceWithoutSlash(a[1..]);
      assert [a[0]] + a[1..] == a;
    }
  }

  /** A file name, as in `config.toml`. */
  predicate IsFileName(name: Path) {
    name != "" && name != "." && '/' !in name
  }

  /** Any file below an absolute directory, the root included, can be a kill switch; a relative one cannot. */
  lemma FilesBelowTheRootAreUsable(dir: Path, name: Path)
    requires IsFileName(name)
    ensures ValidKillSwitchPath(dir + "/" + name) <==> dir == "" || IsAbsolute(dir)
  {
    PiecesOfJoin(dir, name);
    PieceWithoutSlash(name);
    NamedOfConcat(Pieces(dir), [name]);
    assert [name][1..] == [] && Named([name]) == [name] + Named([]);
    assert dir != "" ==> (dir + "/" + name)[0] == dir[0];
  }

  /** The root itself cannot, however it is spelled. */
  lemma {:induction false} TheRootIsNotUsable(slashes: nat)
    ensures Components(Slashes(slashes)) == [] && !ValidKillSwitchPath(Slashes(slashes))
  {
    if slashes > 0 {
      TheRootIsNotUsable(slashes - 1);
      assert Slashes(slashes)[1..] == Slashes(slashes - 1);
      var rest := Pieces(Slashes(slashes - 1));
      assert ([""] + rest)[1..] == rest;
    } else {
      assert [""][1..] == [];
    }
  }

  function Slashes(n: nat): Path {
    if n == 0 then "" else "/" + Slashes(n - 1)
  }

  /** Removing a directory takes what lies in it, and nothing whose name merely begins alike. */
  lemma OnlyWhatLiesInIt(dir: FileId, rest: string, c: char)
    ensures Under(dir + "/" + rest, dir) && (c != '/' ==> !Under(dir + [c] + rest, dir)) && !Under(dir, dir)
  {
    assert dir + "/" <= dir + "/" + rest;
    assert (dir + [c] + rest)[|dir|] == c && (dir + "/")[|dir|] == '/';
  }

  lemma SpelledTwiceIsValid(dir: Path, name: Path)
    requires IsAbsolute(dir) && IsFileName(name)
    ensures ValidKillSwitchPath(dir + "/" + ("/" + name))
  {
    DoubledSlash(dir, name);
    PieceWithoutSlash(name);
    assert Components(name) == [name] + Named([]);
  }

  /**
   So it is with `/etc/screentimed/config.toml`, or any other, when its kill switch
   is its own path with one slash doubled: another string, a valid one, but the same
   file, gone with the first pause.
   */
  lemma SelfNamedKillSwitchIsOverwritten(s: Setup, files: Files, dir: Path, name: Path)
    requires IsAbsolute(dir) && IsFileName(name) && s.configPath == dir + "/" + name && LooksUpByComponents(s)
    requires s.Load(files).Some? && s.Load(files).value.killSwitchPath == dir + "/" + ("/" + name)
    requires s.parse(MARKER).None? && s.TmpFile(dir + "/" + ("/" + name)) != s.ConfigFile()
    ensures s.Load(files).value.killSwitchPath != s.configPath
    ensures var (files', resp) := Handled(s, files, true, SetEnforcementPaused(true), NoFault);
            && resp == EnforcementState(true, dir + "/" + ("/" + name))
            && At(files', s.ConfigFile()) == Some(MARKER) && s.Load(files').None?
  {
    SpelledTwiceIsValid(dir, name);
    DoubledSlash(dir, name);
    assert |dir + "/" + ("/" + name)| == |dir + "/" + name| + 1;
  }

  /** A rejected text changes nothing; an accepted one is on file, word for word. */
  lemma SetConfigWritesExactlyValidText(s: Setup, files: Files, toml: string)
    requires s.TmpFile(s.configPath) != s.ConfigFile()
    ensures var (files', resp) := Handled(s, files, true, SetConfig(toml), NoFault);
            && (s.parse(toml).None? ==> files' == files && resp == Error)
            && (s.parse(toml).Some? ==> At(files', s.ConfigFile()) == Some(toml))
            && (resp == Error && files' != files
                ==> s.parse(toml).Some? && !ValidKillSwitchPath(s.parse(toml).value.killSwitchPath))
            && (Handled(s, files, true, ValidateConfig(toml), NoFault).1 == ValidationOk <==> s.parse(toml).Some?)
  {
  }

  /** What was set is read back: the text, the kill switch, and whether it is there. */
  lemma SetIsReadBack(s: Setup, files: Files, toml: string)
    requires s.parse(toml).Some? && ValidKillSwitchPath(s.parse(toml).value.killSwitchPath)
    requires s.TmpFile(s.configPath) != s.ConfigFile()
    ensures var (files', resp) := Handled(s, files, true, SetConfig(toml), NoFault);
            && resp == EnforcementState(Paused(s, files', s.parse(toml).value), s.parse(toml).value.killSwitchPath)
            && Handled(s, files', true, ReloadDaemon, NoFault) == (files', Done)
            && Handled(s, files', true, GetEnforcementState, NoFault) == (files', resp)
            && Handled(s, files', true, GetConfig, NoFault)
               == (files', ConfigText(toml, resp.paused, resp.killSwitchPath))
  {
  }

  /** The configuration can be read and its kill switch looked at. */
  predicate Readable(s: Setup, files: Files) {
    s.Load(files).Some? && ValidKillSwitchPath(s.Load(files).value.killSwitchPath)
  }

  /** Each request succeeds exactly when what it needs is there. */
  lemma SucceedsExactlyWhen(s: Setup, files: Files, toml: string, paused: bool)
    ensures (Handled(s, files, true, ReloadDaemon, NoFault).1 == Error <==> s.Load(files).None?)
    ensures (Handled(s, files, true, GetConfig, NoFault).1 == Error <==> !Readable(s, files))
    ensures (Handled(s, files, true, GetEnforcementState, NoFault).1 == Error <==> !Readable(s, files))
    ensures (Handled(s, files, true, SetEnforcementPaused(paused), NoFault).1 == Error <==> !Readable(s, files))
    ensures (Handled(s, files, true, ValidateConfig(toml), NoFault).1 == Error <==> s.parse(toml).None?)
    ensures Handled(s, files, true, GetDaemonInfo, NoFault).1 != Error
  {
  }

  /**
   An uninstall is the system daemon's alone, succeeds unless a removal fails, and
   then leaves no socket, no state and, unless kept, no configuration; the rest stays.
   */
  lemma UninstallRemovesExactly(s: Setup, files: Files, preserveConfig: bool, file: FileId)
    ensures var (files', resp) := Handled(s, files, true, PrepareUninstall(preserveConfig), NoFault);
            if !s.IsSystem() then files' == files && resp == Error
            else
              && resp == Done
              && (file in files' <==>
                    && file in files && file != s.resolve(SOCKET_PATH) && !Under(file, s.resolve(STATE_DIR))
                    && (!preserveConfig ==> !Under(file, s.resolve(CONFIG_DIR))))
              && (file in files' ==> files'[file] == files[file])
  {
  }

  // ---- Pausing -------------------------------------------------------------------------------

  /** A pause that is confirmed is in force, and an unpause that is confirmed is not. */
  lemma ConfirmedMeansDone(s: Setup, files: Files, paused: bool, fault: Fault)
    requires var (files', resp) := Handled(s, files, true, SetEnforcementPaused(paused), fault);
             resp.EnforcementState?
    ensures var (files', resp) := Handled(s, files, true, SetEnforcementPaused(paused), fault);
            s.Load(files).Some? && resp.killSwitchPath == s.Load(files).value.killSwitchPath
            && (s.resolve(resp.killSwitchPath) in files' <==> paused) && resp.paused == paused
  {
  }

  /** Pausing and then unpausing gives back the files as they were. */
  lemma UnpauseUndoesPause(s: Setup, files: Files)
    requires s.Load(files).Some? && Separate(s, s.Load(files).value)
    requires var path := s.Load(files).value.killSwitchPath;
             ValidKillSwitchPath(path) && s.resolve(path) !in files && s.TmpFile(path) !in files
    ensures var files1 := Handled(s, files, true, SetEnforcementPaused(true), NoFault).0;
            Handled(s, files1, true, SetEnforcementPaused(false), NoFault).0 == files
  {
    var file := s.resolve(s.Load(files).value.killSwitchPath);
    var files1 := Handled(s, files, true, SetEnforcementPaused(true), NoFault).0;
    assert files1 == files[file := MARKER];
    assert s.Load(files1) == s.Load(files);
    assert files1 - {file} == files;
  }

  /** No temporary file is ever this one. */
  ghost predicate NeverTemporary(s: Setup, file: FileId) {
    forall p: Path :: s.TmpFile(p) != file
  }

  /** The request neither unpauses nor uninstalls this file. */
  predicate LeavesSwitchAlone(s: Setup, e: Event, file: FileId) {
    e.allowed ==>
      && e.req != SetEnforcementPaused(false)
      && (e.req.PrepareUninstall? && s.IsSystem() ==>
            && file != s.resolve(SOCKET_PATH) && !Under(file, s.resolve(STATE_DIR))
            && (!e.req.preserveConfig ==> !Under(file, s.resolve(CONFIG_DIR))))
  }

  /**
   Once the kill switch exists it exists at every later point, whatever else
   operators ask for, new configurations and failing writes included, until an
   unpause or an uninstall that covers it.
   */
  lemma {:induction false} PauseLasts(s: Setup, files: Files, events: seq<Event>, file: FileId)
    requires file in files && NeverTemporary(s, file)
    requires forall i :: 0 <= i < |events| ==> LeavesSwitchAlone(s, events[i], file)
    ensures file in Serve(s, files, events)
    decreases |events|
  {
    if events != [] {
      var e := events[0];
      RequestKeepsSwitch(s, files, e, file);
      PauseLasts(s, Handled(s, files, e.allowed, e.req, e.fault).0, events[1..], file);
    }
  }

  lemma RequestKeepsSwitch(s: Setup, files: Files, e: Event, file: FileId)
    requires file in files && NeverTemporary(s, file) && LeavesSwitchAlone(s, e, file)
    ensures file in Handled(s, files, e.allowed, e.req, e.fault).0
  {
    assert s.TmpFile(s.configPath) != file;
    if s.Load(files).Some? {
      assert s.TmpFile(s.Load(files).value.killSwitchPath) != file;
    }
  }

  // ---- Enforcement while paused ----------------------------------------------------------------

  /** What happens next: an operator's request, or a pass by a daemon run with this configuration. */
  datatype Turn = Ask(event: Event) | Enforce(cfg: Config, active: set<Name>, counters: map<Name, U32>)

  /** The requests among these turns, in order. */
  function Requests(turns: seq<Turn>): seq<Event> {
    if turns == [] then []
    else (if turns[0].Ask? then [turns[0].event] else []) + Requests(turns[1..])
  }

  function PassCount(turns: seq<Turn>): nat {
    if turns == [] then 0 else (if turns[0].Enforce? then 1 else 0) + PassCount(turns[1..])
  }

  /** No request takes the switch away, and every pass looks at this very switch. */
  predicate TurnsLeaveSwitch(s: Setup, turns: seq<Turn>, file: FileId) {
    forall i :: 0 <= i < |turns| ==>
      match turns[i]
      case Ask(e) => LeavesSwitchAlone(s, e, file)
      case Enforce(cfg, _, _) => s.resolve(cfg.killSwitchPath) == file
  }

  /**
   Each of the world's checks from `from` on looks for the switch at some point of
   the run: before or after any number of its requests.
   */
  ghost predicate ChecksDuring(s: Setup, files: Files, events: seq<Event>, file: FileId,
                               world: Enforcement.World, from: nat) {
    forall n: nat :: n >= from ==> exists k: nat ::
      k <= |events| && world.killSwitch(n) == (file in Serve(s, files, events[..k]))
  }

  lemma {:induction false} RequestsLeaveSwitch(s: Setup, turns: seq<Turn>, file: FileId)
    requires TurnsLeaveSwitch(s, turns, file)
    ensures forall i :: 0 <= i < |Requests(turns)| ==> LeavesSwitchAlone(s, Requests(turns)[i], file)
  {
    if turns != [] {
      assert TurnsLeaveSwitch(s, turns[1..], file);
      RequestsLeaveSwitch(s, turns[1..], file);
      assert turns[0].Ask? ==> LeavesSwitchAlone(s, turns[0].event, file);
    }
  }

  lemma ChecksFindSwitch(s: Setup, files: Files, events: seq<Event>, file: FileId,
                         world: Enforcement.World, from: nat)
    requires file in files && NeverTemporary(s, file) && ChecksDuring(s, files, events, file, world, from)
    requires forall i :: 0 <= i < |events| ==> LeavesSwitchAlone(s, events[i], file)
    ensures AlwaysPresent(world, from)
  {
    forall n: nat | n >= from
      ensures world.killSwitch(n)
    {
      var k: nat :| k <= |events| && world.killSwitch(n) == (file in Serve(s, files, events[..k]));
      PauseLasts(s, files, events[..k], file);
    }
  }

  /** Every check from this one on finds the switch. */
  ghost predicate AlwaysPresent(world: Enforcement.World, from: nat) {
    forall n: nat :: n >= from ==> world.killSwitch(n)
  }

  /** The files after one turn. */
  function AfterTurn(s: Setup, files: Files, turn: Turn): Files {
    match turn
    case Ask(e) => Handled(s, files, e.allowed, e.req, e.fault).0
    case Enforce(_, _, _) => files
  }

  lemma TurnsFrom(s: Setup, files: Files, turns: seq<Turn>, i: nat)
    requires i < |turns|
    ensures Serve(s, files, Requests(turns[i..])) == Serve(s, AfterTurn(s, files, turns[i]), Requests(turns[i + 1..]))
    ensures PassCount(turns[i..]) == (if turns[i].Enforce? then 1 else 0) + PassCount(turns[i + 1..])
  {
    assert turns[i..][0] == turns[i] && turns[i..][1..] == turns[i + 1..];
    var rest := Requests(turns[i + 1..]);
    if turns[i].Ask? {
      assert ([turns[i].event] + rest)[1..] == rest;
    } else {
      assert [] + rest == rest;
    }
  }

  method TakeTurn(controller: Controller, turn: Turn, enforcer: Enforcement.Enforcer, world: Enforcement.World)
    requires enforcer.Valid(world.clock)
    requires AlwaysPresent(world, world.checks)
    modifies controller.fs, enforcer, world
    ensures enforcer.Valid(world.clock) && old(world.checks) <= world.checks
    ensures world.ops == old(world.ops) && old(enforcer.log) <= enforcer.log
    ensures Enforcement.AllRefused(enforcer.log, |old(enforcer.log)|)
    ensures |enforcer.passes| == |old(enforcer.passes)| + if turn.Enforce? then 1 else 0
    ensures controller.fs.files == AfterTurn(controller.setup, old(controller.fs.files), turn)
  {
    match turn {
      case Ask(e) =>
        var resp := controller.Handle(e.allowed, e.req, e.fault);
      case Enforce(cfg, active, counters) =>
        ghost var checks := world.checks;
        enforcer.Step(cfg, active, counters, world);
        assert Enforcement.AllPaused(world, checks, world.checks);
    }
  }

  /**
   Once the switch exists, any number of passes, in any order with requests that
   leave it alone and whatever fails in those, calls no logout tool at all.
   */
  method RunTurns(controller: Controller, turns: seq<Turn>, enforcer: Enforcement.Enforcer,
                  world: Enforcement.World, ghost file: FileId)
    requires enforcer.Valid(world.clock) && file in controller.fs.files && NeverTemporary(controller.setup, file)
    requires TurnsLeaveSwitch(controller.setup, turns, file)
    requires ChecksDuring(controller.setup, controller.fs.files, Requests(turns), file, world, world.checks)
    modifies controller.fs, enforcer, world
    ensures enforcer.Valid(world.clock)
    ensures world.ops == old(world.ops)
    ensures Enforcement.AllRefused(enforcer.log, |old(enforcer.log)|)
    ensures |enforcer.passes| == |old(enforcer.passes)| + PassCount(turns)
    ensures controller.fs.files == Serve(controller.setup, old(controller.fs.files), Requests(turns))
    ensures file in controller.fs.files
  {
    ghost var s, files, checks := controller.setup, controller.fs.files, world.checks;
    RequestsLeaveSwitch(s, turns, file);
    ChecksFindSwitch(s, files, Requests(turns), file, world, checks);
    PauseLasts(s, files, Requests(turns), file);
    var i := 0;
    assert turns[0..] == turns;
    while i < |turns|
      invariant 0 <= i <= |turns| && enforcer.Valid(world.clock) && checks <= world.checks
      invariant world.ops == old(world.ops) && old(enforcer.log) <= enforcer.log
      invariant Enforcement.AllRefused(enforcer.log, |old(enforcer.log)|)
      invariant |enforcer.passes| + PassCount(turns[i..]) == |old(enforcer.passes)| + PassCount(turns)
      invariant Serve(s, controller.fs.files, Requests(turns[i..])) == Serve(s, files, Requests(turns))
    {
      ghost var log, before := enforcer.log, controller.fs.files;
      TakeTurn(controller, turns[i], enforcer, world);
      RefusedFurther(log, enforcer.log, |old(enforcer.log)|);
      TurnsFrom(s, before, turns, i);
      i := i + 1;
    }
    assert turns[i..] == [];
  }

  lemma RefusedFurther(log: seq<Enforcement.Act>, log': seq<Enforcement.Act>, from: nat)
    requires from <= |log| && log <= log'
    requires Enforcement.AllRefused(log, from) && Enforcement.AllRefused(log', |log|)
    ensures Enforcement.AllRefused(log', from)
  {
    forall i | from <= i < |log'|
      ensures log'[i].outcome.Refused?
    {
      assert i < |log| ==> log'[i] == log[i];
    }
  }

  /**
   The running daemon checks the very file the controller writes. One confirmed
   pause, whatever follows it: passes interleaved with any requests but an unpause
   or an uninstall of the switch call no logout tool.
   */
  method PauseThenRun(controller: Controller, fault: Fault, turns: seq<Turn>, enforcer: Enforcement.Enforcer,
                      world: Enforcement.World, cfg: Config) returns (resp: AdminResponse)
    requires enforcer.Valid(world.clock) && controller.setup.Load(controller.fs.files) == Some(cfg)
    requires var s, file := controller.setup, controller.setup.resolve(cfg.killSwitchPath);
             && NeverTemporary(s, file) && TurnsLeaveSwitch(s, turns, file)
             && ChecksDuring(s, Handled(s, controller.fs.files, true, SetEnforcementPaused(true), fault).0,
                             Requests(turns), file, world, world.checks)
    modifies controller.fs, enforcer, world
    ensures enforcer.Valid(world.clock)
    ensures resp.EnforcementState? ==>
              && world.ops == old(world.ops)
              && Enforcement.AllRefused(enforcer.log, |old(enforcer.log)|)
              && |enforcer.passes| == |old(enforcer.passes)| + PassCount(turns)
              && controller.setup.resolve(cfg.killSwitchPath) in controller.fs.files
  {
    resp := controller.Handle(true, SetEnforcementPaused(true), fault);
    if resp.EnforcementState? {
      RunTurns(controller, turns, enforcer, world, controller.setup.resolve(cfg.killSwitchPath));
    }
  }
}
