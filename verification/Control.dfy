/**
 The admin controller (crates/daemon/src/control/mod.rs) over a small file
 system. TOML text is opaque: `parse` stands for `Config::parse_toml`. Two paths
 can name one file: `resolve` stands for how the system looks a path up.
 */
module Control {
  import opened Common
  import opened Config

  /** A file's one true path. */
  type FileId = string

  type Files = map<FileId, string>

  /** `/etc/screentimed/config.toml`, as paths are compared. */
  const SYSTEM_CONFIG: seq<string> := ["etc", "screentimed", "config.toml"]
  const MARKER: string := "disabled by Konstantin operator\n"

  datatype AdminRequest =
    | GetConfig
    | ValidateConfig(toml: string)
    | SetConfig(toml: string)
    | ReloadDaemon
    | GetDaemonInfo
    | GetEnforcementState
    | SetEnforcementPaused(paused: bool)
    | PrepareUninstall(preserveConfig: bool)

  datatype AdminResponse =
    | ConfigText(toml: string, enforcementPaused: bool, killSwitchPath: Path)
    | ValidationOk
    | DaemonInfo
    | EnforcementState(paused: bool, killSwitchPath: Path)
    | Done
    | Unauthorized
    | Error

  /** The one file operation of a request that fails, if any. */
  datatype Fault =
    | NoFault
    | MkdirFails
    | WriteFails(partial: string)
    | TmpChmodFails
    | RenameFails
    | ChmodFails
    | RemoveFails(nth: nat)

  // ---- Paths --------------------------------------------------------------------------

  /** The pieces of a path between slashes. */
  function Pieces(path: Path): (pieces: seq<string>)
    ensures pieces != []
  {
    if path == "" then [""]
    else Extended(path[0], Pieces(path[1..]))
  }

  /** The pieces with one more character in front. */
  function Extended(c: char, pieces: seq<string>): (longer: seq<string>)
    requires pieces != []
    ensures longer != []
  {
    if c == '/' then [""] + pieces else [[c] + pieces[0]] + pieces[1..]
  }

  /** Empty pieces and dots name nothing. */
  function Named(pieces: seq<string>): seq<string> {
    if pieces == [] then []
    else (if pieces[0] == "" || pieces[0] == "." then [] else [pieces[0]]) + Named(pieces[1..])
  }

  /** `Path::components` of an absolute path. */
  function Components(path: Path): seq<string> {
    Named(Pieces(path))
  }

  /** The path names something below the root, so it has a parent. */
  predicate HasParent(path: Path) {
    Components(path) != []
  }

  predicate IsAbsolute(path: Path) {
    path != "" && path[0] == '/'
  }

  predicate ValidKillSwitchPath(path: Path) {
    path != "" && IsAbsolute(path) && HasParent(path)
  }

  predicate Under(file: FileId, dir: FileId) {
    dir + "/" <= file
  }

  // ---- File operations ------------------------------------------------------------------

  function At(files: Files, file: FileId): Option<string> {
    if file in files then Some(files[file]) else None
  }

  /** Write `tmp`, then rename it over `file`; a fault stops it part-way. */
  function AtomicWrite(files: Files, file: FileId, tmp: FileId, content: string, fault: Fault): (Files, bool) {
    match fault
    case MkdirFails => (files, false)
    case WriteFails(partial) => (files[tmp := partial], false)
    case TmpChmodFails => (files[tmp := content], false)
    case RenameFails => (files[tmp := content], false)
    case ChmodFails => ((files - {tmp})[file := content], false)
    case _ => ((files - {tmp})[file := content], true)
  }

  function RemoveDir(files: Files, dir: FileId): Files {
    map file | file in files && !Under(file, dir) :: files[file]
  }

  /** The controller's constants: where the config is, how text parses, how paths are looked up. */
  datatype Setup = Setup(configPath: Path, parse: string -> Option<Config>, tmpOf: Path -> Path,
                         resolve: Path -> FileId)
  {
    function ConfigFile(): FileId {
      resolve(configPath)
    }

    function TmpFile(path: Path): FileId {
      resolve(tmpOf(path))
    }

    /** `Config::load`. */
    function Load(files: Files): Option<Config> {
      if ConfigFile() in files then parse(files[ConfigFile()]) else None
    }

    /** The configuration is the system's own, however its path is spelled. */
    predicate IsSystem() {
      IsAbsolute(configPath) && Components(configPath) == SYSTEM_CONFIG
    }
  }

  const SOCKET_PATH: Path := "/var/run/screentimed.sock"
  const STATE_DIR: Path := "/var/db/screentimed"
  const CONFIG_DIR: Path := "/etc/screentimed"

  /** The files a system uninstall removes, up to a failing step. */
  function Uninstalled(s: Setup, files: Files, preserveConfig: bool, fault: Fault): (Files, bool) {
    if fault == RemoveFails(0) then (files, false)
    else
      var files1 := files - {s.resolve(SOCKET_PATH)};
      if fault == RemoveFails(1) then (files1, false)
      else
        var files2 := RemoveDir(files1, s.resolve(STATE_DIR));
        if preserveConfig then (files2, true)
        else if fault == RemoveFails(2) then (files2, false)
        else (RemoveDir(files2, s.resolve(CONFIG_DIR)), true)
  }

  predicate Paused(s: Setup, files: Files, cfg: Config) {
    s.resolve(cfg.killSwitchPath) in files
  }

  function SetPaused(s: Setup, files: Files, cfg: Config, paused: bool, fault: Fault): (Files, bool) {
    var path, file := cfg.killSwitchPath, s.resolve(cfg.killSwitchPath);
    if !ValidKillSwitchPath(path) then (files, false)
    else if paused then AtomicWrite(files, file, s.TmpFile(path), MARKER, fault)
    else if fault.RemoveFails? && file in files then (files, false)
    else (files - {file}, true)
  }

  /** What one authorized request does and answers. */
  function Authorized(s: Setup, files: Files, req: AdminRequest, fault: Fault): (Files, AdminResponse) {
    match req
    case GetConfig =>
      (match s.Load(files)
       case Some(cfg) =>
         if ValidKillSwitchPath(cfg.killSwitchPath)
         then (files, ConfigText(files[s.ConfigFile()], Paused(s, files, cfg), cfg.killSwitchPath))
         else (files, Error)
       case None => (files, Error))
    case ValidateConfig(toml) => (files, if s.parse(toml).Some? then ValidationOk else Error)
    case SetConfig(toml) =>
      (match s.parse(toml)
       case Some(cfg) =>
         var (files', ok) := AtomicWrite(files, s.ConfigFile(), s.TmpFile(s.configPath), toml, fault);
         if ok && ValidKillSwitchPath(cfg.killSwitchPath)
         then (files', EnforcementState(Paused(s, files', cfg), cfg.killSwitchPath))
         else (files', Error)
       case None => (files, Error))
    case ReloadDaemon => (files, if s.Load(files).Some? then Done else Error)
    case GetDaemonInfo => (files, DaemonInfo)
    case GetEnforcementState =>
      (match s.Load(files)
       case Some(cfg) =>
         if ValidKillSwitchPath(cfg.killSwitchPath)
         then (files, EnforcementState(Paused(s, files, cfg), cfg.killSwitchPath))
         else (files, Error)
       case None => (files, Error))
    case SetEnforcementPaused(paused) =>
      (match s.Load(files)
       case Some(cfg) =>
         var (files', ok) := SetPaused(s, files, cfg, paused, fault);
         (files', if ok then EnforcementState(paused, cfg.killSwitchPath) else Error)
       case None => (files, Error))
    case PrepareUninstall(preserveConfig) =>
      if !s.IsSystem() then (files, Error)
      else
        var (files', ok) := Uninstalled(s, files, preserveConfig, fault);
        (files', if ok then Done else Error)
  }

  function Handled(s: Setup, files: Files, allowed: bool, req: AdminRequest, fault: Fault): (Files, AdminResponse) {
    if allowed then Authorized(s, files, req, fault) else (files, Unauthorized)
  }

  // ---- What a request may do ---------------------------------------------------------------

  /** Only these two files change. */
  ghost predicate OnlyChanges(files: Files, files': Files, file: FileId, tmp: FileId) {
    forall other: FileId :: other != file && other != tmp ==> At(files', other) == At(files, other)
  }

  /** The file is as it was or has exactly this content: nothing in between. */
  predicate OldOrNew(files: Files, files': Files, file: FileId, now: Option<string>) {
    At(files', file) == At(files, file) || At(files', file) == now
  }

  /** The request may write or remove nothing but the files it is about. */
  ghost predicate WithinBounds(s: Setup, files: Files, files': Files, allowed: bool, req: AdminRequest) {
    if allowed && req.SetConfig? && s.parse(req.toml).Some? then
      OnlyChanges(files, files', s.ConfigFile(), s.TmpFile(s.configPath))
    else if allowed && req.SetEnforcementPaused? && s.Load(files).Some? then
      var path := s.Load(files).value.killSwitchPath;
      OnlyChanges(files, files', s.resolve(path), s.TmpFile(path))
    else if allowed && req.PrepareUninstall? && s.IsSystem() then
      forall file: FileId :: At(files', file) == At(files, file) || At(files', file) == None
    else files' == files
  }

  /** What the answer says is so: of the stored text, and of the kill switch now. */
  ghost predicate Truthful(s: Setup, files': Files, resp: AdminResponse) {
    match resp
    case ConfigText(toml, paused, path) =>
      && At(files', s.ConfigFile()) == Some(toml) && s.parse(toml).Some?
      && path == s.parse(toml).value.killSwitchPath && (paused <==> s.resolve(path) in files')
    case EnforcementState(paused, path) => ValidKillSwitchPath(path) && (paused <==> s.resolve(path) in files')
    case _ => true
  }

  // ---- The controller ---------------------------------------------------------------------

  class FileSystem {
    var files: Files

    constructor (files: Files)
      ensures this.files == files
    {
      this.files := files;
    }

    /**
     `write_config_atomic` and `write_marker_atomic`: whatever operation fails, a
     reader finds the old content or exactly the new one, and no third file changes.
     */
    method WriteAtomic(file: FileId, tmp: FileId, content: string, fault: Fault) returns (ok: bool)
      modifies this
      ensures (files, ok) == AtomicWrite(old(files), file, tmp, content, fault)
      ensures file != tmp ==> OldOrNew(old(files), files, file, Some(content))
      ensures OnlyChanges(old(files), files, file, tmp)
      ensures ok ==> At(files, file) == Some(content) && (file != tmp ==> tmp !in files)
      ensures ok <==> fault.NoFault? || fault.RemoveFails?
    {
      if fault.MkdirFails? {
        return false;
      }
      if fault.WriteFails? {
        files := files[tmp := fault.partial];
        return false;
      }
      files := files[tmp := content];
      if fault.TmpChmodFails? || fault.RenameFails? {
        return false;
      }
      files := (files - {tmp})[file := content];
      assert files == (old(files) - {tmp})[file := content];
      ok := !fault.ChmodFails?;
    }

    /** Removing a file that is not there is no failure. */
    method RemoveIfExists(file: FileId, fails: bool) returns (ok: bool)
      modifies this
      ensures ok <==> !(fails && file in old(files))
      ensures if ok then files == old(files) - {file} else files == old(files)
    {
      if file !in files {
        assert files == files - {file};
        return true;
      }
      if fails {
        return false;
      }
      files := files - {file};
      ok := true;
    }

    /** Removes the socket, the state and, unless asked not to, the configuration. */
    method PrepareUninstall(s: Setup, preserveConfig: bool, fault: Fault) returns (ok: bool)
      modifies this
      ensures (files, ok) == Uninstalled(s, old(files), preserveConfig, fault)
      ensures forall file: FileId :: At(files, file) == At(old(files), file) || At(files, file) == None
      ensures ok ==> s.resolve(SOCKET_PATH) !in files
      ensures ok ==> forall file :: file in files ==> !Under(file, s.resolve(STATE_DIR))
      ensures ok && !preserveConfig ==> forall file :: file in files ==> !Under(file, s.resolve(CONFIG_DIR))
    {
      if fault == RemoveFails(0) {
        return false;
      }
      files := files - {s.resolve(SOCKET_PATH)};
      if fault == RemoveFails(1) {
        return false;
      }
      files := RemoveDir(files, s.resolve(STATE_DIR));
      if !preserveConfig {
        if fault == RemoveFails(2) {
          return false;
        }
        files := RemoveDir(files, s.resolve(CONFIG_DIR));
      }
      ok := true;
    }
  }

  class Controller {
    const setup: Setup
    const fs: FileSystem

    constructor (setup: Setup, fs: FileSystem)
      ensures this.setup == setup && this.fs == fs
    {
      this.setup := setup;
      this.fs := fs;
    }

    /**
     Serves one request. A denied operator learns and changes nothing, a request
     changes only the files it is about, and what an answer says of the stored
     text or the kill switch is true of the files as they then are.
     */
    method Handle(allowed: bool, req: AdminRequest, fault: Fault) returns (resp: AdminResponse)
      modifies fs
      ensures (fs.files, resp) == Handled(setup, old(fs.files), allowed, req, fault)
      ensures resp == Unauthorized <==> !allowed
      ensures WithinBounds(setup, old(fs.files), fs.files, allowed, req)
      ensures Truthful(setup, fs.files, resp)
      ensures req.SetConfig? && setup.TmpFile(setup.configPath) != setup.ConfigFile() ==>
                OldOrNew(old(fs.files), fs.files, setup.ConfigFile(), Some(req.toml))
    {
      if !allowed {
        return Unauthorized;
      }
      match req {
        case GetConfig =>
          var cfg := LoadUsable();
          if cfg.None? {
            return Error;
          }
          var path := cfg.value.killSwitchPath;
          return ConfigText(fs.files[setup.ConfigFile()], setup.resolve(path) in fs.files, path);
        case ValidateConfig(toml) =>
          return if setup.parse(toml).Some? then ValidationOk else Error;
        case SetConfig(toml) =>
          var parsed := setup.parse(toml);
          if parsed.None? {
            return Error;
          }
          var ok := fs.WriteAtomic(setup.ConfigFile(), setup.TmpFile(setup.configPath), toml, fault);
          var path := parsed.value.killSwitchPath;
          if !ok || !ValidKillSwitchPath(path) {
            return Error;
          }
          return EnforcementState(setup.resolve(path) in fs.files, path);
        case ReloadDaemon =>
          return if setup.Load(fs.files).Some? then Done else Error;
        case GetDaemonInfo =>
          return DaemonInfo;
        case GetEnforcementState =>
          var cfg := LoadUsable();
          if cfg.None? {
            return Error;
          }
          var path := cfg.value.killSwitchPath;
          return EnforcementState(setup.resolve(path) in fs.files, path);
        case SetEnforcementPaused(paused) =>
          var cfg := setup.Load(fs.files);
          if cfg.None? {
            return Error;
          }
          var ok := SetEnforcementPausedFor(cfg.value, paused, fault);
          return if ok then EnforcementState(paused, cfg.value.killSwitchPath) else Error;
        case PrepareUninstall(preserveConfig) =>
          if !setup.IsSystem() {
            return Error;
          }
          var ok := fs.PrepareUninstall(setup, preserveConfig, fault);
          return if ok then Done else Error;
      }
    }

    /** The stored configuration, if it parses and its kill switch can be looked at. */
    method LoadUsable() returns (cfg: Option<Config>)
      ensures cfg.Some? ==> setup.Load(fs.files) == cfg && ValidKillSwitchPath(cfg.value.killSwitchPath)
      ensures cfg.None? && setup.Load(fs.files).Some? ==>
                !ValidKillSwitchPath(setup.Load(fs.files).value.killSwitchPath)
    {
      cfg := setup.Load(fs.files);
      if cfg.Some? && !ValidKillSwitchPath(cfg.value.killSwitchPath) {
        cfg := None;
      }
    }

    /**
     Writes or removes the marker. Success means that it is there or not as asked,
     failure leaves a file that is as it was or as asked, and nothing else changes.
     */
    method SetEnforcementPausedFor(cfg: Config, paused: bool, fault: Fault) returns (ok: bool)
      modifies fs
      ensures (fs.files, ok) == SetPaused(setup, old(fs.files), cfg, paused, fault)
      ensures ok ==> ValidKillSwitchPath(cfg.killSwitchPath) && (Paused(setup, fs.files, cfg) <==> paused)
      ensures var file, tmp := setup.resolve(cfg.killSwitchPath), setup.TmpFile(cfg.killSwitchPath);
              && OnlyChanges(old(fs.files), fs.files, file, tmp)
              && (file != tmp ==> OldOrNew(old(fs.files), fs.files, file, if paused then Some(MARKER) else None))
      ensures !ValidKillSwitchPath(cfg.killSwitchPath) ==> !ok && fs.files == old(fs.files)
    {
      var path, file := cfg.killSwitchPath, setup.resolve(cfg.killSwitchPath);
      if !ValidKillSwitchPath(path) {
        return false;
      }
      if paused {
        ok := fs.WriteAtomic(file, setup.TmpFile(path), MARKER, fault);
      } else {
        ok := fs.RemoveIfExists(file, fault.RemoveFails?);
      }
    }
  }
}
