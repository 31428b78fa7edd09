/** The daemon's configuration as the other components read it. */
module Config {
  import opened Common

  type Name = string
  type Path = string

  datatype DefaultPolicy = Unrestricted | Block

  datatype Enforcement = Log | Logout

  datatype Config = Config(
    socketPath: Path,
    statePath: Path,
    tickSeconds: U32,
    warnThresholdsMinutes: seq<U32>,
    defaultPolicy: DefaultPolicy,
    enforcement: Enforcement,
    killSwitchPath: Path,
    users: map<Name, U32>)
  {
    /** What the daemon demands of a parsed file before it uses it. */
    predicate Valid() {
      && tickSeconds > 0
      && forall name :: name in users ==> users[name] > 0
    }

    /** The daily limit of a configured user, in minutes. */
    function UserByName(name: Name): Option<U32> {
      if name in users then Some(users[name]) else None
    }
  }

  /** The daily limit in seconds, saturating at the largest 32-bit value. */
  function LimitSeconds(minutes: U32): U32 {
    SaturatingMul(minutes, 60)
  }

  const DEFAULT_SOCKET_PATH: Path := "/var/run/screentimed.sock"
  const DEFAULT_STATE_PATH: Path := "/var/db/screentimed/state.json"
  const DEFAULT_TICK_SECONDS: U32 := 5
  const DEFAULT_WARN_THRESHOLDS: seq<U32> := [15, 5, 1]
  const DEFAULT_KILL_SWITCH_PATH: Path := "/etc/screentimed/disable"
}
