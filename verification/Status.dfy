/** What the daemon tells one user (crates/daemon/src/ipc.rs, crates/proto). */
module Status {
  import opened Common
  import opened Config
  import opened Counters

  /** An absolute instant, in seconds. */
  type Instant = int

  datatype SessionState = Active | LimitReached | Offline | NotConfigured

  datatype UserStatus = UserStatus(
    uid: U32,
    username: Name,
    state: SessionState,
    dailyLimitSeconds: U32,
    usedSeconds: U32,
    remainingSeconds: int,
    resetsAt: Instant,
    warnThresholdsMinutes: seq<U32>)

  function ComputeStatus(name: Name, uid: U32, cfg: Config, v: View, resetsAt: Instant): UserStatus {
    var used, active := Used(v, name), IsActive(v, name);
    var (state, limit) :=
      match cfg.UserByName(name)
      case None => (NotConfigured, 0)
      case Some(minutes) =>
        var limit := LimitSeconds(minutes);
        (if used >= limit then LimitReached else if active then Active else Offline, limit);
    UserStatus(uid, name, state, limit, used, limit - used, resetsAt, cfg.warnThresholdsMinutes)
  }

  /**
   Used and remaining add up to the limit, a status that may warn leaves a positive
   remainder that fits 32 bits, and the four states are told apart by being
   configured, having time left and being at the console, in that order.
   */
  lemma ActiveMeansTimeLeft(name: Name, uid: U32, cfg: Config, v: View, resetsAt: Instant)
    ensures var st := ComputeStatus(name, uid, cfg, v, resetsAt);
            && st.usedSeconds + st.remainingSeconds == st.dailyLimitSeconds
            && (st.state.Active? ==> 0 < st.remainingSeconds <= U32_MAX)
            && (st.state.Active? <==> name in cfg.users && IsActive(v, name) && st.remainingSeconds > 0)
            && (st.state.Offline? <==> name in cfg.users && !IsActive(v, name) && st.remainingSeconds > 0)
            && (st.state.LimitReached? <==> name in cfg.users && st.remainingSeconds <= 0)
            && (st.state.NotConfigured? <==> name !in cfg.users)
            && (st.state.NotConfigured? ==> st.dailyLimitSeconds == 0)
            && st.uid == uid && st.username == name && st.resetsAt == resetsAt
            && st.usedSeconds == Used(v, name) && st.warnThresholdsMinutes == cfg.warnThresholdsMinutes
  {
  }
}
