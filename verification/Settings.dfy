/** What a setting means, from the configuration's text or the window to the daemon's behaviour. */
module Settings {
  import opened Common
  import opened Config
  import opened Counters
  import opened Editor
  import ThresholdText
  import Rules = Enforcement
  import Status
  import Warnings

  // ---- Limits -----------------------------------------------------------------------

  /** A limit is sixty seconds a minute, or the largest count there is where that does not fit. */
  lemma LimitInSeconds(minutes: U32)
    ensures LimitSeconds(minutes)
         == if minutes <= Warnings.LAST_EXACT_MINUTE then 60 * minutes else U32_MAX
  {
  }

  /**
   What the window saves is what the daemon tells and enforces: a limited row's
   account has that many minutes, and is kicked exactly from their last second on; an
   account without a limited row is not configured.
   */
  lemma SavedLimitIsEnforced(snap: Snapshot, v: Toml, i: nat, view: View, uid: U32, resetsAt: Status.Instant,
                             now: Rules.Millis)
    requires IsSaved(snap, v) && DistinctNames(snap.rows) && i < |snap.rows| && ParseConfig(snap.config).Some?
    ensures ParseConfig(v).Some?
    ensures var cfg, row := ParseConfig(v).value, snap.rows[i];
            var st := Status.ComputeStatus(row.name, uid, cfg, view, resetsAt);
            var decision := Rules.Decide(cfg, row.name, Used(view, row.name), None, now);
            if row.limited then
              && st.dailyLimitSeconds == 60 * row.minutes
              && st.remainingSeconds == 60 * row.minutes - Used(view, row.name)
              && (decision.Kick? <==> Used(view, row.name) >= 60 * row.minutes)
            else
              st.state == Status.NotConfigured && (decision.Kick? <==> cfg.defaultPolicy.Block?)
  {
    SavedConfigIsAccepted(snap, v);
    LimitOfRow(snap.rows, i);
    assert RowOk(snap.rows[i]);
    LimitInSeconds(snap.rows[i].minutes);
  }

  /** The window takes limits from one minute to a whole day, and no others. */
  lemma LimitsUpToADay(name: Name, minutes: U32)
    ensures RowOk(Row(name, true, minutes)) <==> 1 <= minutes <= 24 * 60
    ensures RowOk(Row(name, false, minutes))
  {
  }

  // ---- Accepting a configuration --------------------------------------------------------

  /**
   A configuration that decodes is accepted exactly if its tick counts something and
   nobody is kicked before having used a second, which no limit does but zero minutes.
   */
  lemma AcceptedExactlyWhenWorkable(v: Toml, now: Rules.Millis)
    requires Decode(v).Some?
    ensures var cfg := Decode(v).value;
            ParseConfig(v) == Some(cfg)
            <==> cfg.tickSeconds > 0
                 && forall name :: name in cfg.users ==> Rules.Decide(cfg, name, 0, None, now).NoOp?
  {
    var cfg := Decode(v).value;
    forall name | name in cfg.users
      ensures cfg.users[name] > 0 <==> Rules.Decide(cfg, name, 0, None, now).NoOp?
    {
      LimitInSeconds(cfg.users[name]);
    }
  }

  // ---- Printing and reading a configuration -----------------------------------------------

  function PolicyText(policy: DefaultPolicy): string {
    match policy
    case Unrestricted => "unrestricted"
    case Block => "block"
  }

  function EnforcementText(enforcement: Enforcement): string {
    match enforcement
    case Log => "log"
    case Logout => "logout"
  }

  /** The tree of a configuration, with every key written out. */
  function Encode(cfg: Config): Toml {
    Table(map["socket_path" := Text(cfg.socketPath),
              "state_path" := Text(cfg.statePath),
              "tick_seconds" := Integer(cfg.tickSeconds),
              THRESHOLDS_KEY := Array(IntegerItems(cfg.warnThresholdsMinutes)),
              "default_policy" := Text(PolicyText(cfg.defaultPolicy)),
              "enforcement" := Text(EnforcementText(cfg.enforcement)),
              "kill_switch_path" := Text(cfg.killSwitchPath),
              USERS_KEY := Table(UsersTable(cfg.users))])
  }

  /** Every configuration is read back as written, key by key. */
  lemma DecodeEncode(cfg: Config)
    ensures Decode(Encode(cfg)) == Some(cfg)
  {
    PlainKeysDecode(cfg);
    ChoicesDecode(cfg);
    ItemsDecode(cfg.warnThresholdsMinutes);
    UsersDecode(Encode(cfg), cfg.users);
  }

  lemma PlainKeysDecode(cfg: Config)
    ensures TextField(Encode(cfg), "socket_path", DEFAULT_SOCKET_PATH) == Some(cfg.socketPath)
    ensures TextField(Encode(cfg), "state_path", DEFAULT_STATE_PATH) == Some(cfg.statePath)
    ensures U32Field(Encode(cfg), "tick_seconds", DEFAULT_TICK_SECONDS) == Some(cfg.tickSeconds)
    ensures TextField(Encode(cfg), "kill_switch_path", DEFAULT_KILL_SWITCH_PATH) == Some(cfg.killSwitchPath)
  {
  }

  lemma ChoicesDecode(cfg: Config)
    ensures PolicyField(Encode(cfg)) == Some(cfg.defaultPolicy)
    ensures EnforcementField(Encode(cfg)) == Some(cfg.enforcement)
  {
  }

  lemma UsersDecode(v: Toml, limits: map<Name, U32>)
    requires Get(v, USERS_KEY) == Some(Table(UsersTable(limits)))
    ensures UsersField(v) == Some(limits)
  {
    var entries := UsersTable(limits);
    forall name | name in entries
      ensures UserLimit(entries[name]) == Some(limits[name])
    {
      assert entries[name] == Section(limits[name]);
    }
    assert (map name | name in entries :: UserLimit(entries[name]).value) == limits;
  }

  /** An empty file is the documented defaults: five-second ticks, warnings at 15, 5 and 1, no enforcement. */
  lemma EmptyFileIsDefaults()
    ensures ParseConfig(Table(map[]))
         == Some(Config("/var/run/screentimed.sock", "/var/db/screentimed/state.json", 5, [15, 5, 1], Unrestricted,
                        Log, "/etc/screentimed/disable", map[]))
  {
  }

  // ---- Opening the window -------------------------------------------------------------------

  lemma {:induction false} IntegersOfList(items: seq<Toml>)
    requires U32List(items).Some?
    ensures Integers(items) == U32List(items).value
  {
    if items != [] {
      IntegersOfList(items[1..]);
    }
  }

  lemma DefaultThresholdsPrinted()
    ensures ThresholdText.Printed(DEFAULT_WARN_THRESHOLDS) == "15, 5, 1"
  {
    var ns := DEFAULT_WARN_THRESHOLDS;
    assert ns[1..] == [5, 1] && ns[1..][1..] == [1];
    assert ThresholdText.Print(15) == "15" && ThresholdText.Print(5) == "5" && ThresholdText.Print(1) == "1";
    assert ThresholdText.Printed([1]) == "1" && ThresholdText.Printed([5, 1]) == "5" + ", " + "1";
  }

  /** The field opens with the thresholds the daemon warns at, the defaults included. */
  lemma OpensWithDaemonsThresholds(v: Toml)
    requires ThresholdsField(v).Some?
    ensures ThresholdText.Captured(CurrentThresholds(v)) == ThresholdsField(v).value
  {
    var ns := ThresholdsField(v).value;
    match Get(v, THRESHOLDS_KEY) {
      case None =>
        DefaultThresholdsPrinted();
      case Some(Array(items)) =>
        IntegersOfList(items);
        JoinIsPrinted(ns);
      case Some(_) =>
    }
    ThresholdText.TextRoundTrip(ns);
  }

  /** Each account opens with the limit the daemon enforces on it, or switched off. */
  lemma OpensWithDaemonsLimits(v: Toml, name: Name)
    requires ParseConfig(v).Some?
    ensures var cfg, shown := ParseConfig(v).value, UserSetting(v, name);
            && (shown.limited <==> name in cfg.users)
            && shown.minutes == if name in cfg.users then cfg.users[name] else 60
  {
  }
}
