/**
 The settings window's view of the configuration file
 (crates/tray/src/bin/tray.rs) and the daemon's own reading of it
 (crates/daemon/src/config.rs). TOML text is left out: both work on the tree it
 denotes.
 */
module Editor {
  import opened Common
  import opened Config
  import ThresholdText

  /** A TOML value; `Other` is any kind neither side looks for. */
  datatype Toml =
    | Integer(n: int)
    | Text(s: string)
    | Array(items: seq<Toml>)
    | Table(entries: map<string, Toml>)
    | Other

  const THRESHOLDS_KEY := "warn_thresholds_minutes"
  const USERS_KEY := "users"
  const MINUTES_KEY := "daily_limit_minutes"

  function Get(v: Toml, key: string): Option<Toml> {
    if v.Table? && key in v.entries then Some(v.entries[key]) else None
  }

  // ---- The daemon's reading -------------------------------------------------------

  /** A field of type `String` or `PathBuf` with a default. */
  function TextField(v: Toml, key: string, default: string): Option<string> {
    match Get(v, key)
    case None => Some(default)
    case Some(Text(s)) => Some(s)
    case Some(_) => None
  }

  function U32Of(v: Toml): Option<U32> {
    if v.Integer? && 0 <= v.n <= U32_MAX then Some(v.n) else None
  }

  function U32Field(v: Toml, key: string, default: U32): Option<U32> {
    match Get(v, key)
    case None => Some(default)
    case Some(x) => U32Of(x)
  }

  function U32List(items: seq<Toml>): Option<seq<U32>> {
    if items == [] then Some([])
    else
      match (U32Of(items[0]), U32List(items[1..]))
      case (Some(n), Some(ns)) => Some([n] + ns)
      case _ => None
  }

  function ThresholdsField(v: Toml): Option<seq<U32>> {
    match Get(v, THRESHOLDS_KEY)
    case None => Some(DEFAULT_WARN_THRESHOLDS)
    case Some(Array(items)) => U32List(items)
    case Some(_) => None
  }

  function PolicyField(v: Toml): Option<DefaultPolicy> {
    match Get(v, "default_policy")
    case None => Some(Unrestricted)
    case Some(Text(s)) =>
      if s == "unrestricted" then Some(Unrestricted) else if s == "block" then Some(Block) else None
    case Some(_) => None
  }

  function EnforcementField(v: Toml): Option<Enforcement> {
    match Get(v, "enforcement")
    case None => Some(Log)
    case Some(Text(s)) => if s == "log" then Some(Log) else if s == "logout" then Some(Logout) else None
    case Some(_) => None
  }

  /** A user's section: the limit is required, other keys are ignored. */
  function UserLimit(v: Toml): Option<U32> {
    match Get(v, MINUTES_KEY)
    case None => None
    case Some(x) => U32Of(x)
  }

  function UsersField(v: Toml): Option<map<Name, U32>> {
    match Get(v, USERS_KEY)
    case None => Some(map[])
    case Some(Table(entries)) =>
      if forall name :: name in entries ==> UserLimit(entries[name]).Some?
      then Some(map name | name in entries :: UserLimit(entries[name]).value)
      else None
    case Some(_) => None
  }

  /** `toml::from_str::<Config>` on the tree. */
  function Decode(v: Toml): Option<Config> {
    var socketPath, statePath := TextField(v, "socket_path", DEFAULT_SOCKET_PATH),
                                 TextField(v, "state_path", DEFAULT_STATE_PATH);
    var tick, thresholds := U32Field(v, "tick_seconds", DEFAULT_TICK_SECONDS), ThresholdsField(v);
    var policy, enforcement := PolicyField(v), EnforcementField(v);
    var killSwitch, users := TextField(v, "kill_switch_path", DEFAULT_KILL_SWITCH_PATH), UsersField(v);
    if v.Table? && socketPath.Some? && statePath.Some? && tick.Some? && thresholds.Some?
       && policy.Some? && enforcement.Some? && killSwitch.Some? && users.Some?
    then Some(Config(socketPath.value, statePath.value, tick.value, thresholds.value, policy.value,
                     enforcement.value, killSwitch.value, users.value))
    else None
  }

  /** `Config::parse_toml`: decode, then validate. */
  function ParseConfig(v: Toml): Option<Config> {
    if Decode(v).Some? && Decode(v).value.Valid() then Decode(v) else None
  }

  // ---- The window ------------------------------------------------------------------

  datatype Row = Row(name: Name, limited: bool, minutes: U32)

  datatype Snapshot = Snapshot(thresholds: seq<U32>, rows: seq<Row>, config: Toml)

  const MAX_MINUTES: U32 := 1440

  predicate RowOk(row: Row) {
    row.limited ==> 0 < row.minutes <= MAX_MINUTES
  }

  predicate RowsOk(rows: seq<Row>) {
    forall i :: 0 <= i < |rows| ==> RowOk(rows[i])
  }

  predicate DistinctNames(rows: seq<Row>) {
    forall i, j :: 0 <= i < j < |rows| ==> rows[i].name != rows[j].name
  }

  /** The limits the rows ask for; a later row of the same name wins. */
  function Limits(rows: seq<Row>): map<Name, U32> {
    if rows == [] then map[]
    else
      var row := rows[|rows| - 1];
      var before := Limits(rows[..|rows| - 1]);
      if row.limited then before[row.name := row.minutes] else before
  }

  function Section(minutes: U32): Toml {
    Table(map[MINUTES_KEY := Integer(minutes)])
  }

  function UsersTable(limits: map<Name, U32>): map<string, Toml> {
    map name | name in limits :: Section(limits[name])
  }

  function IntegerItems(ns: seq<U32>): seq<Toml> {
    seq(|ns|, i requires 0 <= i < |ns| => Integer(ns[i]))
  }

  predicate IsFirstBadRow(rows: seq<Row>, i: nat)
    requires i < |rows|
  {
    !RowOk(rows[i]) && RowsOk(rows[..i])
  }

  /** What a successful save produces: only the two edited keys differ. */
  ghost predicate IsSaved(snap: Snapshot, v: Toml) {
    && RowsOk(snap.rows) && snap.config.Table? && v.Table?
    && v.entries.Keys == snap.config.entries.Keys + {THRESHOLDS_KEY, USERS_KEY}
    && (forall key :: key in snap.config.entries && key != THRESHOLDS_KEY && key != USERS_KEY
          ==> v.entries[key] == snap.config.entries[key])
    && v.entries[THRESHOLDS_KEY] == Array(IntegerItems(snap.thresholds))
    && v.entries[USERS_KEY] == Table(UsersTable(Limits(snap.rows)))
  }

  /**
   Saves the window's settings into the tree it was opened on, or says what is
   wrong: fails exactly when a limited row is out of range or the root is no table.
   */
  method BuildNewConfig(snap: Snapshot) returns (r: Result<Toml, string>)
    ensures r.Ok? <==> RowsOk(snap.rows) && snap.config.Table?
    ensures r.Ok? ==> IsSaved(snap, r.value)
    ensures r.Err? && !RowsOk(snap.rows) ==>
              exists i :: 0 <= i < |snap.rows| && IsFirstBadRow(snap.rows, i) && snap.rows[i].name <= r.error
  {
    var i := 0;
    while i < |snap.rows|
      invariant 0 <= i <= |snap.rows|
      invariant RowsOk(snap.rows[..i])
    {
      var row := snap.rows[i];
      if row.limited {
        if row.minutes == 0 {
          assert IsFirstBadRow(snap.rows, i);
          return Err(row.name + ": minutes must be greater than 0 when 'Limit daily' is on");
        }
        if row.minutes > MAX_MINUTES {
          assert IsFirstBadRow(snap.rows, i);
          return Err(row.name + ": minutes must be at most 1440 (24 hours)");
        }
      }
      i := i + 1;
    }
    assert snap.rows[..i] == snap.rows;
    if !snap.config.Table? {
      return Err("config root is not a table");
    }
    var table := snap.config.entries;
    table := table[THRESHOLDS_KEY := Array(IntegerItems(snap.thresholds))];
    var users: map<string, Toml> := map[];
    i := 0;
    while i < |snap.rows|
      invariant 0 <= i <= |snap.rows|
      invariant users == UsersTable(Limits(snap.rows[..i]))
    {
      var row := snap.rows[i];
      assert snap.rows[..i + 1][..i] == snap.rows[..i];
      if row.limited {
        users := users[row.name := Section(row.minutes)];
      }
      i := i + 1;
    }
    assert snap.rows[..i] == snap.rows;
    table := table[USERS_KEY := Table(users)];
    r := Ok(Table(table));
  }

  // ---- Reopening ---------------------------------------------------------------------

  /** The text the thresholds field opens with; items that are no integers are skipped. */
  function CurrentThresholds(v: Toml): string {
    match Get(v, THRESHOLDS_KEY)
    case Some(Array(items)) => Join(items)
    case _ => "15, 5, 1"
  }

  function PrintInteger(n: int): string {
    if n < 0 then "-" + ThresholdText.Print(-n) else ThresholdText.Print(n)
  }

  function Integers(items: seq<Toml>): seq<int> {
    if items == [] then []
    else (if items[0].Integer? then [items[0].n] else []) + Integers(items[1..])
  }

  function JoinIntegers(ns: seq<int>): string {
    if ns == [] then ""
    else if |ns| == 1 then PrintInteger(ns[0])
    else PrintInteger(ns[0]) + ", " + JoinIntegers(ns[1..])
  }

  function Join(items: seq<Toml>): string {
    JoinIntegers(Integers(items))
  }

  datatype InitialUserSetting = InitialUserSetting(limited: bool, minutes: U32)

  /** What the window shows for one account: a missing limit reads as an hour. */
  function UserSetting(v: Toml, name: Name): InitialUserSetting {
    var entry := match Get(v, USERS_KEY) case Some(users) => Get(users, name) case None => None;
    var limit := match entry case Some(e) => Get(e, MINUTES_KEY) case None => None;
    var minutes: U32 :=
      match limit
      case Some(Integer(n)) => (if n < 1 then 1 else n) % U32_MODULUS
      case _ => 60;
    InitialUserSetting(entry.Some?, minutes)
  }

  function CollectUserSettings(names: seq<Name>, v: Toml): seq<InitialUserSetting> {
    seq(|names|, i requires 0 <= i < |names| => UserSetting(v, names[i]))
  }

  // ---- Round trip ----------------------------------------------------------------------

  lemma {:induction false} ItemsDecode(ns: seq<U32>)
    ensures U32List(IntegerItems(ns)) == Some(ns)
    ensures Integers(IntegerItems(ns)) == ns
  {
    if ns != [] {
      assert IntegerItems(ns)[1..] == IntegerItems(ns[1..]);
      ItemsDecode(ns[1..]);
      assert [ns[0]] + ns[1..] == ns;
    }
  }

  lemma {:induction false} LimitsInRange(rows: seq<Row>)
    requires RowsOk(rows)
    ensures forall name :: name in Limits(rows) ==> 0 < Limits(rows)[name] <= MAX_MINUTES
  {
    if rows != [] {
      assert forall i :: 0 <= i < |rows| - 1 ==> rows[..|rows| - 1][i] == rows[i];
      LimitsInRange(rows[..|rows| - 1]);
    }
  }

  lemma SameField(snap: Snapshot, v: Toml, key: string)
    requires IsSaved(snap, v) && key != THRESHOLDS_KEY && key != USERS_KEY
    ensures Get(v, key) == Get(snap.config, key)
  {
  }

  lemma SameOtherFields(snap: Snapshot, v: Toml)
    requires IsSaved(snap, v)
    ensures TextField(v, "socket_path", DEFAULT_SOCKET_PATH)
         == TextField(snap.config, "socket_path", DEFAULT_SOCKET_PATH)
    ensures TextField(v, "state_path", DEFAULT_STATE_PATH) == TextField(snap.config, "state_path", DEFAULT_STATE_PATH)
    ensures U32Field(v, "tick_seconds", DEFAULT_TICK_SECONDS)
         == U32Field(snap.config, "tick_seconds", DEFAULT_TICK_SECONDS)
    ensures PolicyField(v) == PolicyField(snap.config) && EnforcementField(v) == EnforcementField(snap.config)
    ensures TextField(v, "kill_switch_path", DEFAULT_KILL_SWITCH_PATH)
         == TextField(snap.config, "kill_switch_path", DEFAULT_KILL_SWITCH_PATH)
  {
    SameField(snap, v, "socket_path");
    SameField(snap, v, "state_path");
    SameField(snap, v, "tick_seconds");
    SameField(snap, v, "default_policy");
    SameField(snap, v, "enforcement");
    SameField(snap, v, "kill_switch_path");
  }

  /** A saved file decodes as the original does, but for the two edited fields. */
  lemma SavedConfigDecodes(snap: Snapshot, v: Toml)
    requires IsSaved(snap, v) && Decode(snap.config).Some?
    ensures Decode(v) == Some(Decode(snap.config).value.(warnThresholdsMinutes := snap.thresholds,
                                                         users := Limits(snap.rows)))
  {
    SameOtherFields(snap, v);
    SavedThresholds(snap, v);
    SavedUsers(snap, v);
  }

  lemma SavedThresholds(snap: Snapshot, v: Toml)
    requires IsSaved(snap, v)
    ensures ThresholdsField(v) == Some(snap.thresholds)
  {
    ItemsDecode(snap.thresholds);
  }

  /**
   If the daemon accepted the configuration the window was opened on, it accepts
   the saved one, and reads the very same settings from it except for the two the
   window edits.
   */
  lemma SavedConfigIsAccepted(snap: Snapshot, v: Toml)
    requires IsSaved(snap, v) && ParseConfig(snap.config).Some?
    ensures ParseConfig(v)
            == Some(ParseConfig(snap.config).value.(warnThresholdsMinutes := snap.thresholds,
                                                    users := Limits(snap.rows)))
  {
    SavedConfigDecodes(snap, v);
    LimitsInRange(snap.rows);
  }

  lemma SavedUsers(snap: Snapshot, v: Toml)
    requires IsSaved(snap, v)
    ensures UsersField(v) == Some(Limits(snap.rows))
  {
    var limits := Limits(snap.rows);
    var entries := UsersTable(limits);
    assert Get(v, USERS_KEY) == Some(Table(entries));
    forall name | name in entries
      ensures UserLimit(entries[name]) == Some(limits[name])
    {
      assert entries[name] == Section(limits[name]);
    }
    assert (map name | name in entries :: UserLimit(entries[name]).value) == limits;
  }

  lemma {:induction false} LimitOfRow(rows: seq<Row>, i: nat)
    requires i < |rows| && DistinctNames(rows)
    ensures rows[i].limited <==> rows[i].name in Limits(rows)
    ensures rows[i].limited ==> Limits(rows)[rows[i].name] == rows[i].minutes
    decreases |rows|
  {
    var init, last := rows[..|rows| - 1], rows[|rows| - 1];
    if i < |init| {
      LimitOfRow(init, i);
    } else {
      NotAmong(init, last.name);
    }
  }

  lemma {:induction false} NotAmong(rows: seq<Row>, name: Name)
    requires forall i :: 0 <= i < |rows| ==> rows[i].name != name
    ensures name !in Limits(rows)
  {
    if rows != [] {
      NotAmong(rows[..|rows| - 1], name);
    }
  }

  function RowNames(rows: seq<Row>): seq<Name> {
    seq(|rows|, i requires 0 <= i < |rows| => rows[i].name)
  }

  /** Reopening the window on a saved file, for the same users, shows every row as it was saved. */
  lemma ReopenShowsTheRows(snap: Snapshot, v: Toml, i: nat)
    requires IsSaved(snap, v) && DistinctNames(snap.rows) && i < |snap.rows|
    ensures var shown := CollectUserSettings(RowNames(snap.rows), v);
            && |shown| == |snap.rows| && shown[i].limited == snap.rows[i].limited
            && shown[i].minutes == if snap.rows[i].limited then snap.rows[i].minutes else 60
  {
    var row := snap.rows[i];
    LimitOfRow(snap.rows, i);
    var limits := Limits(snap.rows);
    assert Get(v, USERS_KEY) == Some(Table(UsersTable(limits)));
    if row.limited {
      assert UsersTable(limits)[row.name] == Section(row.minutes);
      assert Get(Section(row.minutes), MINUTES_KEY) == Some(Integer(row.minutes));
    }
  }

  lemma {:induction false} JoinIsPrinted(ns: seq<U32>)
    ensures JoinIntegers(ns) == ThresholdText.Printed(ns)
  {
    if ns != [] {
      JoinIsPrinted(ns[1..]);
    }
  }

  /** And its thresholds field, saved again untouched, gives the same thresholds. */
  lemma ReopenKeepsThresholds(snap: Snapshot, v: Toml)
    requires IsSaved(snap, v)
    ensures ThresholdText.Captured(CurrentThresholds(v)) == snap.thresholds
  {
    ItemsDecode(snap.thresholds);
    JoinIsPrinted(snap.thresholds);
    ThresholdText.TextRoundTrip(snap.thresholds);
  }

  /**
   A configured account without a row of its own, hidden from the window, loses
   its limit on the next save.
   */
  lemma AccountsWithoutRowLoseTheirLimit(snap: Snapshot, v: Toml, name: Name)
    requires IsSaved(snap, v) && forall i :: 0 <= i < |snap.rows| ==> snap.rows[i].name != name
    ensures !UserSetting(v, name).limited
  {
    NotAmong(snap.rows, name);
    assert Get(v, USERS_KEY) == Some(Table(UsersTable(Limits(snap.rows))));
  }
}
