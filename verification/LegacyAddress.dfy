/** Resolution of the Redmine address and its migration from the roles (src/auth.rs). */
module LegacyAddress {
  import opened Text
  import opened Names

  datatype Role = Admin | Orchestrator | Executor | Reviewer | Explore

  const ROLES: seq<Role> := [Admin, Orchestrator, Executor, Reviewer, Explore]

  /** The legacy settings of one role, stored or merged. */
  datatype RoleConfig = RoleConfig(apiBase: Option<string>, closeStatus: Option<string>)

  /** What the TOML file says, if it can be read and parsed. */
  datatype Overlay =
    | Missing
    | Malformed
    | Loaded(apiBase: Option<string>, roles: map<Role, RoleConfig>)

  datatype Variable = Unset | Set(value: string) | Unreadable

  /** Everything that can override the store. */
  datatype Overrides = Overrides(redmine: Variable, generic: Variable, overlay: Overlay)

  /** The global setting as stored, and the legacy rows by role. */
  datatype Settings = Settings(global: Option<string>, rows: map<Role, RoleConfig>)

  datatype AddressError = BadVariable | BadOverlay | BadRole(role: Role) | Conflict(roles: seq<Role>) | SaveFailed

  /**
   * The check on a legacy address and its normal form, which rest on a URL
   * library; `None` when the address is refused.
   */
  type Normaliser = string -> Option<string>

  // --- Reading settings. ---

  function NonEmptyTrimmed(value: string): Option<string> {
    if Trim(value) == [] then None else Some(Trim(value))
  }

  function ReadVariable(v: Variable): Result<Option<string>, AddressError> {
    match v
    case Unset => Ok(None)
    case Unreadable => Err(BadVariable)
    case Set(value) => Ok(NonEmptyTrimmed(value))
  }

  /** `load_global_setting`. */
  function LoadGlobal(s: Settings): Option<string> {
    match s.global
    case None => None
    case Some(value) => NonEmptyTrimmed(value)
  }

  /** The role's row with the file's fields laid over it; a field the file leaves out keeps the stored one. */
  function Merged(row: Option<RoleConfig>, over: Option<RoleConfig>): Option<RoleConfig> {
    match over
    case None => row
    case Some(o) =>
      var base := if row.Some? then row.value else RoleConfig(None, None);
      var merged := RoleConfig(if o.apiBase.Some? then o.apiBase else base.apiBase,
                               if o.closeStatus.Some? then o.closeStatus else base.closeStatus);
      if row.Some? || o.apiBase.Some? || o.closeStatus.Some? then Some(merged) else None
  }

  function Lookup<K, V>(m: map<K, V>, k: K): Option<V> {
    if k in m then Some(m[k]) else None
  }

  function RoleOverlay(overlay: Overlay, role: Role): Option<RoleConfig> {
    if overlay.Loaded? then Lookup(overlay.roles, role) else None
  }

  /** The address one role contributes: trimmed, and only if something is left. */
  function RoleAddress(s: Settings, overlay: Overlay, role: Role): Option<string> {
    match Merged(Lookup(s.rows, role), RoleOverlay(overlay, role))
    case None => None
    case Some(config) =>
      match config.apiBase
      case None => None
      case Some(raw) => NonEmptyTrimmed(raw)
  }

  // --- The program. ---

  datatype Resolution = Resolution(settings: Settings, result: Result<Option<string>, AddressError>)

  class Store {
    var settings: Settings

    constructor (s: Settings)
      ensures settings == s
    {
      settings := s;
    }

    /** `load_redmine_config`. */
    method LoadRedmineConfig(overlay: Overlay, role: Role) returns (r: Result<Option<RoleConfig>, AddressError>)
      ensures r == if overlay.Malformed? then Err(BadOverlay)
                   else Ok(Merged(Lookup(settings.rows, role), RoleOverlay(overlay, role)))
    {
      var base := Lookup(settings.rows, role);
      match overlay {
        case Malformed => return Err(BadOverlay);
        case Missing => return Ok(base);
        case Loaded(_, roles) =>
          if role !in roles {
            return Ok(base);
          }
          var merged := if base.Some? then base.value else RoleConfig(None, None);
          var present := base.Some?;
          if roles[role].apiBase.Some? {
            merged := merged.(apiBase := roles[role].apiBase);
            present := true;
          }
          if roles[role].closeStatus.Some? {
            merged := merged.(closeStatus := roles[role].closeStatus);
            present := true;
          }
          return Ok(if present then Some(merged) else None);
      }
    }

    method SaveGlobal(saves: bool, value: string) returns (saved: bool)
      modifies this
      ensures saved == saves
      ensures settings == if saves then old(settings).(global := Some(Trim(value))) else old(settings)
    {
      saved := saves;
      if saves {
        settings := settings.(global := Some(Trim(value)));
      }
    }

    /** `legacy_redmine_api_base`. */
    method LegacyRedmineApiBase(norm: Normaliser, overlay: Overlay, persist: bool, saves: bool)
      returns (result: Result<Option<string>, AddressError>)
      modifies this
      ensures Resolution(settings, result) == Legacy(norm, overlay, persist, saves, old(settings))
    {
      var distinct: seq<string> := [];
      var withValues: seq<Role> := [];
      for i := 0 to |ROLES|
        invariant settings == old(settings)
        invariant overlay.Malformed? ==> i == 0
        invariant Scan(norm, settings, overlay, ROLES[i..], distinct, withValues)
               == Scan(norm, settings, overlay, ROLES, [], [])
      {
        assert ROLES[i..][0] == ROLES[i] && ROLES[i..][1..] == ROLES[i + 1..];
        var config := LoadRedmineConfig(overlay, ROLES[i]);
        if config.Err? {
          return Err(config.error);
        }
        if config.value.None? || config.value.value.apiBase.None? {
          continue;
        }
        var trimmed := Trim(config.value.value.apiBase.value);
        if trimmed == [] {
          continue;
        }
        var normalised := norm(trimmed);
        if normalised.None? {
          return Err(BadRole(ROLES[i]));
        }
        if normalised.value !in distinct {
          distinct := distinct + [normalised.value];
        }
        withValues := withValues + [ROLES[i]];
      }
      if |distinct| == 0 {
        return Ok(None);
      }
      if |distinct| > 1 {
        return Err(Conflict(withValues));
      }
      var value := distinct[|distinct| - 1];
      if persist {
        var saved := SaveGlobal(saves, value);
        if !saved {
          return Err(SaveFailed);
        }
      }
      return Ok(Some(value));
    }

    /** `redmine_api_base_with_legacy`: the first source that has a value wins. */
    method RedmineApiBase(norm: Normaliser, o: Overrides, persist: bool, saves: bool)
      returns (result: Result<Option<string>, AddressError>)
      modifies this
      ensures Resolution(settings, result) == Resolve(norm, o, persist, saves, old(settings))
    {
      var first := ReadVariable(o.redmine);
      if first.Err? || first.value.Some? {
        return first;
      }
      var second := ReadVariable(o.generic);
      if second.Err? || second.value.Some? {
        return second;
      }
      match o.overlay {
        case Malformed => return Err(BadOverlay);
        case Missing =>
        case Loaded(apiBase, _) =>
          if apiBase.Some? {
            return Ok(apiBase);
          }
      }
      var stored := LoadGlobal(settings);
      if stored.Some? {
        return Ok(stored);
      }
      result := LegacyRedmineApiBase(norm, o.overlay, persist, saves);
    }
  }

  // --- What it computes. ---

  datatype Scanned = Scanned(distinct: seq<string>, roles: seq<Role>)

  /** The distinct normal forms over `roles`, and the roles that hold one. */
  function Scan(
    norm: Normaliser, s: Settings, overlay: Overlay, roles: seq<Role>, distinct: seq<string>, holders: seq<Role>)
    : Result<Scanned, AddressError>
    decreases |roles|
  {
    if roles == [] then Ok(Scanned(distinct, holders))
    else if overlay.Malformed? then Err(BadOverlay)
    else
      match RoleAddress(s, overlay, roles[0])
      case None => Scan(norm, s, overlay, roles[1..], distinct, holders)
      case Some(address) =>
        match norm(address)
        case None => Err(BadRole(roles[0]))
        case Some(v) =>
          Scan(norm, s, overlay, roles[1..], if v in distinct then distinct else distinct + [v], holders + [roles[0]])
  }

  function Legacy(norm: Normaliser, overlay: Overlay, persist: bool, saves: bool, s: Settings): Resolution {
    match Scan(norm, s, overlay, ROLES, [], [])
    case Err(e) => Resolution(s, Err(e))
    case Ok(Scanned(distinct, holders)) =>
      if |distinct| == 0 then Resolution(s, Ok(None))
      else if |distinct| > 1 then Resolution(s, Err(Conflict(holders)))
      else if !persist then Resolution(s, Ok(Some(distinct[0])))
      else if !saves then Resolution(s, Err(SaveFailed))
      else Resolution(s.(global := Some(Trim(distinct[0]))), Ok(Some(distinct[0])))
  }

  /** What the overrides alone decide, if they decide. */
  function Overridden(o: Overrides): Option<Result<Option<string>, AddressError>> {
    var first, second := ReadVariable(o.redmine), ReadVariable(o.generic);
    if first != Ok(None) then Some(first)
    else if second != Ok(None) then Some(second)
    else if o.overlay.Malformed? then Some(Err(BadOverlay))
    else if o.overlay.Loaded? && o.overlay.apiBase.Some? then Some(Ok(o.overlay.apiBase))
    else None
  }

  function Resolve(norm: Normaliser, o: Overrides, persist: bool, saves: bool, s: Settings): Resolution {
    if Overridden(o).Some? then Resolution(s, Overridden(o).value)
    else if LoadGlobal(s).Some? then Resolution(s, Ok(LoadGlobal(s)))
    else Legacy(norm, o.overlay, persist, saves, s)
  }

  // --- Which source wins. ---

  /** The variable is set to `value`, with at most white space around it. */
  predicate Says(v: Variable, value: string) {
    v.Set? && Trim(v.value) == value && value != []
  }

  predicate IsSilent(v: Variable) {
    v == Unset || (v.Set? && Trim(v.value) == [])
  }

  /**
   * The Redmine variable comes first, then the generic one, the file, the
   * stored setting and at last the roles. A source that cannot be read decides
   * too: it fails the resolution, and no later source is asked.
   */
  lemma FirstSourceWins(norm: Normaliser, o: Overrides, persist: bool, saves: bool, s: Settings, value: string)
    ensures var out := Resolve(norm, o, persist, saves, s);
            && (Says(o.redmine, value) ==> out == Resolution(s, Ok(Some(value))))
            && (o.redmine.Unreadable? ==> out == Resolution(s, Err(BadVariable)))
            && (IsSilent(o.redmine) ==>
                  && (Says(o.generic, value) ==> out == Resolution(s, Ok(Some(value))))
                  && (o.generic.Unreadable? ==> out == Resolution(s, Err(BadVariable))))
            && (IsSilent(o.redmine) && IsSilent(o.generic) ==>
                  && (o.overlay.Malformed? ==> out == Resolution(s, Err(BadOverlay)))
                  && (o.overlay.Loaded? && o.overlay.apiBase == Some(value) ==> out == Resolution(s, Ok(Some(value))))
                  && (o.overlay.Missing? || (o.overlay.Loaded? && o.overlay.apiBase == None) ==>
                        if s.global.Some? && Trim(s.global.value) != []
                        then out == Resolution(s, Ok(Some(Trim(s.global.value))))
                        else out == Legacy(norm, o.overlay, persist, saves, s)))
  {}

  function ApiBase(config: Option<RoleConfig>): Option<string> {
    if config.Some? then config.value.apiBase else None
  }

  function CloseStatus(config: Option<RoleConfig>): Option<string> {
    if config.Some? then config.value.closeStatus else None
  }

  /** Each field comes from the file if the file has it, else from the row. */
  lemma MergedByField(row: Option<RoleConfig>, over: Option<RoleConfig>)
    ensures var merged := Merged(row, over);
            && ApiBase(merged) == (if ApiBase(over).Some? then ApiBase(over) else ApiBase(row))
            && CloseStatus(merged) == (if CloseStatus(over).Some? then CloseStatus(over) else CloseStatus(row))
            && (merged.Some? <==> row.Some? || ApiBase(over).Some? || CloseStatus(over).Some?)
  {}

  /** An address counts only with something but white space in it. */
  lemma RoleAddressExactly(s: Settings, overlay: Overlay, role: Role, address: string)
    ensures var row := if role in s.rows then Some(s.rows[role]) else None;
            var over := if overlay.Loaded? && role in overlay.roles then Some(overlay.roles[role]) else None;
            var raw := if ApiBase(over).Some? then ApiBase(over) else ApiBase(row);
            RoleAddress(s, overlay, role) == Some(address) <==> raw.Some? && Trim(raw.value) == address && address != []
  {
    MergedByField(Lookup(s.rows, role), RoleOverlay(overlay, role));
  }

  /** The roles named by a conflict are those with an address, in the order they are visited. */
  function Holders(s: Settings, overlay: Overlay, roles: seq<Role>): seq<Role> {
    if roles == [] then []
    else (if RoleAddress(s, overlay, roles[0]).Some? then [roles[0]] else []) + Holders(s, overlay, roles[1..])
  }

  lemma {:induction false} ScanNames(
    norm: Normaliser, s: Settings, overlay: Overlay, roles: seq<Role>, distinct: seq<string>, holders: seq<Role>)
    requires !overlay.Malformed?
    ensures var scan := Scan(norm, s, overlay, roles, distinct, holders);
            && (scan.Ok? ==> scan.value.roles == holders + Holders(s, overlay, roles))
            && (scan.Err? ==> exists i :: 0 <= i < |roles| && RefusedFirst(norm, s, overlay, roles, i)
                                          && scan.error == BadRole(roles[i]))
    decreases |roles|
  {
    if roles != [] {
      var first, later := roles[0], roles[1..];
      match RoleAddress(s, overlay, first) {
        case None =>
          ScanNames(norm, s, overlay, later, distinct, holders);
          RefusedLater(norm, s, overlay, roles);
        case Some(address) =>
          if norm(address).Some? {
            var v := norm(address).value;
            ScanNames(norm, s, overlay, later, if v in distinct then distinct else distinct + [v], holders + [first]);
            RefusedLater(norm, s, overlay, roles);
          } else {
            assert RefusedFirst(norm, s, overlay, roles, 0);
          }
      }
    }
  }

  predicate IsRefused(norm: Normaliser, s: Settings, overlay: Overlay, role: Role) {
    RoleAddress(s, overlay, role).Some? && norm(RoleAddress(s, overlay, role).value).None?
  }

  /** `roles[i]` is the first one whose address is refused. */
  predicate RefusedFirst(norm: Normaliser, s: Settings, overlay: Overlay, roles: seq<Role>, i: int) {
    && 0 <= i < |roles| && IsRefused(norm, s, overlay, roles[i])
    && forall j :: 0 <= j < i ==> !IsRefused(norm, s, overlay, roles[j])
  }

  lemma RefusedLater(norm: Normaliser, s: Settings, overlay: Overlay, roles: seq<Role>)
    requires roles != [] && !IsRefused(norm, s, overlay, roles[0])
    ensures forall i :: RefusedFirst(norm, s, overlay, roles[1..], i) ==> RefusedFirst(norm, s, overlay, roles, i + 1)
  {
    forall i | RefusedFirst(norm, s, overlay, roles[1..], i) ensures RefusedFirst(norm, s, overlay, roles, i + 1) {
      forall j | 0 <= j < i + 1 ensures !IsRefused(norm, s, overlay, roles[j]) {
        if j > 0 {
          assert roles[j] == roles[1..][j - 1];
        }
      }
    }
  }

  /** A refusal names the first role visited whose address is not accepted; a conflict names all with an address. */
  lemma ErrorsNameRoles(norm: Normaliser, overlay: Overlay, persist: bool, saves: bool, s: Settings)
    requires !overlay.Malformed?
    ensures var r := Legacy(norm, overlay, persist, saves, s).result;
            && (r.Err? && r.error.BadRole? ==>
                  exists i :: RefusedFirst(norm, s, overlay, ROLES, i) && r.error.role == ROLES[i])
            && (r.Err? && r.error.Conflict? ==> r.error.roles == Holders(s, overlay, ROLES))
  {
    ScanNames(norm, s, overlay, ROLES, [], []);
    assert [] + Holders(s, overlay, ROLES) == Holders(s, overlay, ROLES);
  }

  // --- The legacy addresses as a set. ---

  /** The normal forms the roles hold, whatever order they are visited in. */
  ghost function Addresses(norm: Normaliser, s: Settings, overlay: Overlay): set<string> {
    set role: Role | RoleAddress(s, overlay, role).Some? && norm(RoleAddress(s, overlay, role).value).Some?
      :: norm(RoleAddress(s, overlay, role).value).value
  }

  ghost predicate AllAccepted(norm: Normaliser, s: Settings, overlay: Overlay) {
    forall role: Role :: RoleAddress(s, overlay, role).Some? ==> norm(RoleAddress(s, overlay, role).value).Some?
  }

  /** The value one role contributes to the scan. */
  function Contribution(norm: Normaliser, s: Settings, overlay: Overlay, role: Role): Option<string> {
    match RoleAddress(s, overlay, role)
    case None => None
    case Some(address) => norm(address)
  }

  ghost predicate NoRepeats(distinct: seq<string>) {
    forall i, j :: 0 <= i < j < |distinct| ==> distinct[i] != distinct[j]
  }

  lemma {:induction false} ScanMeans(
    norm: Normaliser, s: Settings, overlay: Overlay, roles: seq<Role>, distinct: seq<string>, holders: seq<Role>)
    requires !overlay.Malformed? && NoRepeats(distinct)
    ensures var scan := Scan(norm, s, overlay, roles, distinct, holders);
            && (scan.Ok? <==> forall role :: role in roles && RoleAddress(s, overlay, role).Some? ==>
                                Contribution(norm, s, overlay, role).Some?)
            && (scan.Ok? ==> NoRepeats(scan.value.distinct))
            && (scan.Ok? ==> forall v :: v in scan.value.distinct <==>
                  v in distinct || exists role :: role in roles && Contribution(norm, s, overlay, role) == Some(v))
            && (scan.Err? ==> scan.error.BadRole?)
    decreases |roles|
  {
    if roles != [] {
      var first, later := roles[0], roles[1..];
      assert roles == [first] + later;
      match RoleAddress(s, overlay, first) {
        case None => ScanMeans(norm, s, overlay, later, distinct, holders);
        case Some(address) =>
          var v := norm(address);
          if v.Some? {
            var more := if v.value in distinct then distinct else distinct + [v.value];
            ScanMeans(norm, s, overlay, later, more, holders + [first]);
          }
      }
    }
  }

  lemma EveryRole(role: Role)
    ensures role in ROLES
  {
    assert ROLES[0] == Admin && ROLES[1] == Orchestrator && ROLES[2] == Executor && ROLES[3] == Reviewer
        && ROLES[4] == Explore;
  }

  lemma SingletonExactly(distinct: seq<string>, values: set<string>, v: string)
    requires NoRepeats(distinct) && forall x :: x in distinct <==> x in values
    ensures values == {v} <==> distinct == [v]
    ensures values == {} <==> distinct == []
  {
    if distinct == [] {
      assert forall x :: x !in values;
    } else {
      assert distinct[0] in values;
      if |distinct| > 1 {
        assert distinct[1] in values && distinct[0] != distinct[1];
      } else {
        assert distinct == [distinct[0]];
      }
    }
  }

  /** The legacy lookup depends only on the set of normal forms: one is the answer, several are refused. */
  lemma LegacyMeans(norm: Normaliser, overlay: Overlay, s: Settings, v: string)
    requires !overlay.Malformed?
    ensures var r := Legacy(norm, overlay, false, true, s).result;
            && (r == Ok(Some(v)) <==> AllAccepted(norm, s, overlay) && Addresses(norm, s, overlay) == {v})
            && (r == Ok(None) <==> AllAccepted(norm, s, overlay) && Addresses(norm, s, overlay) == {})
            && (r.Err? && r.error.BadRole? <==> !AllAccepted(norm, s, overlay))
  {
    ScanMeans(norm, s, overlay, ROLES, [], []);
    forall role: Role ensures role in ROLES {
      EveryRole(role);
    }
    var scan := Scan(norm, s, overlay, ROLES, [], []);
    if scan.Ok? {
      var values := Addresses(norm, s, overlay);
      forall x ensures x in scan.value.distinct <==> x in values {
        if x in scan.value.distinct {
          var role :| role in ROLES && Contribution(norm, s, overlay, role) == Some(x);
        }
        if x in values {
          var role: Role :| Contribution(norm, s, overlay, role) == Some(x);
          assert role in ROLES;
        }
      }
      SingletonExactly(scan.value.distinct, values, v);
      if |scan.value.distinct| == 1 {
        assert scan.value.distinct == [scan.value.distinct[0]];
      }
    }
  }

  // --- Main results. ---

  /** A resolution that has to fall back on the roles. */
  predicate FallsBack(o: Overrides, s: Settings) {
    Overridden(o).None? && LoadGlobal(s).None?
  }

  /** Both forms answer alike when the save works, and the read-only one writes nothing. */
  lemma ReadOnlyAgrees(norm: Normaliser, o: Overrides, saves: bool, s: Settings)
    ensures Resolve(norm, o, false, saves, s).settings == s
    ensures Resolve(norm, o, true, true, s).result == Resolve(norm, o, false, saves, s).result
  {}

  /** The roles agree on this one accepted address. */
  ghost predicate Agreed(norm: Normaliser, o: Overrides, s: Settings, v: string) {
    FallsBack(o, s) && AllAccepted(norm, s, o.overlay) && Addresses(norm, s, o.overlay) == {v}
  }

  /** The lookup that falls back succeeds with `v` exactly when the roles agree on `v`. */
  lemma FallbackMeans(norm: Normaliser, o: Overrides, s: Settings, v: string)
    requires FallsBack(o, s)
    ensures Legacy(norm, o.overlay, false, true, s).result == Ok(Some(v)) <==> Agreed(norm, o, s, v)
  {
    LegacyMeans(norm, o.overlay, s, v);
  }

  /**
   * The mutating form writes exactly when nothing overrides it, nothing is
   * stored yet, the roles agree on one accepted address and the save works;
   * then it stores and returns that address.
   */
  lemma MigratesExactly(norm: Normaliser, o: Overrides, saves: bool, s: Settings)
    ensures var out := Resolve(norm, o, true, saves, s);
            && (forall v :: Agreed(norm, o, s, v) ==>
                  out == if saves then Resolution(s.(global := Some(Trim(v))), Ok(Some(v)))
                         else Resolution(s, Err(SaveFailed)))
            && ((forall v :: !Agreed(norm, o, s, v)) ==> out.settings == s)
  {
    if FallsBack(o, s) {
      forall v ensures Legacy(norm, o.overlay, false, true, s).result == Ok(Some(v)) <==> Agreed(norm, o, s, v) {
        FallbackMeans(norm, o, s, v);
      }
    }
  }

  lemma DisagreementIsConflict(norm: Normaliser, overlay: Overlay, s: Settings)
    requires !overlay.Malformed? && AllAccepted(norm, s, overlay) && |Addresses(norm, s, overlay)| > 1
    ensures Scan(norm, s, overlay, ROLES, [], []).Ok? && |Scan(norm, s, overlay, ROLES, [], []).value.distinct| > 1
  {
    var read := Legacy(norm, overlay, false, true, s).result;
    var v := if read.Ok? && read.value.Some? then read.value.value else [];
    LegacyMeans(norm, overlay, s, v);
    assert |{v}| == 1;
    ScanMeans(norm, s, overlay, ROLES, [], []);
  }

  /** Roles that disagree are refused, and the refusal writes nothing. */
  lemma ConflictWritesNothing(norm: Normaliser, o: Overrides, persist: bool, saves: bool, s: Settings)
    requires FallsBack(o, s) && AllAccepted(norm, s, o.overlay) && |Addresses(norm, s, o.overlay)| > 1
    ensures var out := Resolve(norm, o, persist, saves, s);
            out.settings == s && out.result.Err? && out.result.error.Conflict?
  {
    DisagreementIsConflict(norm, o.overlay, s);
  }

  /** Whatever the roles come to hold, resolving without a deciding override returns `v`. */
  ghost predicate Sticks(norm: Normaliser, s: Settings, v: string) {
    forall later: Overrides, rows: map<Role, RoleConfig>, persist: bool :: Overridden(later).None? ==>
      Resolve(norm, later, persist, true, s.(rows := rows)).result == Ok(Some(v))
  }

  /**
   * After a migration every later resolution under overrides that decide
   * nothing returns the migrated address, whatever the roles then hold,
   * exactly when that address has no blanks around it and is not empty.
   */
  lemma MigrationSticks(norm: Normaliser, o: Overrides, s: Settings, v: string)
    requires FallsBack(o, s) && Resolve(norm, o, true, true, s).result == Ok(Some(v))
    ensures Sticks(norm, Resolve(norm, o, true, true, s).settings, v) <==> IsTrimmed(v) && v != []
  {
    var after := Resolve(norm, o, true, true, s).settings;
    assert after.global == Some(Trim(v));
    TrimFixed(v);
    TrimIsTrimmed(v);
    TrimFixed(Trim(v));
    if !(IsTrimmed(v) && v != []) {
      var bare: Settings := after.(rows := map[]);
      var quiet := Overrides(Unset, Unset, Missing);
      assert Overridden(quiet).None?;
      if Trim(v) == [] {
        assert LoadGlobal(bare).None?;
        NoRoles(norm, bare);
      }
      assert Resolve(norm, quiet, false, true, bare).result != Ok(Some(v));
    }
  }

  /** A normaliser that only returns clean addresses: nothing to trim, and not empty. */
  ghost predicate ReturnsClean(norm: Normaliser) {
    forall address :: norm(address).Some? ==> IsTrimmed(norm(address).value) && norm(address).value != []
  }

  /** With such a normaliser every migration sticks, whatever the stored roles and the overlay were. */
  lemma CleanMigrationSticks(norm: Normaliser, o: Overrides, s: Settings, v: string)
    requires ReturnsClean(norm) && FallsBack(o, s)
    requires Resolve(norm, o, true, true, s).result == Ok(Some(v))
    ensures Sticks(norm, Resolve(norm, o, true, true, s).settings, v)
  {
    FallbackMeans(norm, o, s, v);
    MigrationSticks(norm, o, s, v);
  }

  lemma NoRoles(norm: Normaliser, s: Settings)
    requires s.rows == map[]
    ensures Legacy(norm, Missing, false, true, s).result == Ok(None)
  {
    LegacyMeans(norm, Missing, s, []);
    assert Addresses(norm, s, Missing) == {};
  }
}
