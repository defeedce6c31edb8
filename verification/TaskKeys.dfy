/** Canonical task keys (src/task_identity.rs). */
module TaskKeys {
  import opened Arithmetic
  import opened Text
  import opened Decimals
  import opened Names

  const MAX_FIELD_CHARS: nat := 512

  datatype Provider = Redmine | Local | Forgejo

  datatype KeyError = BadProvider | BadProject | BadExternalId | BadInstance

  datatype TaskKey = TaskKey(provider: string, instance: string, project: string, externalId: string)

  /**
   * The endpoint normalisers of Redmine and Forgejo, from the provider, the
   * endpoint and the project; they rest on a URL library and stay abstract.
   */
  type Normaliser = (Provider, string, string) -> Option<string>

  /** A normalised endpoint normalises to itself. */
  ghost predicate Idempotent(norm: Normaliser) {
    forall kind: Provider, endpoint: string, project: string, v: string ::
      norm(kind, endpoint, project) == Some(v) ==> norm(kind, v, project) == Some(v)
  }

  function ParseProvider(s: string): Option<Provider> {
    if s == "redmine" then Some(Redmine)
    else if s == "local" then Some(Local)
    else if s == "forgejo" then Some(Forgejo)
    else None
  }

  function ValidateField(value: string): Option<string> {
    var trimmed := Trim(value);
    if trimmed == [] || HasControl(trimmed) || |trimmed| > MAX_FIELD_CHARS then None else Some(trimmed)
  }

  function ValidateExternalId(value: string): Option<string> {
    match ValidateField(value)
    case None => None
    case Some(trimmed) =>
      if |trimmed| > 1 && trimmed[0] == '0' then None
      else
        match ParseU64(trimmed)
        case None => None
        case Some(number) => if number == 0 || number > I64_MAX then None else Some(trimmed)
  }

  /** `TaskKey::new`. */
  function NewKey(norm: Normaliser, provider: string, instance: string, project: string, externalId: string)
    : Result<TaskKey, KeyError>
  {
    match ValidateField(provider)
    case None => Err(BadProvider)
    case Some(trimmed) =>
      var name := Lower(trimmed);
      match ParseProvider(name)
      case None => Err(BadProvider)
      case Some(kind) =>
        match ValidateField(project)
        case None => Err(BadProject)
        case Some(owner) =>
          match ValidateExternalId(externalId)
          case None => Err(BadExternalId)
          case Some(id) =>
            match CanonicalInstance(norm, kind, instance, owner)
            case None => Err(BadInstance)
            case Some(canonical) => Ok(TaskKey(name, canonical, owner, id))
  }

  function CanonicalInstance(norm: Normaliser, kind: Provider, instance: string, project: string): Option<string> {
    if kind == Local then
      if ValidateField(instance) == Some("local") && project == "default" then Some("local") else None
    else norm(kind, instance, project)
  }

  /** A key whose fields rebuild it: the only keys the private fields allow. */
  ghost predicate IsCanonical(norm: Normaliser, key: TaskKey) {
    NewKey(norm, key.provider, key.instance, key.project, key.externalId) == Ok(key)
  }

  /** The check a stored row's key has to pass when it is decoded. */
  function Rebuilds(norm: Normaliser): TaskKey -> bool {
    (key: TaskKey) => NewKey(norm, key.provider, key.instance, key.project, key.externalId) == Ok(key)
  }

  /** `external_number`. */
  function ExternalNumber(key: TaskKey): Option<nat> {
    ParseU64(key.externalId)
  }

  // --- Which keys are built. ---

  /** A field as it is stored: trimmed, 1 to 512 characters, none of them a control. */
  ghost predicate IsStored(raw: string, field: string) {
    && Trim(raw) == field && 1 <= |field| <= 512
    && forall i :: 0 <= i < |field| ==> !IsControl(field[i])
  }

  /** A positive i64 in decimal digits, at most one plus sign in front, no zero in front. */
  ghost predicate IsPositiveId(id: string) {
    && id != [] && id[0] != '0'
    && var digits := if id[0] == '+' then id[1..] else id;
       digits != [] && AllDigits(digits) && 0 < ValueOf(digits) <= I64_MAX
  }

  ghost predicate IsProvider(raw: string, name: string) {
    exists field :: IsStored(raw, field) && Lower(field) == name && name in {"redmine", "local", "forgejo"}
  }

  ghost predicate IsInstance(norm: Normaliser, name: string, raw: string, project: string, instance: string) {
    if name == "local" then Trim(raw) == instance == "local" && project == "default"
    else norm(if name == "redmine" then Redmine else Forgejo, raw, project) == Some(instance)
  }

  lemma FieldExactly(raw: string, field: string)
    ensures ValidateField(raw) == Some(field) <==> IsStored(raw, field)
  {}

  lemma LocalIsField(raw: string)
    ensures ValidateField(raw) == Some("local") <==> Trim(raw) == "local"
  {
    ProviderNameFixed("local");
  }

  lemma ExternalIdExactly(raw: string, id: string)
    ensures ValidateExternalId(raw) == Some(id) <==> IsStored(raw, id) && IsPositiveId(id)
  {
    if ValidateField(raw) == Some(id) && id == "0" {
      assert ValueOf("0") == ValueOf([]) * 10 + 0;
    }
    if ValidateField(raw) == Some(id) && id == "+" {
      assert !IsDigit(id[0]);
    }
  }

  lemma ProviderExactly(raw: string, name: string)
    ensures IsProvider(raw, name)
       <==> ValidateField(raw).Some? && Lower(ValidateField(raw).value) == name && ParseProvider(name).Some?
  {
    if ValidateField(raw).Some? {
      FieldExactly(raw, ValidateField(raw).value);
    }
    if field :| IsStored(raw, field) && Lower(field) == name {
      FieldExactly(raw, field);
    }
  }

  /**
   * A key is built exactly from a known provider in any letter case, a project
   * and an external id that are stored trimmed, and the instance this
   * provider's own normaliser gives; the local provider has one instance and
   * one project.
   */
  lemma NewKeyExactly(
    norm: Normaliser, provider: string, instance: string, project: string, externalId: string, key: TaskKey)
    ensures NewKey(norm, provider, instance, project, externalId) == Ok(key)
       <==> && IsProvider(provider, key.provider) && IsStored(project, key.project)
            && IsStored(externalId, key.externalId) && IsPositiveId(key.externalId)
            && IsInstance(norm, key.provider, instance, key.project, key.instance)
  {
    ProviderExactly(provider, key.provider);
    FieldExactly(project, key.project);
    ExternalIdExactly(externalId, key.externalId);
    LocalIsField(instance);
  }

  /** What is wrong is reported in the order provider, project, external id, instance. */
  lemma KeyErrorExactly(norm: Normaliser, provider: string, instance: string, project: string, externalId: string)
    ensures var result := NewKey(norm, provider, instance, project, externalId);
            var known, owned := exists name :: IsProvider(provider, name), exists field :: IsStored(project, field);
            var numbered := exists id :: IsStored(externalId, id) && IsPositiveId(id);
            && (result == Err(BadProvider) <==> !known)
            && (result == Err(BadProject) <==> known && !owned)
            && (result == Err(BadExternalId) <==> known && owned && !numbered)
            && (result == Err(BadInstance) ==> known && owned && numbered)
  {
    forall name ensures IsProvider(provider, name)
                   <==> ValidateField(provider).Some? && Lower(ValidateField(provider).value) == name
                        && ParseProvider(name).Some? {
      ProviderExactly(provider, name);
    }
    forall field ensures ValidateField(project) == Some(field) <==> IsStored(project, field) {
      FieldExactly(project, field);
    }
    forall id ensures ValidateExternalId(externalId) == Some(id) <==> IsStored(externalId, id) && IsPositiveId(id) {
      ExternalIdExactly(externalId, id);
    }
  }

  // --- Canonical forms are stable. ---

  lemma FieldFixed(value: string)
    ensures ValidateField(value).Some? ==>
              ValidateField(ValidateField(value).value) == ValidateField(value)
  {
    TrimIsTrimmed(value);
    TrimFixed(Trim(value));
  }

  lemma ExternalIdFixed(value: string)
    ensures ValidateExternalId(value).Some? ==>
              ValidateExternalId(ValidateExternalId(value).value) == ValidateExternalId(value)
  {
    FieldFixed(value);
  }

  lemma AllLowerFixed(name: string)
    requires name != [] && |name| <= 7 && forall i :: 0 <= i < |name| ==> 'a' <= name[i] <= 'z'
    ensures ValidateField(name) == Some(name) && Lower(name) == name
  {
    TrimFixed(name);
  }

  lemma ProviderNameFixed(name: string)
    requires ParseProvider(name).Some?
    ensures ValidateField(name) == Some(name) && Lower(name) == name
  {
    assert name in {"redmine", "local", "forgejo"};
    AllLowerFixed(name);
  }

  lemma InstanceFixed(norm: Normaliser, kind: Provider, instance: string, project: string)
    requires Idempotent(norm) && CanonicalInstance(norm, kind, instance, project).Some?
    ensures var v := CanonicalInstance(norm, kind, instance, project).value;
            CanonicalInstance(norm, kind, v, project) == Some(v)
  {
    ProviderNameFixed("local");
  }

  /** Building a key is idempotent, so a stored key is read back as it was written. */
  lemma NewKeyIsCanonical(norm: Normaliser, provider: string, instance: string, project: string, externalId: string)
    requires Idempotent(norm)
    requires NewKey(norm, provider, instance, project, externalId).Ok?
    ensures IsCanonical(norm, NewKey(norm, provider, instance, project, externalId).value)
  {
    var key := NewKey(norm, provider, instance, project, externalId).value;
    ProviderNameFixed(key.provider);
    FieldFixed(project);
    ExternalIdFixed(externalId);
    InstanceFixed(norm, ParseProvider(key.provider).value, instance, key.project);
  }

  /** The id in a key is the decimal form of its number exactly when it has no plus sign. */
  lemma DecimalExactly(norm: Normaliser, key: TaskKey)
    requires IsCanonical(norm, key)
    ensures ExternalNumber(key).Some? && 0 < ExternalNumber(key).value <= I64_MAX
    ensures key.externalId == Decimal(ExternalNumber(key).value) <==> key.externalId[0] != '+'
  {
    var id := key.externalId;
    ExternalIdFixed(id);
    assert ValidateExternalId(id) == Some(id);
    var n := ParseU64(id).value;
    if id[0] != '+' {
      assert AllDigits(id);
      DecimalOfValue(id);
    } else {
      assert IsDigit(Decimal(n)[0]);
    }
  }

  lemma LocalKey(norm: Normaliser, id: string)
    requires ValidateExternalId(id) == Some(id)
    ensures NewKey(norm, "local", "local", "default", id) == Ok(TaskKey("local", "local", "default", id))
  {
    ProviderNameFixed("local");
    PlainFieldFixed("default");
  }

  lemma SevenIsAccepted()
    ensures ParseU64("7") == Some(7) && ParseU64("+7") == Some(7)
    ensures ValidateExternalId("7") == Some("7") && ValidateExternalId("+7") == Some("+7")
  {
    PlainFieldFixed("7");
    PlainFieldFixed("+7");
    assert "+7"[1..] == "7";
    assert "7"[..0] == [];
    assert ValueOf("7") == 7;
  }

  /** A signed id is accepted, keeps its sign, and names the same number as the plain one. */
  lemma PlusSignIsKept(norm: Normaliser)
    ensures NewKey(norm, "local", "local", "default", "+7") == Ok(TaskKey("local", "local", "default", "+7"))
    ensures NewKey(norm, "local", "local", "default", "7") == Ok(TaskKey("local", "local", "default", "7"))
    ensures ExternalNumber(TaskKey("local", "local", "default", "+7")) == Some(7)
    ensures ExternalNumber(TaskKey("local", "local", "default", "7")) == Some(7)
  {
    SevenIsAccepted();
    LocalKey(norm, "7");
    LocalKey(norm, "+7");
  }

  lemma LocalKeysAreCanonical(norm: Normaliser)
    ensures Rebuilds(norm)(TaskKey("local", "local", "default", "+7"))
    ensures ExternalNumber(TaskKey("local", "local", "default", "+7")) == Some(7)
  {
    PlusSignIsKept(norm);
  }

  lemma PlainFieldFixed(s: string)
    requires 0 < |s| <= 10 && forall i :: 0 <= i < |s| ==> '!' <= s[i] <= '~'
    ensures ValidateField(s) == Some(s)
  {
    TrimFixed(s);
  }
}
