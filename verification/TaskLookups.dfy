/** Lookups of durable tasks by their bare number (src/task_identity.rs). */
module TaskLookups {
  import opened Arithmetic
  import opened Text
  import opened Decimals
  import opened Names
  import opened Orders
  import opened TaskKeys
  import opened TaskStore

  predicate IdLe(a: Binding, b: Binding) {
    a.taskId <= b.taskId
  }

  /** Any implementation of `ORDER BY b.task_id`. */
  ghost predicate OrdersById(arrange: seq<Binding> -> seq<Binding>) {
    forall rows {:trigger arrange(rows)} :: SortOf(IdLe, rows, arrange(rows))
  }

  /** The bindings with this id and this external id. */
  function Matching(bindings: seq<Binding>, taskId: int, externalId: string): seq<Binding> {
    if bindings == [] then []
    else (if bindings[0].taskId == taskId && bindings[0].key.externalId == externalId then [bindings[0]] else [])
         + Matching(bindings[1..], taskId, externalId)
  }

  /** The memberships of `repo` joined with the bindings they name. */
  function Joined(db: Db, members: seq<Member>, repo: string, externalId: string): seq<Binding>
    decreases |members|
  {
    if members == [] then []
    else (if members[0].repo == repo then Matching(db.bindings, members[0].taskId, externalId) else [])
         + Joined(db, members[1..], repo, externalId)
  }

  function WithExternalId(bindings: seq<Binding>, externalId: string): seq<Binding> {
    if bindings == [] then []
    else (if bindings[0].key.externalId == externalId then [bindings[0]] else [])
         + WithExternalId(bindings[1..], externalId)
  }

  /** Every row decoded, or the error of the first one that does not decode. */
  function DecodeRows(valid: KeyCheck, rows: seq<Binding>): Result<seq<Binding>, StoreError> {
    if rows == [] then Ok([])
    else
      match DecodeBinding(valid, rows[0])
      case Err(e) => Err(e)
      case Ok(first) =>
        After([first], DecodeRows(valid, rows[1..]))
  }

  function After(decoded: seq<Binding>, later: Result<seq<Binding>, StoreError>): Result<seq<Binding>, StoreError> {
    match later
    case Err(e) => Err(e)
    case Ok(rows) => Ok(decoded + rows)
  }

  lemma AfterNone(later: Result<seq<Binding>, StoreError>)
    ensures After([], later) == later
  {
    if later.Ok? {
      assert [] + later.value == later.value;
    }
  }

  lemma AfterOneMore(decoded: seq<Binding>, next: Binding, later: Result<seq<Binding>, StoreError>)
    ensures After(decoded + [next], later) == After(decoded, After([next], later))
  {
    if later.Ok? {
      assert decoded + [next] + later.value == decoded + ([next] + later.value);
    }
  }

  method DecodeAllRows(valid: KeyCheck, rows: seq<Binding>) returns (result: Result<seq<Binding>, StoreError>)
    ensures result == DecodeRows(valid, rows)
  {
    var bindings: seq<Binding> := [];
    assert rows[0..] == rows;
    AfterNone(DecodeRows(valid, rows));
    for i := 0 to |rows|
      invariant DecodeRows(valid, rows) == After(bindings, DecodeRows(valid, rows[i..]))
    {
      assert rows[i..][0] == rows[i] && rows[i..][1..] == rows[i + 1..];
      match DecodeBinding(valid, rows[i]) {
        case Err(e) => return Err(e);
        case Ok(binding) =>
          AfterOneMore(bindings, binding, DecodeRows(valid, rows[i + 1..]));
          bindings := bindings + [binding];
      }
    }
    assert bindings + [] == bindings;
    return Ok(bindings);
  }

  predicate IsNumber(number: nat) {
    0 < number <= I64_MAX
  }

  function RepoLookup(
    valid: KeyCheck, arrange: seq<Binding> -> seq<Binding>, db: Db, repo: string, number: nat)
    : Result<seq<Binding>, StoreError>
  {
    if !IsRepoKey(repo) then Err(BadRepoKey)
    else if !IsNumber(number) then Err(BadNumber)
    else DecodeRows(valid, arrange(Joined(db, db.members, repo, Decimal(number))))
  }

  /** `bindings_for_repo_number_with`. */
  method BindingsForRepoNumber(
    valid: KeyCheck, arrange: seq<Binding> -> seq<Binding>, db: Db, repo: string, number: nat)
    returns (result: Result<seq<Binding>, StoreError>)
    ensures result == RepoLookup(valid, arrange, db, repo, number)
  {
    if !IsRepoKey(repo) {
      return Err(BadRepoKey);
    }
    if !IsNumber(number) {
      return Err(BadNumber);
    }
    result := DecodeAllRows(valid, arrange(Joined(db, db.members, repo, Decimal(number))));
  }

  function GlobalLookup(valid: KeyCheck, arrange: seq<Binding> -> seq<Binding>, db: Db, number: nat)
    : Result<seq<Binding>, StoreError>
  {
    if !IsNumber(number) then Err(BadNumber)
    else DecodeRows(valid, arrange(WithExternalId(db.bindings, Decimal(number))))
  }

  /** `bindings_for_number`. */
  method BindingsForNumber(valid: KeyCheck, arrange: seq<Binding> -> seq<Binding>, db: Db, number: nat)
    returns (result: Result<seq<Binding>, StoreError>)
    ensures result == GlobalLookup(valid, arrange, db, number)
  {
    if !IsNumber(number) {
      return Err(BadNumber);
    }
    result := DecodeAllRows(valid, arrange(WithExternalId(db.bindings, Decimal(number))));
  }

  // --- What the two queries select. ---

  lemma {:induction false} MatchingMeans(bindings: seq<Binding>, taskId: int, externalId: string)
    ensures forall b :: b in Matching(bindings, taskId, externalId)
                   <==> b in bindings && b.taskId == taskId && b.key.externalId == externalId
  {
    if bindings != [] {
      MatchingMeans(bindings[1..], taskId, externalId);
      assert bindings == [bindings[0]] + bindings[1..];
    }
  }

  /** Under the invariant an id matches at most one binding. */
  lemma MatchingIsOne(valid: KeyCheck, db: Db, taskId: int, externalId: string)
    requires Inv(valid, db)
    ensures Distinct(Matching(db.bindings, taskId, externalId))
  {
    MatchingDistinct(db.bindings, taskId, externalId);
  }

  lemma {:induction false} MatchingDistinct(bindings: seq<Binding>, taskId: int, externalId: string)
    requires IncreasingIds(bindings)
    ensures Distinct(Matching(bindings, taskId, externalId))
  {
    if bindings != [] {
      MatchingDistinct(bindings[1..], taskId, externalId);
      MatchingMeans(bindings[1..], taskId, externalId);
      forall b | b in bindings[1..] ensures b.taskId > bindings[0].taskId {
        var i :| 0 <= i < |bindings[1..]| && bindings[1..][i] == b;
        assert b == bindings[i + 1];
      }
    }
  }

  lemma {:induction false} WithExternalIdMeans(bindings: seq<Binding>, externalId: string)
    requires IncreasingIds(bindings)
    ensures var rows := WithExternalId(bindings, externalId);
            && Distinct(rows)
            && forall b :: b in rows <==> b in bindings && b.key.externalId == externalId
  {
    if bindings != [] {
      WithExternalIdMeans(bindings[1..], externalId);
      assert bindings == [bindings[0]] + bindings[1..];
      forall b | b in bindings[1..] ensures b != bindings[0] {
        var i :| 0 <= i < |bindings[1..]| && bindings[1..][i] == b;
        assert b == bindings[i + 1];
      }
    }
  }

  lemma {:induction false} JoinedMeans(valid: KeyCheck, db: Db, members: seq<Member>, repo: string, externalId: string)
    requires Inv(valid, db) && DistinctMembers(members)
    ensures var rows := Joined(db, members, repo, externalId);
            && Distinct(rows)
            && forall b :: b in rows <==>
                 b in db.bindings && HasMember(members, repo, b.taskId) && b.key.externalId == externalId
    decreases |members|
  {
    if members != [] {
      var first, later := members[0], members[1..];
      JoinedMeans(valid, db, later, repo, externalId);
      MatchingMeans(db.bindings, first.taskId, externalId);
      MatchingIsOne(valid, db, first.taskId, externalId);
      forall taskId
        ensures HasMember(members, repo, taskId)
           <==> (first.repo == repo && first.taskId == taskId) || HasMember(later, repo, taskId)
      {
        HasMemberCons(first, later, repo, taskId);
        assert members == [first] + later;
      }
    }
  }

  lemma HasMemberCons(first: Member, later: seq<Member>, repo: string, taskId: int)
    ensures HasMember([first] + later, repo, taskId)
       <==> (first.repo == repo && first.taskId == taskId) || HasMember(later, repo, taskId)
  {
    var all := [first] + later;
    if HasMember(later, repo, taskId) {
      var i :| 0 <= i < |later| && later[i].repo == repo && later[i].taskId == taskId;
      assert all[i + 1] == later[i];
    }
    if first.repo == repo && first.taskId == taskId {
      assert all[0] == first;
    }
    if HasMember(all, repo, taskId) {
      var i :| 0 <= i < |all| && all[i].repo == repo && all[i].taskId == taskId;
      if i > 0 {
        assert later[i - 1] == all[i];
      }
    }
  }

  // --- What the lookups return. ---

  /** The rows a lookup returns: ascending ids, and exactly those that `wanted` holds of. */
  ghost predicate Lists(rows: seq<Binding>, wanted: Binding -> bool) {
    IncreasingIds(rows) && forall b :: b in rows <==> wanted(b)
  }

  lemma {:induction false} RowsDecodeToThemselves(valid: KeyCheck, rows: seq<Binding>)
    requires forall b :: b in rows ==> DecodeBinding(valid, b) == Ok(b)
    ensures DecodeRows(valid, rows) == Ok(rows)
  {
    if rows != [] {
      assert rows[0] in rows;
      RowsDecodeToThemselves(valid, rows[1..]);
      assert [rows[0]] + rows[1..] == rows;
    }
  }

  lemma TableRowsDecode(valid: KeyCheck, db: Db, rows: seq<Binding>)
    requires Inv(valid, db) && forall b :: b in rows ==> b in db.bindings
    ensures DecodeRows(valid, rows) == Ok(rows)
  {
    forall b | b in rows ensures DecodeBinding(valid, b) == Ok(b) {
      var i :| 0 <= i < |db.bindings| && db.bindings[i] == b;
    }
    RowsDecodeToThemselves(valid, rows);
  }

  lemma SortedRowsIncrease(valid: KeyCheck, db: Db, rows: seq<Binding>, sorted: seq<Binding>)
    requires Inv(valid, db) && SortOf(IdLe, rows, sorted) && Distinct(rows)
    requires forall b :: b in rows ==> b in db.bindings
    ensures IncreasingIds(sorted) && forall b :: b in sorted <==> b in rows
  {
    SortOfKeeps(IdLe, rows, sorted);
    forall i, j | 0 <= i < j < |sorted| ensures sorted[i].taskId < sorted[j].taskId {
      var x, y := sorted[i], sorted[j];
      assert IdLe(x, y) && x != y && x in sorted && y in sorted;
      OneToOne(valid, db, x, y);
    }
  }

  /** Rows of the table decode to themselves and come out in strictly increasing id order. */
  lemma ArrangedRows(
    valid: KeyCheck, arrange: seq<Binding> -> seq<Binding>, db: Db, rows: seq<Binding>, wanted: Binding -> bool)
    requires Inv(valid, db) && OrdersById(arrange) && Distinct(rows)
    requires forall b :: b in rows <==> wanted(b)
    requires forall b :: b in rows ==> b in db.bindings
    ensures DecodeRows(valid, arrange(rows)) == Ok(arrange(rows)) && Lists(arrange(rows), wanted)
  {
    SortedRowsIncrease(valid, db, rows, arrange(rows));
    TableRowsDecode(valid, db, arrange(rows));
  }

  /** A member of the repository whose id is the decimal form of the number. */
  function RepoHit(db: Db, repo: string, number: nat): Binding -> bool {
    (b: Binding) => b in db.bindings && HasMember(db.members, repo, b.taskId) && b.key.externalId == Decimal(number)
  }

  function GlobalHit(db: Db, number: nat): Binding -> bool {
    (b: Binding) => b in db.bindings && b.key.externalId == Decimal(number)
  }

  /** Rows come back as they are stored, unless one of them has no positive id, no positive time or a wrong key. */
  lemma {:induction false} DecodeRowsExactly(valid: KeyCheck, rows: seq<Binding>)
    ensures DecodeRows(valid, rows) ==
            if forall i :: 0 <= i < |rows| ==> rows[i].taskId > 0 && rows[i].createdAt > 0 && valid(rows[i].key)
            then Ok(rows) else Err(CorruptRow)
  {
    if rows != [] {
      var later := rows[1..];
      assert rows == [rows[0]] + later;
      DecodeRowsExactly(valid, later);
      assert forall i :: 0 <= i < |later| ==> later[i] == rows[i + 1];
      assert forall i :: 0 < i < |rows| ==> rows[i] == later[i - 1];
    }
  }

  lemma RepoLookupLists(
    valid: KeyCheck, arrange: seq<Binding> -> seq<Binding>, db: Db, repo: string, number: nat)
    requires Inv(valid, db) && OrdersById(arrange)
    ensures var r := RepoLookup(valid, arrange, db, repo, number);
            && (r.Ok? <==> IsText(repo, 512) && 0 < number <= I64_MAX)
            && (r.Err? ==> r == Err(if IsText(repo, 512) then BadNumber else BadRepoKey))
            && (r.Ok? ==> Lists(r.value, RepoHit(db, repo, number)))
  {
    RepoKeyExactly(repo);
    if IsRepoKey(repo) && IsNumber(number) {
      JoinedMeans(valid, db, db.members, repo, Decimal(number));
      ArrangedRows(valid, arrange, db, Joined(db, db.members, repo, Decimal(number)), RepoHit(db, repo, number));
    }
  }

  lemma GlobalLookupLists(valid: KeyCheck, arrange: seq<Binding> -> seq<Binding>, db: Db, number: nat)
    requires Inv(valid, db) && OrdersById(arrange)
    ensures var r := GlobalLookup(valid, arrange, db, number);
            && (r.Ok? <==> 0 < number <= I64_MAX)
            && (r.Err? ==> r == Err(BadNumber))
            && (r.Ok? ==> Lists(r.value, GlobalHit(db, number)))
  {
    if IsNumber(number) {
      WithExternalIdMeans(db.bindings, Decimal(number));
      ArrangedRows(valid, arrange, db, WithExternalId(db.bindings, Decimal(number)), GlobalHit(db, number));
    }
  }

  // --- By number. ---

  /** On a canonical key: the id is the decimal form of `number` when it names it without a plus sign. */
  lemma DecimalNames(norm: Normaliser, key: TaskKey, number: nat)
    requires IsCanonical(norm, key)
    ensures key.externalId != []
    ensures key.externalId == Decimal(number) <==> ExternalNumber(key) == Some(number) && key.externalId[0] != '+'
  {
    DecimalExactly(norm, key);
    if key.externalId == Decimal(number) {
      assert IsDigit(Decimal(number)[0]);
      DecimalInjective(ExternalNumber(key).value, number);
    }
  }

  /** The id of the key is written with a leading plus sign. */
  predicate IsSigned(key: TaskKey) {
    key.externalId != [] && key.externalId[0] == '+'
  }

  /** A task of any repository, or of none, that carries this number. */
  predicate HasNumber(db: Db, number: nat, b: Binding) {
    b in db.bindings && ExternalNumber(b.key) == Some(number)
  }

  lemma GlobalHitIsUnsigned(norm: Normaliser, db: Db, number: nat, b: Binding)
    requires Inv(Rebuilds(norm), db)
    ensures GlobalHit(db, number)(b) <==> HasNumber(db, number, b) && !IsSigned(b.key)
  {
    if b in db.bindings {
      var i :| 0 <= i < |db.bindings| && db.bindings[i] == b;
      assert DecodeBinding(Rebuilds(norm), db.bindings[i]).Ok?;
      DecimalNames(norm, b.key, number);
    }
  }

  /** A task of the repository that carries this number, signed or not. */
  predicate IsMemberWithNumber(db: Db, repo: string, number: nat, b: Binding) {
    HasNumber(db, number, b) && HasMember(db.members, repo, b.taskId)
  }

  lemma HitIsUnsignedMember(norm: Normaliser, db: Db, repo: string, number: nat, b: Binding)
    requires Inv(Rebuilds(norm), db)
    ensures RepoHit(db, repo, number)(b) <==> IsMemberWithNumber(db, repo, number, b) && !IsSigned(b.key)
  {
    GlobalHitIsUnsigned(norm, db, number, b);
  }

  /**
   * Sound and complete: the lookup lists, in strictly increasing id order,
   * exactly the repository's tasks whose id names the number without a sign.
   */
  lemma RepoLookupFindsExactly(
    norm: Normaliser, arrange: seq<Binding> -> seq<Binding>, db: Db, repo: string, number: nat, rows: seq<Binding>)
    requires Inv(Rebuilds(norm), db) && OrdersById(arrange)
    requires RepoLookup(Rebuilds(norm), arrange, db, repo, number) == Ok(rows)
    ensures IncreasingIds(rows)
    ensures forall b :: b in rows <==> IsMemberWithNumber(db, repo, number, b) && !IsSigned(b.key)
  {
    RepoLookupLists(Rebuilds(norm), arrange, db, repo, number);
    forall b ensures b in rows <==> IsMemberWithNumber(db, repo, number, b) && !IsSigned(b.key) {
      assert b in rows <==> RepoHit(db, repo, number)(b);
      HitIsUnsignedMember(norm, db, repo, number, b);
    }
  }

  /** Every task of the repository with this number is found exactly when none of them is signed. */
  lemma RepoLookupCompleteExactly(
    norm: Normaliser, arrange: seq<Binding> -> seq<Binding>, db: Db, repo: string, number: nat, rows: seq<Binding>)
    requires Inv(Rebuilds(norm), db) && OrdersById(arrange)
    requires RepoLookup(Rebuilds(norm), arrange, db, repo, number) == Ok(rows)
    ensures (forall b :: IsMemberWithNumber(db, repo, number, b) ==> b in rows)
       <==> (forall b :: IsMemberWithNumber(db, repo, number, b) ==> !IsSigned(b.key))
  {
    RepoLookupFindsExactly(norm, arrange, db, repo, number, rows);
  }

  /** Sound and complete across repositories: exactly the tasks whose id names the number without a sign. */
  lemma GlobalLookupFindsExactly(
    norm: Normaliser, arrange: seq<Binding> -> seq<Binding>, db: Db, number: nat, rows: seq<Binding>)
    requires Inv(Rebuilds(norm), db) && OrdersById(arrange)
    requires GlobalLookup(Rebuilds(norm), arrange, db, number) == Ok(rows)
    ensures IncreasingIds(rows)
    ensures forall b :: b in rows <==> HasNumber(db, number, b) && !IsSigned(b.key)
  {
    GlobalLookupLists(Rebuilds(norm), arrange, db, number);
    forall b ensures b in rows <==> HasNumber(db, number, b) && !IsSigned(b.key) {
      assert b in rows <==> GlobalHit(db, number)(b);
      GlobalHitIsUnsigned(norm, db, number, b);
    }
  }

  /** Every task with this number is found exactly when none of them is signed. */
  lemma GlobalLookupCompleteExactly(
    norm: Normaliser, arrange: seq<Binding> -> seq<Binding>, db: Db, number: nat, rows: seq<Binding>)
    requires Inv(Rebuilds(norm), db) && OrdersById(arrange)
    requires GlobalLookup(Rebuilds(norm), arrange, db, number) == Ok(rows)
    ensures (forall b :: HasNumber(db, number, b) ==> b in rows)
       <==> (forall b :: HasNumber(db, number, b) ==> !IsSigned(b.key))
  {
    GlobalLookupFindsExactly(norm, arrange, db, number, rows);
  }

  lemma RepoNameIsValid()
    ensures IsRepoKey("repo")
  {
    PlainFieldFixed("repo");
  }

  lemma JoinOnlyTask(row: Binding)
    requires row.taskId == 1
    ensures AddMembership(Db([row], [], 1), "repo", 1, 1).db == Db([row], [Member("repo", 1, 1)], 1)
  {
    RepoNameIsValid();
    assert [row][1..] == [];
    assert CountId([row], 1) == 1;
    assert [] + [Member("repo", 1, 1)] == [Member("repo", 1, 1)];
  }

  /** The store after ensuring `key` and adding it to "repo". */
  lemma OneTask(valid: KeyCheck, key: TaskKey)
    requires valid(key) && InsertAllowed(EMPTY, key)
    ensures Run(valid, EMPTY, [Ensure(key, 1), TaskStore.Join("repo", 1, 1)])
         == Db([Binding(1, key, 1)], [Member("repo", 1, 1)], 1)
  {
    var row := Binding(1, key, 1);
    EnsureNew(valid, EMPTY, key, 1);
    assert EMPTY.bindings + [row] == [row];
    JoinOnlyTask(row);
    var one, db := Db([row], [], 1), Db([row], [Member("repo", 1, 1)], 1);
    var first, second := Ensure(key, 1), TaskStore.Join("repo", 1, 1);
    assert Step(valid, EMPTY, first) == one && Step(valid, one, second) == db;
    RunTwo(valid, EMPTY, first, second);
  }

  lemma RunTwo(valid: KeyCheck, db: Db, first: Tx, second: Tx)
    ensures Run(valid, db, [first, second]) == Step(valid, Step(valid, db, first), second)
  {
    var next := Step(valid, db, first);
    assert [first, second][1..] == [second] && [second][1..] == [];
    assert Run(valid, next, [second]) == Run(valid, Step(valid, next, second), []);
  }

  /** The store that holds one task, in "repo". */
  function Lone(key: TaskKey): Db {
    Db([Binding(1, key, 1)], [Member("repo", 1, 1)], 1)
  }

  lemma SignedIsNotFound(norm: Normaliser, arrange: seq<Binding> -> seq<Binding>, key: TaskKey, number: nat)
    requires OrdersById(arrange) && Inv(Rebuilds(norm), Lone(key)) && IsSigned(key) && IsNumber(number)
    ensures RepoLookup(Rebuilds(norm), arrange, Lone(key), "repo", number) == Ok([])
  {
    RepoNameIsValid();
    RepoLookupLists(Rebuilds(norm), arrange, Lone(key), "repo", number);
    var rows := RepoLookup(Rebuilds(norm), arrange, Lone(key), "repo", number).value;
    RepoLookupFindsExactly(norm, arrange, Lone(key), "repo", number, rows);
    assert forall b :: b in Lone(key).bindings ==> b == Binding(1, key, 1);
    NothingIn(rows);
  }

  lemma LoneMember(key: TaskKey, number: nat)
    requires ExternalNumber(key) == Some(number)
    ensures IsMemberWithNumber(Lone(key), "repo", number, Binding(1, key, 1))
  {
    assert Lone(key).members[0].repo == "repo" && Lone(key).members[0].taskId == 1;
  }

  /** "+7" is stored as a task with number 7 that number 7 does not find. */
  lemma PlusIsNeverFound(norm: Normaliser, arrange: seq<Binding> -> seq<Binding>, key: TaskKey)
    requires OrdersById(arrange) && key == TaskKey("local", "local", "default", "+7")
    ensures var db := Run(Rebuilds(norm), EMPTY, [Ensure(key, 1), TaskStore.Join("repo", 1, 1)]);
            && IsMemberWithNumber(db, "repo", 7, Binding(1, key, 1))
            && RepoLookup(Rebuilds(norm), arrange, db, "repo", 7) == Ok([])
  {
    LocalKeysAreCanonical(norm);
    LoneStoreIsSound(Rebuilds(norm), key);
    LoneMember(key, 7);
    SignedIsNotFound(norm, arrange, key, 7);
  }

  lemma LoneStoreIsSound(valid: KeyCheck, key: TaskKey)
    requires valid(key) && InsertAllowed(EMPTY, key)
    ensures Run(valid, EMPTY, [Ensure(key, 1), TaskStore.Join("repo", 1, 1)]) == Lone(key) && Inv(valid, Lone(key))
  {
    OneTask(valid, key);
    RunKeepsInv(valid, EMPTY, [Ensure(key, 1), TaskStore.Join("repo", 1, 1)]);
  }

  lemma NothingIn(rows: seq<Binding>)
    requires forall b :: b !in rows
    ensures rows == []
  {
    if rows != [] {
      SomethingIn(rows);
    }
  }

  lemma SomethingIn(rows: seq<Binding>)
    requires rows != []
    ensures exists b :: b in rows
  {
    assert rows[0] in rows;
  }

  // --- Scope and growth. ---

  /** A repository's answer is part of the answer across all repositories. */
  lemma RepoLookupWithinGlobal(
    valid: KeyCheck, arrange: seq<Binding> -> seq<Binding>, db: Db, repo: string, number: nat, rows: seq<Binding>)
    requires Inv(valid, db) && OrdersById(arrange)
    requires RepoLookup(valid, arrange, db, repo, number) == Ok(rows)
    ensures var all := GlobalLookup(valid, arrange, db, number);
            all.Ok? && forall b :: b in rows ==> b in all.value
  {
    RepoLookupLists(valid, arrange, db, repo, number);
    GlobalLookupLists(valid, arrange, db, number);
    var all := GlobalLookup(valid, arrange, db, number).value;
    forall b | b in rows ensures b in all {
      assert RepoHit(db, repo, number)(b);
      assert GlobalHit(db, number)(b);
    }
  }

  /** Two ascending lists of the same bindings are equal. */
  lemma {:induction false} AscendingUnique(a: seq<Binding>, b: seq<Binding>)
    requires IncreasingIds(a) && IncreasingIds(b) && forall x :: x in a <==> x in b
    ensures a == b
    decreases |a|
  {
    if a == [] {
      NothingIn(b);
    } else {
      assert a[0] in b;
      assert b[0] in a;
      assert a[0] == b[0];
      forall x ensures x in a[1..] <==> x in b[1..] {
        TailHas(a, x);
        TailHas(b, x);
      }
      AscendingUnique(a[1..], b[1..]);
      assert a == [a[0]] + a[1..] && b == [b[0]] + b[1..];
    }
  }

  lemma TailHas(a: seq<Binding>, x: Binding)
    requires a != [] && IncreasingIds(a)
    ensures x in a[1..] <==> x in a && x != a[0]
  {
    assert a == [a[0]] + a[1..];
    if x in a[1..] {
      var i :| 0 <= i < |a[1..]| && a[1..][i] == x;
      assert a[i + 1] == x;
    }
  }

  /** Only this repository's memberships matter to its lookups. */
  lemma OtherRepositoriesDoNotMatter(
    valid: KeyCheck, arrange: seq<Binding> -> seq<Binding>, a: Db, b: Db, repo: string, number: nat)
    requires Inv(valid, a) && Inv(valid, b) && OrdersById(arrange) && a.bindings == b.bindings
    requires forall taskId :: HasMember(a.members, repo, taskId) <==> HasMember(b.members, repo, taskId)
    ensures RepoLookup(valid, arrange, a, repo, number) == RepoLookup(valid, arrange, b, repo, number)
  {
    var r, t := RepoLookup(valid, arrange, a, repo, number), RepoLookup(valid, arrange, b, repo, number);
    RepoLookupLists(valid, arrange, a, repo, number);
    RepoLookupLists(valid, arrange, b, repo, number);
    if r.Ok? {
      forall x ensures x in r.value <==> x in t.value {
        assert x in r.value <==> RepoHit(a, repo, number)(x);
        assert x in t.value <==> RepoHit(b, repo, number)(x);
      }
      AscendingUnique(r.value, t.value);
    }
  }

  /** A membership added for another repository leaves this one's lookups alone. */
  lemma ForeignJoinIsInvisible(
    valid: KeyCheck, arrange: seq<Binding> -> seq<Binding>, db: Db, tx: Tx, repo: string, number: nat)
    requires Inv(valid, db) && OrdersById(arrange) && tx.Join? && tx.repo != repo
    ensures RepoLookup(valid, arrange, Step(valid, db, tx), repo, number)
         == RepoLookup(valid, arrange, db, repo, number)
  {
    var next := Step(valid, db, tx);
    StepKeepsInv(valid, db, tx);
    if next != db {
      var added := Member(tx.repo, tx.taskId, tx.now);
      assert next.members == db.members + [added];
      forall taskId ensures HasMember(next.members, repo, taskId) <==> HasMember(db.members, repo, taskId) {
        MembersGrow(db.members, next.members, repo, taskId);
      }
    }
    OtherRepositoriesDoNotMatter(valid, arrange, next, db, repo, number);
  }

  lemma MembersGrow(members: seq<Member>, more: seq<Member>, repo: string, taskId: int)
    requires members <= more
    ensures HasMember(members, repo, taskId) ==> HasMember(more, repo, taskId)
  {
    if HasMember(members, repo, taskId) {
      var i :| 0 <= i < |members| && members[i].repo == repo && members[i].taskId == taskId;
      assert more[i] == members[i];
    }
  }

  lemma HitStays(db: Db, end: Db, repo: string, number: nat, b: Binding)
    requires db.bindings <= end.bindings && db.members <= end.members && RepoHit(db, repo, number)(b)
    ensures RepoHit(end, repo, number)(b)
  {
    var i :| 0 <= i < |db.bindings| && db.bindings[i] == b;
    assert end.bindings[i] == b;
    MembersGrow(db.members, end.members, repo, b.taskId);
  }

  lemma RowsStay(db: Db, end: Db, repo: string, number: nat, rows: seq<Binding>, later: seq<Binding>)
    requires db.bindings <= end.bindings && db.members <= end.members
    requires Lists(rows, RepoHit(db, repo, number)) && Lists(later, RepoHit(end, repo, number))
    ensures (forall b :: b in rows ==> b in later) && (|rows| > 1 ==> |later| > 1)
  {
    forall b | b in rows ensures b in later {
      assert RepoHit(db, repo, number)(b);
      HitStays(db, end, repo, number, b);
      assert RepoHit(end, repo, number)(b);
    }
    if |rows| > 1 {
      assert rows[0] in later && rows[1] in later && rows[0] != rows[1];
    }
  }

  /** Whatever runs afterwards, a found task stays found, so an ambiguous number stays ambiguous. */
  lemma FoundStaysFound(
    valid: KeyCheck, arrange: seq<Binding> -> seq<Binding>, db: Db, txs: seq<Tx>, repo: string, number: nat,
    rows: seq<Binding>)
    requires Inv(valid, db) && AllCallable(valid, txs) && OrdersById(arrange)
    requires RepoLookup(valid, arrange, db, repo, number) == Ok(rows)
    ensures var later := RepoLookup(valid, arrange, Run(valid, db, txs), repo, number);
            && later.Ok?
            && (forall b :: b in rows ==> b in later.value)
            && (|rows| > 1 ==> |later.value| > 1)
  {
    var end := Run(valid, db, txs);
    RunKeepsInv(valid, db, txs);
    RepoLookupLists(valid, arrange, db, repo, number);
    RepoLookupLists(valid, arrange, end, repo, number);
    RowsStay(db, end, repo, number, rows, RepoLookup(valid, arrange, end, repo, number).value);
  }

  // --- Membership. ---

  function CountMembers(db: Db, members: seq<Member>, repo: string, taskId: int): nat
    decreases |members|
  {
    if members == [] then 0
    else (if members[0].repo == repo && members[0].taskId == taskId then CountId(db.bindings, taskId) else 0)
         + CountMembers(db, members[1..], repo, taskId)
  }

  /** `task_repo_membership_exists_on`. */
  function MembershipExists(db: Db, repo: string, taskId: int): Result<bool, StoreError> {
    if !IsRepoKey(repo) then Err(BadRepoKey)
    else if taskId <= 0 then Err(BadTaskId)
    else Ok(CountMembers(db, db.members, repo, taskId) == 1)
  }

  lemma {:induction false} CountMembersMeans(valid: KeyCheck, db: Db, members: seq<Member>, repo: string, taskId: int)
    requires Inv(valid, db) && DistinctMembers(members)
    requires forall i :: 0 <= i < |members| ==> HasBinding(db.bindings, members[i].taskId)
    ensures CountMembers(db, members, repo, taskId) == if HasMember(members, repo, taskId) then 1 else 0
    decreases |members|
  {
    if members != [] {
      var first, later := members[0], members[1..];
      assert members == [first] + later;
      CountMembersMeans(valid, db, later, repo, taskId);
      HasMemberCons(first, later, repo, taskId);
      if first.repo == repo && first.taskId == taskId {
        CountIdOnce(db.bindings, taskId);
      }
    }
  }

  /** The membership proof is exact on every reachable store. */
  lemma MembershipExactly(valid: KeyCheck, db: Db, repo: string, taskId: int)
    requires Inv(valid, db)
    ensures MembershipExists(db, repo, taskId) ==
            if !IsText(repo, 512) then Err(BadRepoKey)
            else if taskId <= 0 then Err(BadTaskId)
            else Ok(exists i :: 0 <= i < |db.members| && db.members[i].repo == repo && db.members[i].taskId == taskId)
  {
    RepoKeyExactly(repo);
    CountMembersMeans(valid, db, db.members, repo, taskId);
  }
}
