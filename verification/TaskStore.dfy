/**
 * The durable task store: two append-only tables changed by serialised
 * transactions from any number of connections (src/task_identity.rs).
 */
module TaskStore {
  import opened Arithmetic
  import opened Text
  import opened Names
  import opened TaskKeys

  /** A `task_bindings` row; decoded, it is the same record with a checked key. */
  datatype Binding = Binding(taskId: int, key: TaskKey, createdAt: int)

  /** A `task_repo_memberships` row. */
  datatype Member = Member(repo: string, taskId: int, createdAt: int)

  /** Both tables and the AUTOINCREMENT counter. */
  datatype Db = Db(bindings: seq<Binding>, members: seq<Member>, lastId: nat)

  datatype StoreError = BadTimestamp | BadTaskId | BadRepoKey | BadNumber | NoSuchTask | CorruptRow | InsertFailed

  datatype Outcome<T> = Outcome(db: Db, result: Result<T, StoreError>)

  const EMPTY: Db := Db([], [], 0)

  // --- Transactions. ---

  /** Tells whether `TaskKey::new` on the stored fields rebuilds the stored key; see `Rebuilds`. */
  type KeyCheck = TaskKey -> bool

  /** `decode_binding`: a row is accepted only with a positive id and time and a canonical key. */
  function DecodeBinding(valid: KeyCheck, row: Binding): Result<Binding, StoreError> {
    if row.taskId <= 0 || row.createdAt <= 0 || !valid(row.key) then Err(CorruptRow) else Ok(row)
  }

  function WithKey(bindings: seq<Binding>, key: TaskKey): seq<Binding> {
    if bindings == [] then []
    else (if bindings[0].key == key then [bindings[0]] else []) + WithKey(bindings[1..], key)
  }

  function CountId(bindings: seq<Binding>, taskId: int): nat {
    if bindings == [] then 0
    else (if bindings[0].taskId == taskId then 1 else 0) + CountId(bindings[1..], taskId)
  }

  /** The column checks and the AUTOINCREMENT limit. */
  predicate InsertAllowed(db: Db, key: TaskKey) {
    && key.provider != [] && key.instance != [] && key.project != [] && key.externalId != []
    && db.lastId < I64_MAX
  }

  /** `ensure_binding`: insert unless the key is present, then read it back; an error rolls back. */
  function EnsureBinding(valid: KeyCheck, db: Db, key: TaskKey, now: int): Outcome<Binding> {
    if now <= 0 then Outcome(db, Err(BadTimestamp))
    else if WithKey(db.bindings, key) == [] && !InsertAllowed(db, key) then Outcome(db, Err(InsertFailed))
    else
      var after := if WithKey(db.bindings, key) != [] then db
                   else Db(db.bindings + [Binding(db.lastId + 1, key, now)], db.members, db.lastId + 1);
      var rows := WithKey(after.bindings, key);
      if rows == [] then Outcome(db, Err(InsertFailed))
      else
        match DecodeBinding(valid, rows[0])
        case Err(e) => Outcome(db, Err(e))
        case Ok(binding) => Outcome(after, Ok(binding))
  }

  predicate IsRepoKey(repo: string) {
    Trim(repo) != [] && !HasControl(repo) && |repo| <= MAX_FIELD_CHARS
  }

  predicate HasMember(members: seq<Member>, repo: string, taskId: int) {
    exists i :: 0 <= i < |members| && members[i].repo == repo && members[i].taskId == taskId
  }

  /** `add_repo_membership`: the referenced binding is checked in the same transaction. */
  function AddMembership(db: Db, repo: string, taskId: int, now: int): Outcome<()> {
    if !IsRepoKey(repo) then Outcome(db, Err(BadRepoKey))
    else if now <= 0 then Outcome(db, Err(BadTimestamp))
    else if taskId <= 0 then Outcome(db, Err(BadTaskId))
    else if CountId(db.bindings, taskId) != 1 then Outcome(db, Err(NoSuchTask))
    else if HasMember(db.members, repo, taskId) then Outcome(db, Ok(()))
    else Outcome(db.(members := db.members + [Member(repo, taskId, now)]), Ok(()))
  }

  datatype Tx = Ensure(key: TaskKey, now: int) | Join(repo: string, taskId: int, now: int)

  function Step(valid: KeyCheck, db: Db, tx: Tx): Db {
    match tx
    case Ensure(key, now) => EnsureBinding(valid, db, key, now).db
    case Join(repo, taskId, now) => AddMembership(db, repo, taskId, now).db
  }

  /** Transactions one after the other: immediate transactions admit no other interleaving. */
  function Run(valid: KeyCheck, db: Db, txs: seq<Tx>): Db
    decreases |txs|
  {
    if txs == [] then db else Run(valid, Step(valid, db, txs[0]), txs[1..])
  }

  /** Keys in transactions were built by `TaskKey::new`. */
  ghost predicate Callable(valid: KeyCheck, tx: Tx) {
    tx.Ensure? ==> valid(tx.key)
  }

  ghost predicate AllCallable(valid: KeyCheck, txs: seq<Tx>) {
    forall i :: 0 <= i < |txs| ==> Callable(valid, txs[i])
  }

  // --- The store changed in place. ---

  /** The tables behind a connection; each method is one immediate transaction. */
  class Store {
    var bindings: seq<Binding>
    var members: seq<Member>
    var lastId: nat

    ghost function Snapshot(): Db
      reads this
    {
      Db(bindings, members, lastId)
    }

    constructor ()
      ensures Snapshot() == EMPTY
    {
      bindings, members, lastId := [], [], 0;
    }

    /** `INSERT ... ON CONFLICT DO NOTHING`. */
    method InsertBinding(key: TaskKey, now: int) returns (accepted: bool)
      modifies this
      ensures accepted == (WithKey(old(bindings), key) != [] || InsertAllowed(old(Snapshot()), key))
      ensures Snapshot() == if accepted && WithKey(old(bindings), key) == []
                            then Db(old(bindings) + [Binding(old(lastId) + 1, key, now)], old(members), old(lastId) + 1)
                            else old(Snapshot())
    {
      if WithKey(bindings, key) != [] {
        return true;
      }
      accepted := InsertAllowed(Db(bindings, members, lastId), key);
      if accepted {
        lastId := lastId + 1;
        bindings := bindings + [Binding(lastId, key, now)];
      }
    }

    /** Insert, read back, and roll back if the row read is not a valid one. */
    method Ensure(valid: KeyCheck, key: TaskKey, now: int) returns (result: Result<Binding, StoreError>)
      modifies this
      ensures Outcome(Snapshot(), result) == EnsureBinding(valid, old(Snapshot()), key, now)
    {
      if now <= 0 {
        return Err(BadTimestamp);
      }
      var before := (bindings, lastId);
      var accepted := InsertBinding(key, now);
      if !accepted {
        return Err(InsertFailed);
      }
      var rows := WithKey(bindings, key);
      result := if rows == [] then Err(InsertFailed) else DecodeBinding(valid, rows[0]);
      if result.Err? {
        bindings, lastId := before.0, before.1;
      }
    }

    method AddRepoMembership(repo: string, taskId: int, now: int) returns (result: Result<(), StoreError>)
      modifies this
      ensures Outcome(Snapshot(), result) == AddMembership(old(Snapshot()), repo, taskId, now)
    {
      if !IsRepoKey(repo) {
        return Err(BadRepoKey);
      }
      if now <= 0 {
        return Err(BadTimestamp);
      }
      if taskId <= 0 {
        return Err(BadTaskId);
      }
      if CountId(bindings, taskId) != 1 {
        return Err(NoSuchTask);
      }
      if !HasMember(members, repo, taskId) {
        members := members + [Member(repo, taskId, now)];
      }
      return Ok(());
    }
  }

  // --- The invariant. ---

  ghost predicate IncreasingIds(bindings: seq<Binding>) {
    forall i, j :: 0 <= i < j < |bindings| ==> bindings[i].taskId < bindings[j].taskId
  }

  ghost predicate DistinctKeys(bindings: seq<Binding>) {
    forall i, j :: 0 <= i < j < |bindings| ==> bindings[i].key != bindings[j].key
  }

  ghost predicate RowsDecode(valid: KeyCheck, db: Db) {
    forall i :: 0 <= i < |db.bindings| ==>
      && 0 < db.bindings[i].taskId <= db.lastId
      && DecodeBinding(valid, db.bindings[i]) == Ok(db.bindings[i])
  }

  ghost predicate DistinctMembers(members: seq<Member>) {
    forall i, j :: 0 <= i < j < |members| ==>
      !(members[i].repo == members[j].repo && members[i].taskId == members[j].taskId)
  }

  ghost predicate HasBinding(bindings: seq<Binding>, taskId: int) {
    exists i :: 0 <= i < |bindings| && bindings[i].taskId == taskId
  }

  ghost predicate MembersRefer(db: Db) {
    forall i :: 0 <= i < |db.members| ==> HasBinding(db.bindings, db.members[i].taskId)
  }

  /** Ids and keys are one-to-one, every row decodes to itself, every membership names a binding. */
  ghost predicate Inv(valid: KeyCheck, db: Db) {
    && IncreasingIds(db.bindings) && DistinctKeys(db.bindings) && RowsDecode(valid, db)
    && DistinctMembers(db.members) && MembersRefer(db) && db.lastId <= I64_MAX
  }

  lemma {:induction false} WithKeyMeans(bindings: seq<Binding>, key: TaskKey)
    ensures forall b :: b in WithKey(bindings, key) <==> b in bindings && b.key == key
  {
    if bindings != [] {
      WithKeyMeans(bindings[1..], key);
      assert bindings == [bindings[0]] + bindings[1..];
    }
  }

  lemma {:induction false} NoRows(bindings: seq<Binding>, key: TaskKey)
    requires forall b :: b in bindings ==> b.key != key
    ensures WithKey(bindings, key) == []
  {
    if bindings != [] {
      assert bindings[0] in bindings;
      NoRows(bindings[1..], key);
    }
  }

  lemma {:induction false} CountIdMeans(bindings: seq<Binding>, taskId: int)
    ensures CountId(bindings, taskId) > 0 <==> HasBinding(bindings, taskId)
  {
    if bindings != [] {
      CountIdMeans(bindings[1..], taskId);
      if HasBinding(bindings[1..], taskId) {
        var i :| 0 <= i < |bindings[1..]| && bindings[1..][i].taskId == taskId;
        assert bindings[i + 1].taskId == taskId;
      }
      if HasBinding(bindings, taskId) && bindings[0].taskId != taskId {
        var i :| 0 <= i < |bindings| && bindings[i].taskId == taskId;
        assert bindings[1..][i - 1].taskId == taskId;
      }
    }
  }

  lemma EnsurePresent(valid: KeyCheck, db: Db, row: Binding, now: int)
    requires Inv(valid, db) && row in db.bindings && now > 0
    ensures EnsureBinding(valid, db, row.key, now) == Outcome(db, Ok(row))
  {
    var rows := WithKey(db.bindings, row.key);
    WithKeyMeans(db.bindings, row.key);
    assert row in rows;
    assert rows[0] in rows;
    OneToOne(valid, db, row, rows[0]);
    var i :| 0 <= i < |db.bindings| && db.bindings[i] == row;
    assert DecodeBinding(valid, db.bindings[i]) == Ok(db.bindings[i]);
  }

  lemma EnsureNew(valid: KeyCheck, db: Db, key: TaskKey, now: int)
    requires valid(key) && now > 0 && InsertAllowed(db, key)
    requires forall b :: b in db.bindings ==> b.key != key
    ensures var row := Binding(db.lastId + 1, key, now);
            EnsureBinding(valid, db, key, now) == Outcome(Db(db.bindings + [row], db.members, db.lastId + 1), Ok(row))
  {
    var row := Binding(db.lastId + 1, key, now);
    var rows := WithKey(db.bindings + [row], key);
    WithKeyMeans(db.bindings, key);
    WithKeyMeans(db.bindings + [row], key);
    NoRows(db.bindings, key);
    assert row in rows;
    assert rows[0] in rows;
    assert rows[0] == row;
  }

  /** Under the invariant an ensured key is present with the returned row, old or new. */
  lemma EnsureKeepsInv(valid: KeyCheck, db: Db, key: TaskKey, now: int)
    requires Inv(valid, db) && valid(key)
    ensures var out := EnsureBinding(valid, db, key, now);
            && Inv(valid, out.db)
            && db.bindings <= out.db.bindings && out.db.members == db.members
            && (out.result.Ok? ==> out.result.value in out.db.bindings && out.result.value.key == key)
            && (out.result.Err? ==> out.db == db && out.result != Err(CorruptRow))
  {
    if now > 0 {
      if row :| row in db.bindings && row.key == key {
        EnsurePresent(valid, db, row, now);
      } else {
        WithKeyMeans(db.bindings, key);
        NoRows(db.bindings, key);
        if InsertAllowed(db, key) {
          EnsureNew(valid, db, key, now);
          AppendKeepsInv(valid, db, Binding(db.lastId + 1, key, now));
        }
      }
    }
  }

  lemma AppendKeepsInv(valid: KeyCheck, db: Db, row: Binding)
    requires Inv(valid, db) && row.taskId == db.lastId + 1 <= I64_MAX && DecodeBinding(valid, row) == Ok(row)
    requires forall b :: b in db.bindings ==> b.key != row.key
    ensures Inv(valid, Db(db.bindings + [row], db.members, row.taskId))
  {
    var after := Db(db.bindings + [row], db.members, row.taskId);
    forall i | 0 <= i < |db.members| ensures HasBinding(after.bindings, db.members[i].taskId) {
      assert HasBinding(db.bindings, db.members[i].taskId);
      var j :| 0 <= j < |db.bindings| && db.bindings[j].taskId == db.members[i].taskId;
      assert after.bindings[j].taskId == db.members[i].taskId;
    }
    forall i | 0 <= i < |db.bindings| ensures db.bindings[i].key != row.key {
      assert db.bindings[i] in db.bindings;
    }
  }

  lemma JoinKeepsInv(valid: KeyCheck, db: Db, repo: string, taskId: int, now: int)
    requires Inv(valid, db)
    ensures var out := AddMembership(db, repo, taskId, now);
            && Inv(valid, out.db)
            && out.db.bindings == db.bindings && db.members <= out.db.members
            && (out.result.Err? ==> out.db == db)
            && (out.result.Ok? ==> HasMember(out.db.members, repo, taskId))
  {
    CountIdMeans(db.bindings, taskId);
    var out := AddMembership(db, repo, taskId, now);
    if out.result.Ok? && !HasMember(db.members, repo, taskId) {
      assert out.db.members[|db.members|] == Member(repo, taskId, now);
      assert forall i :: 0 <= i < |db.members| ==>
        !(db.members[i].repo == repo && db.members[i].taskId == taskId);
    }
  }

  /** A repository key is stored as given: not blank, at most 512 characters, none of them a control. */
  lemma RepoKeyExactly(repo: string)
    ensures IsRepoKey(repo) <==> IsText(repo, 512)
  {
    TrimIsEmpty(repo);
  }

  /** A task joins a repository exactly under a valid key, at a positive time, if its binding exists. */
  lemma JoinExactly(valid: KeyCheck, db: Db, repo: string, taskId: int, now: int)
    requires Inv(valid, db)
    ensures var out := AddMembership(db, repo, taskId, now);
            && (out.result.Ok? <==> IsText(repo, 512) && now > 0 && HasBinding(db.bindings, taskId))
            && (out.result.Ok? ==>
                  if HasMember(db.members, repo, taskId) then out.db == db
                  else out.db == Db(db.bindings, db.members + [Member(repo, taskId, now)], db.lastId))
            && (out.result.Err? ==>
                  out == Outcome(db, Err(if !IsText(repo, 512) then BadRepoKey
                                         else if now <= 0 then BadTimestamp
                                         else if taskId <= 0 then BadTaskId
                                         else NoSuchTask)))
  {
    RepoKeyExactly(repo);
    CountIdMeans(db.bindings, taskId);
    CountIdOnce(db.bindings, taskId);
  }

  lemma {:induction false} CountIdOnce(bindings: seq<Binding>, taskId: int)
    requires IncreasingIds(bindings)
    ensures CountId(bindings, taskId) == if HasBinding(bindings, taskId) then 1 else 0
  {
    CountIdMeans(bindings, taskId);
    if bindings != [] {
      CountIdOnce(bindings[1..], taskId);
    }
  }

  /**
   * Ensuring a valid key fails exactly at no positive time, or if the key is
   * new and the columns or the exhausted counter refuse it. A new row gets the
   * next id and this time; a present one is returned as it is.
   */
  lemma EnsureExactly(valid: KeyCheck, db: Db, key: TaskKey, now: int)
    requires Inv(valid, db) && valid(key)
    ensures var out := EnsureBinding(valid, db, key, now);
            var known := exists b :: b in db.bindings && b.key == key;
            && (out.result == Err(BadTimestamp) <==> now <= 0)
            && (out.result == Err(InsertFailed) <==>
                  && now > 0 && !known
                  && (|key.provider| == 0 || |key.instance| == 0 || |key.project| == 0 || |key.externalId| == 0
                      || db.lastId >= I64_MAX))
            && (out.result.Ok? && known ==>
                  out.db == db && out.result.value in db.bindings && out.result.value.key == key)
            && (out.result.Ok? && !known ==>
                  var row := Binding(db.lastId + 1, key, now);
                  out == Outcome(Db(db.bindings + [row], db.members, db.lastId + 1), Ok(row)))
            && (out.result.Ok? || out.result in {Err(BadTimestamp), Err(InsertFailed)})
  {
    if now > 0 {
      if row :| row in db.bindings && row.key == key {
        EnsurePresent(valid, db, row, now);
        WithKeyMeans(db.bindings, key);
      } else {
        WithKeyMeans(db.bindings, key);
        NoRows(db.bindings, key);
        if InsertAllowed(db, key) {
          EnsureNew(valid, db, key, now);
        }
      }
    }
  }

  lemma StepKeepsInv(valid: KeyCheck, db: Db, tx: Tx)
    requires Inv(valid, db) && Callable(valid, tx)
    ensures var next := Step(valid, db, tx);
            Inv(valid, next) && db.bindings <= next.bindings && db.members <= next.members
  {
    match tx
    case Ensure(key, now) => EnsureKeepsInv(valid, db, key, now);
    case Join(repo, taskId, now) => JoinKeepsInv(valid, db, repo, taskId, now);
  }

  /**
   * Over every run: the invariant holds throughout, and both tables only grow
   * at the end, so no row's id, key or creation time ever changes.
   */
  lemma {:induction false} RunKeepsInv(valid: KeyCheck, db: Db, txs: seq<Tx>)
    requires Inv(valid, db) && AllCallable(valid, txs)
    ensures var end := Run(valid, db, txs);
            Inv(valid, end) && db.bindings <= end.bindings && db.members <= end.members
    decreases |txs|
  {
    if txs != [] {
      StepKeepsInv(valid, db, txs[0]);
      RunKeepsInv(valid, Step(valid, db, txs[0]), txs[1..]);
    }
  }

  /** From the empty store, ids and four-part keys stay one-to-one and memberships stay anchored. */
  lemma EveryRunIsSafe(valid: KeyCheck, txs: seq<Tx>)
    requires AllCallable(valid, txs)
    ensures var db := Run(valid, EMPTY, txs);
            && (forall a, b :: a in db.bindings && b in db.bindings ==> (a.taskId == b.taskId <==> a.key == b.key))
            && (forall m :: m in db.members ==> exists b :: b in db.bindings && b.taskId == m.taskId)
            && (forall b :: b in db.bindings ==> DecodeBinding(valid, b) == Ok(b))
  {
    RunKeepsInv(valid, EMPTY, txs);
    var db := Run(valid, EMPTY, txs);
    forall a, b | a in db.bindings && b in db.bindings ensures a.taskId == b.taskId <==> a.key == b.key {
      OneToOne(valid, db, a, b);
    }
    forall m | m in db.members ensures exists b :: b in db.bindings && b.taskId == m.taskId {
      var k :| 0 <= k < |db.members| && db.members[k] == m;
      assert HasBinding(db.bindings, db.members[k].taskId);
      var i :| 0 <= i < |db.bindings| && db.bindings[i].taskId == m.taskId;
      assert db.bindings[i] in db.bindings;
    }
  }

  lemma OneToOne(valid: KeyCheck, db: Db, a: Binding, b: Binding)
    requires Inv(valid, db) && a in db.bindings && b in db.bindings
    ensures a.taskId == b.taskId || a.key == b.key ==> a == b
  {
    var i :| 0 <= i < |db.bindings| && db.bindings[i] == a;
    var j :| 0 <= j < |db.bindings| && db.bindings[j] == b;
  }

  /** Whatever runs in between, ensuring the same key again returns the same row and writes nothing. */
  lemma EnsureAgreesForever(valid: KeyCheck, db: Db, key: TaskKey, now: int, txs: seq<Tx>, later: int)
    requires Inv(valid, db) && valid(key) && AllCallable(valid, txs)
    requires EnsureBinding(valid, db, key, now).result.Ok? && later > 0
    ensures var first := EnsureBinding(valid, db, key, now);
            var end := Run(valid, first.db, txs);
            EnsureBinding(valid, end, key, later) == Outcome(end, first.result)
  {
    var first := EnsureBinding(valid, db, key, now);
    EnsureKeepsInv(valid, db, key, now);
    RunKeepsInv(valid, first.db, txs);
    var end := Run(valid, first.db, txs);
    var row := first.result.value;
    assert row in end.bindings by {
      var i :| 0 <= i < |first.db.bindings| && first.db.bindings[i] == row;
      assert end.bindings[i] == row;
    }
    EnsurePresent(valid, end, row, later);
  }

  // --- Keys as callers build them. ---

  ghost predicate IsBuilt(norm: Normaliser, key: TaskKey) {
    exists provider, instance, project, externalId ::
      NewKey(norm, provider, instance, project, externalId) == Ok(key)
  }

  lemma BuiltKeyIsValid(norm: Normaliser, key: TaskKey)
    requires Idempotent(norm) && IsBuilt(norm, key)
    ensures Rebuilds(norm)(key)
  {
    var provider, instance, project, externalId :|
      NewKey(norm, provider, instance, project, externalId) == Ok(key);
    NewKeyIsCanonical(norm, provider, instance, project, externalId);
  }

  /**
   * Whatever keys callers build from whatever input, over every run each
   * stored row is read back as the key it was written for.
   */
  lemma StoredRowsDecode(norm: Normaliser, txs: seq<Tx>)
    requires Idempotent(norm) && forall i :: 0 <= i < |txs| && txs[i].Ensure? ==> IsBuilt(norm, txs[i].key)
    ensures Inv(Rebuilds(norm), Run(Rebuilds(norm), EMPTY, txs))
    ensures forall b :: b in Run(Rebuilds(norm), EMPTY, txs).bindings ==> DecodeBinding(Rebuilds(norm), b) == Ok(b)
  {
    forall i | 0 <= i < |txs| && txs[i].Ensure? ensures Callable(Rebuilds(norm), txs[i]) {
      BuiltKeyIsValid(norm, txs[i].key);
    }
    RunKeepsInv(Rebuilds(norm), EMPTY, txs);
    EveryRunIsSafe(Rebuilds(norm), txs);
  }
}
