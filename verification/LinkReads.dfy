/** Reverse reads of the branch link table, whole and by page (src/branch_links/reads.rs). */
module LinkReads {
  import opened Arithmetic
  import opened Text
  import opened Orders
  import opened Pagination

  datatype IssueKey = IssueKey(provider: string, project: string, externalId: string)

  datatype Status = Linked | Detached

  /** One `branch_issue_links` row; `detail` stands for the source, timestamp and reason columns. */
  datatype Row = Row(repo: string, issue: IssueKey, branch: string, number: int, status: Status, detail: string)

  datatype LinkedIssue = LinkedIssue(
    issue: IssueKey, number: nat, status: Status, detail: string, state: Option<string>)

  datatype ScopedBranch = ScopedBranch(
    branch: string, issue: IssueKey, number: nat, status: Status, detail: string, state: Option<string>)

  /** What both reads are asked for. */
  datatype Query = Query(repo: string, number: nat, includeDetached: bool)

  /** The primary key `(repo_key, branch, provider, project, external_id)`. */
  ghost predicate UniqueKeys(table: seq<Row>) {
    forall i, j :: 0 <= i < j < |table| ==>
      !(table[i].repo == table[j].repo && table[i].branch == table[j].branch && table[i].issue == table[j].issue)
  }

  /** A number beyond i64 is looked up as i64::MAX. */
  function Clamp(number: nat): nat {
    if number > I64_MAX then I64_MAX else number
  }

  predicate Selects(q: Query, row: Row) {
    row.repo == q.repo && row.number == Clamp(q.number) && (q.includeDetached || row.status == Linked)
  }

  function Where(q: Query, table: seq<Row>): seq<Row> {
    if table == [] then []
    else (if Selects(q, table[0]) then [table[0]] else []) + Where(q, table[1..])
  }

  /** `ORDER BY provider, project, external_id, branch`. */
  predicate RowLe(a: Row, b: Row) {
    if a.issue != b.issue then KeyLe(a.issue, b.issue) else StringLe(a.branch, b.branch)
  }

  predicate KeyLe(a: IssueKey, b: IssueKey) {
    if a.provider != b.provider then StringLe(a.provider, b.provider)
    else if a.project != b.project then StringLe(a.project, b.project)
    else StringLe(a.externalId, b.externalId)
  }

  lemma KeyOrder()
    ensures TotalOrder(KeyLe)
  {
    StringOrder();
    forall a, b, c | KeyLe(a, b) && KeyLe(b, c) ensures KeyLe(a, c) {
      KeyLeTransitive(a, b, c);
    }
  }

  lemma KeyLeTransitive(a: IssueKey, b: IssueKey, c: IssueKey)
    requires KeyLe(a, b) && KeyLe(b, c)
    ensures KeyLe(a, c)
  {
    StringOrder();
    if a.provider == b.provider == c.provider {
      if a.project == b.project == c.project {
        assert StringLe(a.externalId, c.externalId);
      } else {
        assert StringLe(a.project, c.project);
      }
    } else {
      assert StringLe(a.provider, c.provider);
    }
  }

  /** Any implementation of that ordering; two statements need not break ties the same way. */
  ghost predicate OrdersRows(arrange: seq<Row> -> seq<Row>) {
    forall rows {:trigger arrange(rows)} :: SortOf(RowLe, rows, arrange(rows))
  }

  /** `raw.max(0) as u64`. */
  function Shown(number: int): nat {
    if number < 0 then 0 else number
  }

  function Decode(row: Row, states: IssueKey -> Option<string>): ScopedBranch {
    ScopedBranch(row.branch, row.issue, Shown(row.number), row.status, row.detail, states(row.issue))
  }

  function DecodeAll(rows: seq<Row>, states: IssueKey -> Option<string>): seq<ScopedBranch> {
    seq(|rows|, i requires 0 <= i < |rows| => Decode(rows[i], states))
  }

  /** The rows of a whole read, in order. */
  function Selected(arrange: seq<Row> -> seq<Row>, table: seq<Row>, q: Query): seq<Row> {
    arrange(Where(q, table))
  }

  /** `branches_for_number`. */
  function FullRead(
    arrange: seq<Row> -> seq<Row>, table: seq<Row>, q: Query, states: IssueKey -> Option<string>)
    : seq<ScopedBranch>
  {
    DecodeAll(Selected(arrange, table, q), states)
  }

  method BranchesForNumber(
    arrange: seq<Row> -> seq<Row>, table: seq<Row>, q: Query, states: IssueKey -> Option<string>)
    returns (out: seq<ScopedBranch>)
    requires OrdersRows(arrange)
    ensures out == FullRead(arrange, table, q, states)
  {
    var rows := Selected(arrange, table, q);
    ArrangedSelects(arrange, table, q);
    assert forall j :: 0 <= j < |rows| ==> Selects(q, rows[j]);
    out := [];
    for i := 0 to |rows|
      invariant out == DecodeAll(rows, states)[..i]
    {
      var entry := Decode(rows[i], states);
      // The statement already left detached rows out, so this skip is never taken.
      if !q.includeDetached && entry.status == Detached {
        assert false;
      }
      out := out + [entry];
    }
  }

  datatype PageRead = PageRead(items: seq<ScopedBranch>, total: nat, ambiguous: bool)

  function IssueSet(rows: seq<Row>): set<IssueKey> {
    set i | 0 <= i < |rows| :: rows[i].issue
  }

  /** `branches_for_number_page`: count, distinct scopes and one window, inside one transaction. */
  method BranchesForNumberPage(
    arrange: seq<Row> -> seq<Row>, table: seq<Row>, q: Query, states: IssueKey -> Option<string>, r: PageRequest)
    returns (page: PageRead)
    ensures page == ReadPage(arrange, table, q, states, r)
  {
    var total := |Where(q, table)|;
    var scopes := |IssueSet(Where(q, table))|;
    var rows := Window(arrange(Where(q, table)), r.offset, r.limit);
    var out: seq<ScopedBranch> := seq(|rows|, i requires 0 <= i < |rows| => Decode(rows[i], _ => None));
    for i := 0 to |out|
      invariant |out| == |rows|
      invariant forall j :: 0 <= j < |rows| ==>
        out[j] == if j < i then Decode(rows[j], states) else Decode(rows[j], _ => None)
    {
      out := out[i := out[i].(state := states(out[i].issue))];
    }
    assert out == DecodeAll(rows, states);
    page := PageRead(out, total, scopes > 1);
  }

  function ReadPage(
    arrange: seq<Row> -> seq<Row>, table: seq<Row>, q: Query, states: IssueKey -> Option<string>, r: PageRequest)
    : PageRead
  {
    PageRead(DecodeAll(Window(Selected(arrange, table, q), r.offset, r.limit), states),
             |Where(q, table)|, |IssueSet(Where(q, table))| > 1)
  }

  // --- The order is total on the rows one query selects. ---

  lemma RowOrder()
    ensures TotalPreorder(RowLe)
  {
    StringOrder();
    KeyOrder();
    forall a, b ensures RowLe(a, b) || RowLe(b, a) {}
    forall a, b, c | RowLe(a, b) && RowLe(b, c) ensures RowLe(a, c) {
      RowLeTransitive(a, b, c);
    }
  }

  lemma RowLeTransitive(a: Row, b: Row, c: Row)
    requires RowLe(a, b) && RowLe(b, c)
    ensures RowLe(a, c)
  {
    StringOrder();
    KeyOrder();
  }

  lemma {:induction false} WhereSelects(q: Query, table: seq<Row>)
    ensures forall row :: row in Where(q, table) <==> row in table && Selects(q, row)
  {
    if table != [] {
      WhereSelects(q, table[1..]);
      assert table == [table[0]] + table[1..];
    }
  }

  lemma ArrangedSelects(arrange: seq<Row> -> seq<Row>, table: seq<Row>, q: Query)
    requires OrdersRows(arrange)
    ensures var rows := Selected(arrange, table, q);
            forall i :: 0 <= i < |rows| ==> Selects(q, rows[i])
  {
    var found, rows := Where(q, table), Selected(arrange, table, q);
    WhereSelects(q, table);
    assert multiset(rows) == multiset(found);
    forall i | 0 <= i < |rows| ensures Selects(q, rows[i]) {
      assert rows[i] in multiset(rows);
      assert rows[i] in multiset(found);
      assert rows[i] in found;
    }
  }

  lemma WhereHasNoTies(q: Query, table: seq<Row>)
    requires UniqueKeys(table)
    ensures NoTies(RowLe, Where(q, table))
  {
    StringOrder();
    KeyOrder();
    WhereSelects(q, table);
    forall a, b | a in Where(q, table) && b in Where(q, table) && RowLe(a, b) && RowLe(b, a) ensures a == b {
      assert a.repo == b.repo && a.issue == b.issue && a.branch == b.branch;
      var i :| 0 <= i < |table| && table[i] == a;
      var j :| 0 <= j < |table| && table[j] == b;
    }
  }

  /** Both statements see the same row order, whatever sort each uses. */
  lemma SameOrder(a: seq<Row> -> seq<Row>, b: seq<Row> -> seq<Row>, table: seq<Row>, q: Query)
    requires UniqueKeys(table) && OrdersRows(a) && OrdersRows(b)
    ensures Selected(a, table, q) == Selected(b, table, q)
    ensures |Selected(a, table, q)| == |Where(q, table)|
    ensures forall row :: row in Selected(a, table, q) <==> row in Where(q, table)
  {
    var rows := Where(q, table);
    var x, y := a(rows), b(rows);
    RowOrder();
    WhereHasNoTies(q, table);
    assert |x| == |multiset(x)| == |multiset(rows)| == |rows|;
    assert forall row :: row in x <==> row in multiset(x);
    assert forall row :: row in rows <==> row in multiset(rows);
    SortedUnique(RowLe, x, y);
  }

  // --- Paging refines the whole read. ---

  lemma DecodeWindow(rows: seq<Row>, states: IssueKey -> Option<string>, offset: nat, limit: nat)
    ensures DecodeAll(Window(rows, offset, limit), states) == Window(DecodeAll(rows, states), offset, limit)
  {}

  /** More than one issue is counted exactly when two rows carry different issues. */
  lemma SeveralIssues(rows: seq<Row>)
    ensures |IssueSet(rows)| > 1
       <==> exists i, j :: 0 <= i < |rows| && 0 <= j < |rows| && rows[i].issue != rows[j].issue
  {
    var issues := IssueSet(rows);
    if i, j :| 0 <= i < |rows| && 0 <= j < |rows| && rows[i].issue != rows[j].issue {
      assert {rows[i].issue, rows[j].issue} <= issues;
      SubsetSize({rows[i].issue, rows[j].issue}, issues);
    } else if rows != [] {
      assert issues == {rows[0].issue};
    }
  }

  lemma {:induction false} SubsetSize<T>(a: set<T>, b: set<T>)
    requires a <= b
    ensures |a| <= |b|
  {
    if a != {} {
      var x :| x in a;
      SubsetSize(a - {x}, b - {x});
    }
  }

  /**
   * Every page is the matching slice of the whole read, its total is the
   * length of the whole read, and its ambiguity flag says that the whole read,
   * not the page, names more than one issue.
   */
  lemma PageIsSlice(
    full: seq<Row> -> seq<Row>, paged: seq<Row> -> seq<Row>, table: seq<Row>, q: Query,
    states: IssueKey -> Option<string>, r: PageRequest)
    requires UniqueKeys(table) && OrdersRows(full) && OrdersRows(paged)
    ensures var whole, page := FullRead(full, table, q, states), ReadPage(paged, table, q, states, r);
            && page.items == Window(whole, r.offset, r.limit)
            && page.total == |whole|
            && (page.ambiguous <==>
                  exists i, j :: 0 <= i < |whole| && 0 <= j < |whole| && whole[i].issue != whole[j].issue)
  {
    var rows := Selected(full, table, q);
    SameOrder(full, paged, table, q);
    DecodeWindow(rows, states, r.offset, r.limit);
    var whole := DecodeAll(rows, states);
    SeveralIssues(rows);
    assert IssueSet(rows) == IssueSet(Where(q, table)) by {
      forall k ensures k in IssueSet(rows) <==> k in IssueSet(Where(q, table)) {
        SameIssues(rows, Where(q, table), k);
      }
    }
    assert forall i :: 0 <= i < |rows| ==> whole[i].issue == rows[i].issue;
  }

  lemma SameIssues(a: seq<Row>, b: seq<Row>, k: IssueKey)
    requires forall row :: row in a <==> row in b
    ensures k in IssueSet(a) <==> k in IssueSet(b)
  {
    if k in IssueSet(a) {
      var i :| 0 <= i < |a| && a[i].issue == k;
      assert a[i] in b;
    }
    if k in IssueSet(b) {
      var i :| 0 <= i < |b| && b[i].issue == k;
      assert b[i] in a;
    }
  }

  /** The page as it is shown: its items with the stored total. */
  function ShownPage(
    arrange: seq<Row> -> seq<Row>, table: seq<Row>, q: Query, states: IssueKey -> Option<string>, r: PageRequest)
    : Paged<ScopedBranch>
    requires |Where(q, table)| <= USIZE_MAX
  {
    var page := ReadPage(arrange, table, q, states, r);
    Known(page.items, r, page.total)
  }

  /** Reading page after page while more follow rebuilds the whole read. */
  lemma PagesRebuildFullRead(
    full: seq<Row> -> seq<Row>, paged: seq<Row> -> seq<Row>, table: seq<Row>, q: Query,
    states: IssueKey -> Option<string>, limit: usize)
    requires UniqueKeys(table) && OrdersRows(full) && OrdersRows(paged)
    requires |Where(q, table)| <= I64_MAX && 1 <= limit <= MAX_LIMIT
    ensures var whole := FullRead(full, table, q, states);
            Walk((r: PageRequest) => ShownPage(paged, table, q, states, r), limit, 1)
            == Some(Walked(whole, if whole == [] then 1 else CeilDiv(|whole|, limit)))
  {
    var whole := FullRead(full, table, q, states);
    var get := (r: PageRequest) => ShownPage(paged, table, q, states, r);
    SameOrder(full, paged, table, q);
    assert |whole| == |Where(q, table)|;
    forall r | IsRequest(r)
      ensures get(r).items == Slice(whole, r).items && get(r).hasMore == Slice(whole, r).hasMore
    {
      PageIsSlice(full, paged, table, q, states, r);
    }
    assert Serves(get, whole);
    WalkRebuilds(get, whole, limit);
  }

  // --- Forward reads. ---

  datatype BranchQuery = BranchQuery(repo: string, branch: string, includeDetached: bool)

  predicate SelectsBranch(q: BranchQuery, row: Row) {
    row.repo == q.repo && row.branch == q.branch && (q.includeDetached || row.status == Linked)
  }

  function WhereBranch(q: BranchQuery, table: seq<Row>): seq<Row> {
    if table == [] then []
    else (if SelectsBranch(q, table[0]) then [table[0]] else []) + WhereBranch(q, table[1..])
  }

  predicate IssueLe(a: Row, b: Row) {
    KeyLe(a.issue, b.issue)
  }

  /** Any implementation of `ORDER BY provider, project, external_id`. */
  ghost predicate OrdersByIssue(arrange: seq<Row> -> seq<Row>) {
    forall rows {:trigger arrange(rows)} :: SortOf(IssueLe, rows, arrange(rows))
  }

  function DecodeLink(row: Row, states: IssueKey -> Option<string>): LinkedIssue {
    LinkedIssue(row.issue, Shown(row.number), row.status, row.detail, states(row.issue))
  }

  /** `issues_for_branch`. */
  function BranchRead(
    arrange: seq<Row> -> seq<Row>, table: seq<Row>, q: BranchQuery, states: IssueKey -> Option<string>)
    : seq<LinkedIssue>
  {
    var rows := arrange(WhereBranch(q, table));
    seq(|rows|, i requires 0 <= i < |rows| => DecodeLink(rows[i], states))
  }

  method IssuesForBranch(
    arrange: seq<Row> -> seq<Row>, table: seq<Row>, q: BranchQuery, states: IssueKey -> Option<string>)
    returns (out: seq<LinkedIssue>)
    requires OrdersByIssue(arrange)
    ensures out == BranchRead(arrange, table, q, states)
  {
    var rows := arrange(WhereBranch(q, table));
    forall i | 0 <= i < |rows| ensures SelectsBranch(q, rows[i]) {
      ArrangedBranchRow(arrange, table, q, rows[i]);
    }
    out := [];
    for i := 0 to |rows|
      invariant out == BranchRead(arrange, table, q, states)[..i]
    {
      var entry := DecodeLink(rows[i], states);
      // The statement already left detached rows out, so this skip is never taken.
      if !q.includeDetached && entry.status == Detached {
        assert false;
      }
      out := out + [entry];
    }
  }

  lemma {:induction false} WhereBranchSelects(q: BranchQuery, table: seq<Row>)
    ensures forall row :: row in WhereBranch(q, table) <==> row in table && SelectsBranch(q, row)
  {
    if table != [] {
      WhereBranchSelects(q, table[1..]);
      assert table == [table[0]] + table[1..];
    }
  }

  lemma ArrangedBranchRow(arrange: seq<Row> -> seq<Row>, table: seq<Row>, q: BranchQuery, row: Row)
    requires OrdersByIssue(arrange)
    ensures row in arrange(WhereBranch(q, table)) <==> row in table && SelectsBranch(q, row)
  {
    var found := WhereBranch(q, table);
    WhereBranchSelects(q, table);
    assert multiset(arrange(found)) == multiset(found);
    assert row in arrange(found) <==> row in multiset(arrange(found));
    assert row in found <==> row in multiset(found);
  }

  lemma BranchRowHasEntry(
    arrange: seq<Row> -> seq<Row>, table: seq<Row>, q: BranchQuery, states: IssueKey -> Option<string>, row: Row)
    requires OrdersByIssue(arrange) && row in table && SelectsBranch(q, row)
    ensures DecodeLink(row, states) in BranchRead(arrange, table, q, states)
  {
    ArrangedBranchRow(arrange, table, q, row);
    var rows := arrange(WhereBranch(q, table));
    var i :| 0 <= i < |rows| && rows[i] == row;
    assert BranchRead(arrange, table, q, states)[i] == DecodeLink(row, states);
  }

  lemma BranchEntryHasRow(
    arrange: seq<Row> -> seq<Row>, table: seq<Row>, q: BranchQuery, states: IssueKey -> Option<string>,
    entry: LinkedIssue)
    returns (row: Row)
    requires OrdersByIssue(arrange) && entry in BranchRead(arrange, table, q, states)
    ensures row in table && SelectsBranch(q, row) && DecodeLink(row, states) == entry
  {
    var rows := arrange(WhereBranch(q, table));
    var i :| 0 <= i < |rows| && BranchRead(arrange, table, q, states)[i] == entry;
    row := rows[i];
    ArrangedBranchRow(arrange, table, q, row);
  }

  lemma EntryHasRow(
    arrange: seq<Row> -> seq<Row>, table: seq<Row>, q: Query, states: IssueKey -> Option<string>, entry: ScopedBranch)
    returns (row: Row)
    requires OrdersRows(arrange) && entry in FullRead(arrange, table, q, states)
    ensures row in table && Selects(q, row) && Decode(row, states) == entry
  {
    var rows := Selected(arrange, table, q);
    var i :| 0 <= i < |rows| && FullRead(arrange, table, q, states)[i] == entry;
    row := rows[i];
    WhereSelects(q, table);
    assert SortOf(RowLe, Where(q, table), rows);
    assert row in multiset(rows) && row in multiset(Where(q, table));
  }

  lemma RowHasEntry(
    arrange: seq<Row> -> seq<Row>, table: seq<Row>, q: Query, states: IssueKey -> Option<string>, row: Row)
    requires OrdersRows(arrange) && row in table && Selects(q, row)
    ensures Decode(row, states) in FullRead(arrange, table, q, states)
  {
    var rows := Selected(arrange, table, q);
    WhereSelects(q, table);
    assert SortOf(RowLe, Where(q, table), rows);
    assert row in multiset(Where(q, table)) && row in multiset(rows);
    var i :| 0 <= i < |rows| && rows[i] == row;
    assert FullRead(arrange, table, q, states)[i] == Decode(row, states);
  }

  /** A branch carries an issue once, so the forward read has one order too. */
  lemma SameBranchOrder(
    a: seq<Row> -> seq<Row>, b: seq<Row> -> seq<Row>, table: seq<Row>, q: BranchQuery,
    states: IssueKey -> Option<string>)
    requires UniqueKeys(table) && OrdersByIssue(a) && OrdersByIssue(b)
    ensures BranchRead(a, table, q, states) == BranchRead(b, table, q, states)
  {
    var rows := WhereBranch(q, table);
    KeyOrder();
    WhereBranchSelects(q, table);
    forall x, y | x in rows && y in rows && IssueLe(x, y) && IssueLe(y, x) ensures x == y {
      var i :| 0 <= i < |table| && table[i] == x;
      var j :| 0 <= j < |table| && table[j] == y;
    }
    assert SortOf(IssueLe, rows, a(rows)) && SortOf(IssueLe, rows, b(rows));
    forall x | x in a(rows) ensures x in rows {
      assert x in multiset(a(rows));
    }
    SortedUnique(IssueLe, a(rows), b(rows));
  }

  // --- What is read, and in which order. ---

  /** By provider, then project, then external id, each by code point. */
  ghost predicate KeyPrecedes(a: IssueKey, b: IssueKey) {
    && Precedes(a.provider, b.provider)
    && (a.provider == b.provider ==> Precedes(a.project, b.project))
    && (a.provider == b.provider && a.project == b.project ==> Precedes(a.externalId, b.externalId))
  }

  lemma KeyLeExactly(a: IssueKey, b: IssueKey)
    ensures KeyLe(a, b) <==> KeyPrecedes(a, b)
  {
    StringLeExactly(a.provider, b.provider);
    StringLeExactly(a.project, b.project);
    StringLeExactly(a.externalId, b.externalId);
    StringLeTotal(a.provider, b.provider);
    StringLeTotal(a.project, b.project);
  }

  /** The entries of a whole read ascend by issue and then by branch. */
  lemma ReadAscends(arrange: seq<Row> -> seq<Row>, table: seq<Row>, q: Query, states: IssueKey -> Option<string>)
    requires OrdersRows(arrange)
    ensures var read := FullRead(arrange, table, q, states);
            forall i, j :: 0 <= i < j < |read| ==>
              && KeyPrecedes(read[i].issue, read[j].issue)
              && (read[i].issue == read[j].issue ==> Precedes(read[i].branch, read[j].branch))
  {
    var rows, read := Selected(arrange, table, q), FullRead(arrange, table, q, states);
    assert SortOf(RowLe, Where(q, table), rows);
    KeyOrder();
    forall i, j | 0 <= i < j < |read|
      ensures && KeyPrecedes(read[i].issue, read[j].issue)
              && (read[i].issue == read[j].issue ==> Precedes(read[i].branch, read[j].branch))
    {
      assert RowLe(rows[i], rows[j]);
      KeyLeExactly(rows[i].issue, rows[j].issue);
      StringLeExactly(rows[i].branch, rows[j].branch);
    }
  }

  /** So do those of a forward read, by issue. */
  lemma BranchReadAscends(
    arrange: seq<Row> -> seq<Row>, table: seq<Row>, q: BranchQuery, states: IssueKey -> Option<string>)
    requires OrdersByIssue(arrange)
    ensures var read := BranchRead(arrange, table, q, states);
            forall i, j :: 0 <= i < j < |read| ==> KeyPrecedes(read[i].issue, read[j].issue)
  {
    var rows, read := arrange(WhereBranch(q, table)), BranchRead(arrange, table, q, states);
    assert SortOf(IssueLe, WhereBranch(q, table), rows);
    forall i, j | 0 <= i < j < |read| ensures KeyPrecedes(read[i].issue, read[j].issue) {
      assert IssueLe(rows[i], rows[j]);
      KeyLeExactly(rows[i].issue, rows[j].issue);
    }
  }

  /** The entry shows this row of the repository, column by column, and the state its issue has. */
  ghost predicate Shows(e: ScopedBranch, row: Row, repo: string, states: IssueKey -> Option<string>) {
    && row.repo == repo && e.branch == row.branch && e.issue == row.issue && e.status == row.status
    && e.detail == row.detail && e.state == states(row.issue)
    && e.number == if row.number < 0 then 0 else row.number
  }

  /**
   * A whole read has an entry exactly for each row of the repository with the
   * number asked for, or i64::MAX for a larger one, that is linked or asked for
   * although it is detached.
   */
  lemma ReadExactly(
    arrange: seq<Row> -> seq<Row>, table: seq<Row>, q: Query, states: IssueKey -> Option<string>, e: ScopedBranch)
    requires OrdersRows(arrange)
    ensures e in FullRead(arrange, table, q, states)
       <==> exists row :: row in table && Shows(e, row, q.repo, states)
                          && row.number == (if q.number <= I64_MAX then q.number else I64_MAX)
                          && (row.status == Detached ==> q.includeDetached)
  {
    if e in FullRead(arrange, table, q, states) {
      var row := EntryHasRow(arrange, table, q, states, e);
    }
    if row :| row in table && Shows(e, row, q.repo, states)
              && row.number == (if q.number <= I64_MAX then q.number else I64_MAX)
              && (row.status == Detached ==> q.includeDetached) {
      RowHasEntry(arrange, table, q, states, row);
    }
  }

  /** The same for the rows of one branch. */
  lemma BranchReadExactly(
    arrange: seq<Row> -> seq<Row>, table: seq<Row>, q: BranchQuery, states: IssueKey -> Option<string>,
    e: LinkedIssue)
    requires OrdersByIssue(arrange)
    ensures e in BranchRead(arrange, table, q, states)
       <==> exists row :: row in table && row.branch == q.branch
                          && Shows(Turned(e, q.branch), row, q.repo, states)
                          && (row.status == Detached ==> q.includeDetached)
  {
    if e in BranchRead(arrange, table, q, states) {
      var row := BranchEntryHasRow(arrange, table, q, states, e);
    }
    if row :| row in table && row.branch == q.branch && Shows(Turned(e, q.branch), row, q.repo, states)
              && (row.status == Detached ==> q.includeDetached) {
      BranchRowHasEntry(arrange, table, q, states, row);
    }
  }

  /** The column check on stored numbers. */
  ghost predicate CheckedNumbers(table: seq<Row>) {
    forall row :: row in table ==> 0 < row.number <= I64_MAX
  }

  /** The two entries that show one row, forward and in reverse. */
  function Turned(link: LinkedIssue, branch: string): ScopedBranch {
    ScopedBranch(branch, link.issue, link.number, link.status, link.detail, link.state)
  }

  /**
   * Forward and reverse reads show the same rows: a branch lists an issue
   * under its number exactly when that number lists the branch, with the same
   * status, detail and state.
   */
  lemma ReadsAgree(
    forward: seq<Row> -> seq<Row>, reverse: seq<Row> -> seq<Row>, table: seq<Row>, repo: string, branch: string,
    includeDetached: bool, states: IssueKey -> Option<string>, link: LinkedIssue)
    requires OrdersByIssue(forward) && OrdersRows(reverse) && CheckedNumbers(table)
    ensures link in BranchRead(forward, table, BranchQuery(repo, branch, includeDetached), states)
       <==> Turned(link, branch) in FullRead(reverse, table, Query(repo, link.number, includeDetached), states)
  {
    var there, back := BranchQuery(repo, branch, includeDetached), Query(repo, link.number, includeDetached);
    if link in BranchRead(forward, table, there, states) {
      var row := BranchEntryHasRow(forward, table, there, states, link);
      RowHasEntry(reverse, table, back, states, row);
    }
    if Turned(link, branch) in FullRead(reverse, table, back, states) {
      var row := EntryHasRow(reverse, table, back, states, Turned(link, branch));
      BranchRowHasEntry(forward, table, there, states, row);
    }
  }

  /**
   * The reverse read lists rows of the number it was asked for only, exactly
   * when that number fits i64 or there is nothing to list: a number beyond i64
   * reads the rows stored under i64::MAX.
   */
  lemma ReverseReadIsExact(
    arrange: seq<Row> -> seq<Row>, table: seq<Row>, q: Query, states: IssueKey -> Option<string>)
    requires OrdersRows(arrange) && CheckedNumbers(table)
    ensures (forall e :: e in FullRead(arrange, table, q, states) ==> e.number == q.number)
       <==> q.number <= I64_MAX || forall row :: row in table ==> !Selects(q, row)
  {
    forall e | e in FullRead(arrange, table, q, states)
      ensures e.number == Clamp(q.number) && exists row :: row in table && Selects(q, row)
    {
      var row := EntryHasRow(arrange, table, q, states, e);
    }
    forall row | row in table && Selects(q, row) ensures Decode(row, states) in FullRead(arrange, table, q, states) {
      RowHasEntry(arrange, table, q, states, row);
    }
  }

  /** Leaving detached rows out of the statement is the same as dropping them from the full history. */
  lemma ActiveReadIsFiltered(
    arrange: seq<Row> -> seq<Row>, table: seq<Row>, repo: string, branch: string,
    states: IssueKey -> Option<string>, link: LinkedIssue)
    requires OrdersByIssue(arrange)
    ensures link in BranchRead(arrange, table, BranchQuery(repo, branch, false), states)
       <==> link in BranchRead(arrange, table, BranchQuery(repo, branch, true), states) && link.status == Linked
  {
    var active, history := BranchQuery(repo, branch, false), BranchQuery(repo, branch, true);
    if link in BranchRead(arrange, table, active, states) {
      var row := BranchEntryHasRow(arrange, table, active, states, link);
      BranchRowHasEntry(arrange, table, history, states, row);
    }
    if link in BranchRead(arrange, table, history, states) && link.status == Linked {
      var row := BranchEntryHasRow(arrange, table, history, states, link);
      BranchRowHasEntry(arrange, table, active, states, row);
    }
  }
}
