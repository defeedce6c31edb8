/**
 * From a branch to its issue: durable links first, the branch name as fallback
 * (src/branch_links/compat.rs, active.rs, identity.rs and src/hooks/branch_context.rs).
 */
module BranchIssues {
  import opened Text
  import opened Decimals
  import opened Names
  import opened Orders
  import opened BranchNames
  import opened LinkReads

  /** The identity compatible callers see: scope and number. */
  datatype ScopedId = ScopedId(provider: string, project: string, number: nat)

  datatype CompatIssue = CompatIssue(number: Option<nat>, ambiguous: bool, suppressedDefault: bool)

  datatype ActiveIssue = NoIssue | Single(key: IssueKey) | Ambiguous(keys: seq<IssueKey>)

  // --- Sorting keys. ---

  predicate ScopedLe(a: ScopedId, b: ScopedId) {
    if a.provider != b.provider then StringLe(a.provider, b.provider)
    else if a.project != b.project then StringLe(a.project, b.project)
    else a.number <= b.number
  }

  predicate NumberLe(a: nat, b: nat) {
    a <= b
  }

  lemma ScopedOrder()
    ensures TotalOrder(ScopedLe)
  {
    StringOrder();
  }

  /** `sort_unstable` then `dedup`: the set, once each, in order. */
  method SortDedup<T(==, !new)>(le: (T, T) -> bool, s: seq<T>) returns (r: seq<T>)
    requires TotalOrder(le)
    ensures Sorted(le, r) && Distinct(r) && Elements(r) == Elements(s) && |r| == |Elements(s)|
  {
    r := Sort(le, s);
    SortIsSort(le, s);
    assert forall x :: x in r <==> x in multiset(r);
    assert forall x :: x in s <==> x in multiset(s);
    DedupSorted(le, r);
    r := Dedup(r);
    DistinctSize(r);
  }

  // --- Resolution as a function of the set of linked identities. ---

  ghost function Only<T>(s: set<T>): T
    requires |s| == 1
  {
    var x :| x in s; x
  }

  /** What the resolvers answer: never a guess among several, never on the default branch. */
  ghost function Verdict(ids: set<ScopedId>, branch: string, default: Option<string>): CompatIssue {
    if default == Some(branch) then CompatIssue(None, |ids| > 1, true)
    else if |ids| == 1 then CompatIssue(Some(Only(ids).number), false, false)
    else CompatIssue(None, |ids| > 1, false)
  }

  ghost function Numbers(ids: set<ScopedId>): set<nat> {
    set id | id in ids :: id.number
  }

  /** The numbers with their scopes forgotten. */
  ghost function Unscoped(numbers: set<nat>): set<ScopedId> {
    set n | n in numbers :: ScopedId("", "", n)
  }

  lemma SingletonIs<T>(s: seq<T>)
    requires |s| == 1
    ensures |Elements(s)| == 1 && Only(Elements(s)) == s[0]
  {
    assert Elements(s) == {s[0]};
  }

  /** `resolve_core`, on identities its callers have already made distinct. */
  method ResolveCore(ids: seq<ScopedId>, branch: string, default: Option<string>) returns (r: CompatIssue)
    requires Distinct(ids)
    ensures r == Verdict(Elements(ids), branch, default)
  {
    DistinctSize(ids);
    var numbers: seq<nat> := seq(|ids|, i requires 0 <= i < |ids| => ids[i].number);
    var distinct := SortDedup(NumberLe, numbers);
    assert Elements(numbers) == Numbers(Elements(ids)) by {
      assert forall i :: 0 <= i < |ids| ==> numbers[i] == ids[i].number;
    }
    ImageSize(Elements(ids), (id: ScopedId) => id.number, Numbers(Elements(ids)));
    if default == Some(branch) {
      return CompatIssue(None, |distinct| > 1 || |ids| > 1, true);
    }
    if |ids| > 1 {
      return CompatIssue(None, true, false);
    }
    if |ids| == 1 {
      SingletonIs(ids);
      assert numbers == [ids[0].number] && Elements(numbers) == {ids[0].number};
      assert |distinct| == 1 && distinct[0] in Elements(distinct);
      return CompatIssue(Some(distinct[0]), false, false);
    }
    return CompatIssue(None, false, false);
  }

  /** An image is no larger than what it is an image of. */
  lemma {:induction false} ImageSize<A, B>(a: set<A>, f: A -> B, image: set<B>)
    requires image == set x | x in a :: f(x)
    ensures |image| <= |a|
  {
    if a == {} {
      assert image == {};
    } else {
      var x :| x in a;
      var rest := set y | y in a - {x} :: f(y);
      ImageSize(a - {x}, f, rest);
      assert image == rest + {f(x)};
    }
  }

  method ResolveScopedCompatIssue(linked: seq<ScopedId>, branch: string, default: Option<string>)
    returns (r: CompatIssue)
    ensures r == Verdict(Elements(linked), branch, default)
  {
    ScopedOrder();
    var ids := SortDedup(ScopedLe, linked);
    r := ResolveCore(ids, branch, default);
  }

  method ResolveCompatIssue(linked: seq<nat>, branch: string, default: Option<string>) returns (r: CompatIssue)
    ensures r == Verdict(Unscoped(Elements(linked)), branch, default)
  {
    var numbers := SortDedup(NumberLe, linked);
    var ids := seq(|numbers|, i requires 0 <= i < |numbers| => ScopedId("", "", numbers[i]));
    assert Elements(ids) == Unscoped(Elements(numbers)) by {
      assert forall i :: 0 <= i < |numbers| ==> ids[i] == ScopedId("", "", numbers[i]);
    }
    r := ResolveCore(ids, branch, default);
  }

  method ResolveActiveIssue(links: seq<LinkedIssue>) returns (r: ActiveIssue)
    ensures var keys := LinkedKeys(links);
            match r
            case NoIssue => |keys| == 0
            case Single(key) => keys == {key}
            case Ambiguous(list) =>
              |keys| > 1 && Elements(list) == keys && Distinct(list) && Sorted(KeyLe, list)
  {
    KeyOrder();
    var linked: seq<IssueKey> := [];
    for i := 0 to |links|
      invariant forall k :: k in linked <==> exists j :: 0 <= j < i && links[j].status == Linked && links[j].issue == k
    {
      if links[i].status == Linked {
        linked := linked + [links[i].issue];
      }
    }
    assert Elements(linked) == LinkedKeys(links);
    linked := SortDedup(KeyLe, linked);
    if |linked| == 0 {
      return NoIssue;
    } else if |linked| == 1 {
      SingletonIs(linked);
      assert Elements(linked) == {linked[0]};
      return Single(linked[0]);
    } else {
      return Ambiguous(linked);
    }
  }

  ghost function LinkedKeys(links: seq<LinkedIssue>): set<IssueKey> {
    set i | 0 <= i < |links| && links[i].status == Linked :: links[i].issue
  }

  function ScopedIdOf(link: LinkedIssue): ScopedId {
    ScopedId(link.issue.provider, link.issue.project, link.number)
  }

  /** `linked_refs`: the active identities, detached history left out. */
  function LinkedRefs(links: seq<LinkedIssue>): seq<ScopedId> {
    if links == [] then []
    else (if links[0].status == Linked then [ScopedIdOf(links[0])] else []) + LinkedRefs(links[1..])
  }

  ghost function LinkedIds(links: seq<LinkedIssue>): set<ScopedId> {
    set i | 0 <= i < |links| && links[i].status == Linked :: ScopedIdOf(links[i])
  }

  lemma {:induction false} LinkedRefsElements(links: seq<LinkedIssue>)
    ensures Elements(LinkedRefs(links)) == LinkedIds(links)
  {
    if links != [] {
      LinkedRefsElements(links[1..]);
      assert forall i :: 0 <= i < |links| - 1 ==> links[1..][i] == links[i + 1];
      assert LinkedIds(links) == LinkedIds(links[1..]) +
             (if links[0].status == Linked then {ScopedIdOf(links[0])} else {}) by {
        forall id | id in LinkedIds(links)
          ensures id in LinkedIds(links[1..]) || (links[0].status == Linked && id == ScopedIdOf(links[0]))
        {
          var i :| 0 <= i < |links| && links[i].status == Linked && ScopedIdOf(links[i]) == id;
          if i > 0 {
            assert links[1..][i - 1] == links[i];
          }
        }
      }
    }
  }

  // --- The branch-name fallback. ---

  predicate IsProtectedBranch(branch: string, default: Option<string>) {
    if default.Some? && Trim(default.value) != [] then branch == Trim(default.value)
    else branch == "main" || branch == "master"
  }

  /**
   * With a default branch known, it alone is protected, whatever white space
   * surrounds it; with none, or a blank one, the two conventional names are.
   */
  lemma ProtectedExactly(branch: string, default: Option<string>)
    requires default.Some? ==> !AllWhitespace(default.value)
    ensures IsProtectedBranch(branch, default) <==>
              match default
              case None => branch in {"main", "master"}
              case Some(name) =>
                IsTrimmed(branch)
                && exists pre, post :: AllWhitespace(pre) && AllWhitespace(post) && name == pre + branch + post
    ensures forall blank :: AllWhitespace(blank) ==>
              (IsProtectedBranch(branch, Some(blank)) <==> IsProtectedBranch(branch, None))
  {
    if default.Some? {
      TrimIsEmpty(default.value);
      TrimExactly(default.value, branch);
    }
    forall blank | AllWhitespace(blank) ensures Trim(blank) == [] {
      TrimIsEmpty(blank);
    }
  }

  function NamedBranchIssue(branch: string, default: Option<string>): Option<nat> {
    if IsProtectedBranch(branch, default) then None else ParseIssueId(branch)
  }

  ghost function BranchIssue(ids: set<ScopedId>, branch: string, default: Option<string>): Option<nat> {
    var compat := Verdict(ids, branch, default);
    if compat.ambiguous || compat.suppressedDefault then None
    else if compat.number.Some? then compat.number
    else NamedBranchIssue(branch, default)
  }

  method ResolveBranchIssue(linked: seq<ScopedId>, branch: string, default: Option<string>)
    returns (r: Option<nat>)
    ensures r == BranchIssue(Elements(linked), branch, default)
  {
    var compat := ResolveScopedCompatIssue(linked, branch, default);
    if compat.ambiguous || compat.suppressedDefault {
      return None;
    }
    r := if compat.number.Some? then compat.number else NamedBranchIssue(branch, default);
  }

  ghost function ProtectedBranchIssue(ids: set<ScopedId>, branch: string, default: Option<string>): Option<nat> {
    if IsProtectedBranch(branch, default) then None else BranchIssue(ids, branch, default)
  }

  method ResolveProtectedBranchIssue(linked: seq<ScopedId>, branch: string, default: Option<string>)
    returns (r: Option<nat>)
    ensures r == ProtectedBranchIssue(Elements(linked), branch, default)
  {
    if IsProtectedBranch(branch, default) {
      return None;
    }
    r := ResolveBranchIssue(linked, branch, default);
  }

  /** `resolve_branch_rows`: the rows of the store, or none if it could not answer. */
  method ResolveBranchRows(rows: Option<seq<LinkedIssue>>, branch: string, default: Option<string>)
    returns (r: Option<nat>)
    ensures r == match rows
                 case Some(links) => ProtectedBranchIssue(LinkedIds(links), branch, default)
                 case None => NamedBranchIssue(branch, default)
  {
    match rows {
      case Some(links) =>
        LinkedRefsElements(links);
        r := ResolveProtectedBranchIssue(LinkedRefs(links), branch, default);
      case None =>
        r := NamedBranchIssue(branch, default);
    }
  }

  // --- From the table to the answer. ---

  /** The identities linked to a branch, straight from the table. */
  ghost function TableIds(table: seq<Row>, repo: string, branch: string): set<ScopedId> {
    set i | 0 <= i < |table| && table[i].repo == repo && table[i].branch == branch && table[i].status == Linked
      :: ScopedId(table[i].issue.provider, table[i].issue.project, Shown(table[i].number))
  }

  /** Reading the branch, detached history included or not, loses and adds no linked identity. */
  lemma ReadKeepsLinkedIds(
    arrange: seq<Row> -> seq<Row>, table: seq<Row>, q: BranchQuery, states: IssueKey -> Option<string>)
    requires OrdersByIssue(arrange)
    ensures LinkedIds(BranchRead(arrange, table, q, states)) == TableIds(table, q.repo, q.branch)
  {
    var links := BranchRead(arrange, table, q, states);
    forall id ensures id in LinkedIds(links) <==> id in TableIds(table, q.repo, q.branch) {
      if id in LinkedIds(links) {
        var i :| 0 <= i < |links| && links[i].status == Linked && ScopedIdOf(links[i]) == id;
        var row := BranchEntryHasRow(arrange, table, q, states, links[i]);
        var k :| 0 <= k < |table| && table[k] == row;
      }
      if id in TableIds(table, q.repo, q.branch) {
        var k :| 0 <= k < |table| && table[k].repo == q.repo && table[k].branch == q.branch
                 && table[k].status == Linked
                 && ScopedId(table[k].issue.provider, table[k].issue.project, Shown(table[k].number)) == id;
        BranchRowHasEntry(arrange, table, q, states, table[k]);
        var i :| 0 <= i < |links| && links[i] == DecodeLink(table[k], states);
      }
    }
  }

  // --- Set semantics. ---

  /**
   * Only the set of linked (provider, project, number) triples counts: not
   * their order or repetition, not the external ids, not detached rows.
   */
  lemma OnlyLinkedSetMatters(a: seq<LinkedIssue>, b: seq<LinkedIssue>, branch: string, default: Option<string>)
    requires LinkedIds(a) == LinkedIds(b)
    ensures Verdict(Elements(LinkedRefs(a)), branch, default) == Verdict(Elements(LinkedRefs(b)), branch, default)
    ensures BranchIssue(Elements(LinkedRefs(a)), branch, default)
         == BranchIssue(Elements(LinkedRefs(b)), branch, default)
  {
    LinkedRefsElements(a);
    LinkedRefsElements(b);
  }

  lemma UnscopedSize(numbers: set<nat>)
    ensures |Unscoped(numbers)| == |numbers|
    ensures |numbers| == 1 ==> Only(Unscoped(numbers)) == ScopedId("", "", Only(numbers))
  {
    var f := (n: nat) => ScopedId("", "", n);
    ImageSize(numbers, f, Unscoped(numbers));
    var g := (id: ScopedId) => id.number;
    assert numbers == set id | id in Unscoped(numbers) :: g(id) by {
      forall n | n in numbers ensures n in set id | id in Unscoped(numbers) :: g(id) {
        assert f(n) in Unscoped(numbers);
      }
    }
    ImageSize(Unscoped(numbers), g, numbers);
    if |numbers| == 1 {
      var n := Only(numbers);
      assert n in numbers && ScopedId("", "", n) in Unscoped(numbers);
      OnlyMember(Unscoped(numbers), ScopedId("", "", n));
    }
  }

  lemma OnlyMember<T>(s: set<T>, x: T)
    requires |s| == 1 && x in s
    ensures s == {x} && Only(s) == x
  {
    assert |s - {x}| == 0;
    assert s == {x};
  }

  /**
   * The numeric projection gives a different answer exactly when all linked
   * rows carry one number and come from several scopes; then it names the
   * number the scoped resolver refuses to guess.
   */
  lemma NumericDiffersExactly(ids: set<ScopedId>, branch: string, default: Option<string>)
    ensures Verdict(Unscoped(Numbers(ids)), branch, default) != Verdict(ids, branch, default)
       <==> |Numbers(ids)| == 1 && |ids| > 1
  {
    var numbers := Numbers(ids);
    UnscopedSize(numbers);
    ImageSize(ids, (id: ScopedId) => id.number, numbers);
    if |ids| == 1 {
      var id := Only(ids);
      OnlyMember(ids, id);
      assert numbers == {id.number};
      OnlyMember(numbers, id.number);
    } else if ids != {} {
      var id :| id in ids;
      assert id.number in numbers;
    }
  }

  // --- Agreement with the key-based resolver. ---

  ghost predicate DecimalIds(links: seq<LinkedIssue>) {
    forall i :: 0 <= i < |links| && links[i].status == Linked ==> links[i].issue.externalId == Decimal(links[i].number)
  }

  function KeyOf(id: ScopedId): IssueKey {
    IssueKey(id.provider, id.project, Decimal(id.number))
  }

  lemma LinkedKeysAreImages(links: seq<LinkedIssue>)
    requires DecimalIds(links)
    ensures LinkedKeys(links) == set id | id in LinkedIds(links) :: KeyOf(id)
    ensures |LinkedKeys(links)| == |LinkedIds(links)|
  {
    var ids, keys := LinkedIds(links), LinkedKeys(links);
    forall k | k in keys ensures exists id :: id in ids && KeyOf(id) == k {
      var i :| 0 <= i < |links| && links[i].status == Linked && links[i].issue == k;
      assert ScopedIdOf(links[i]) in ids && KeyOf(ScopedIdOf(links[i])) == k;
    }
    forall id | id in ids ensures KeyOf(id) in keys {
      var i :| 0 <= i < |links| && links[i].status == Linked && ScopedIdOf(links[i]) == id;
    }
    InjectiveImageSize(ids, keys);
  }

  lemma {:induction false} InjectiveImageSize(ids: set<ScopedId>, keys: set<IssueKey>)
    requires keys == set id | id in ids :: KeyOf(id)
    ensures |keys| == |ids|
  {
    if ids == {} {
      assert keys == {};
    } else {
      var id :| id in ids;
      var rest := set other | other in ids - {id} :: KeyOf(other);
      InjectiveImageSize(ids - {id}, rest);
      assert KeyOf(id) !in rest by {
        forall other | other in ids - {id} ensures KeyOf(other) != KeyOf(id) {
          DecimalInjective(other.number, id.number);
        }
      }
      assert keys == rest + {KeyOf(id)};
    }
  }

  /** Equal keys carry equal numbers, as they do on one branch of a table with its primary key. */
  ghost predicate OneNumberPerKey(links: seq<LinkedIssue>) {
    forall i, j | 0 <= i < |links| && 0 <= j < |links| && links[i].status == links[j].status == Linked ::
      links[i].issue == links[j].issue ==> links[i].number == links[j].number
  }

  /** The number the first linked row gives a key. */
  function NumberOf(links: seq<LinkedIssue>, key: IssueKey): nat {
    if links == [] then 0
    else if links[0].status == Linked && links[0].issue == key then links[0].number
    else NumberOf(links[1..], key)
  }

  lemma {:induction false} NumberOfMeans(links: seq<LinkedIssue>, i: nat)
    requires OneNumberPerKey(links) && i < |links| && links[i].status == Linked
    ensures NumberOf(links, links[i].issue) == links[i].number
  {
    if i > 0 && !(links[0].status == Linked && links[0].issue == links[i].issue) {
      assert OneNumberPerKey(links[1..]);
      NumberOfMeans(links[1..], i - 1);
    }
  }

  function IdOfKey(links: seq<LinkedIssue>): IssueKey -> ScopedId {
    (key: IssueKey) => ScopedId(key.provider, key.project, NumberOf(links, key))
  }

  /** The linked identities are the images of the linked keys. */
  lemma IdsAreImages(links: seq<LinkedIssue>)
    requires OneNumberPerKey(links)
    ensures LinkedIds(links) == set key | key in LinkedKeys(links) :: IdOfKey(links)(key)
    ensures |LinkedIds(links)| <= |LinkedKeys(links)|
  {
    var ids, keys := LinkedIds(links), LinkedKeys(links);
    forall id | id in ids ensures exists key :: key in keys && IdOfKey(links)(key) == id {
      var i :| 0 <= i < |links| && links[i].status == Linked && ScopedIdOf(links[i]) == id;
      NumberOfMeans(links, i);
      assert links[i].issue in keys;
    }
    forall key | key in keys ensures IdOfKey(links)(key) in ids {
      var i :| 0 <= i < |links| && links[i].status == Linked && links[i].issue == key;
      NumberOfMeans(links, i);
      assert ScopedIdOf(links[i]) in ids;
    }
    ImageSize(keys, IdOfKey(links), ids);
  }

  /** The two resolvers say the same: several, one, or none. */
  ghost predicate Agree(verdict: CompatIssue, keys: set<IssueKey>) {
    (verdict.ambiguous <==> |keys| > 1) && (verdict.number.Some? <==> |keys| == 1)
  }

  /** All that is linked is one (provider, project, number), under several external ids. */
  ghost predicate OneIdManyKeys(links: seq<LinkedIssue>) {
    |LinkedIds(links)| == 1 && |LinkedKeys(links)| > 1
  }

  /**
   * Off the default branch the resolvers disagree exactly when all that is
   * linked is one identity under several external ids; when they agree on one
   * issue it is the same one. On the default branch no number is reported, and
   * the ambiguity flags differ in exactly the same case.
   */
  lemma ActiveAgreesExactly(links: seq<LinkedIssue>, branch: string, default: Option<string>)
    requires OneNumberPerKey(links)
    ensures var verdict, keys := Verdict(LinkedIds(links), branch, default), LinkedKeys(links);
            && (default != Some(branch) ==> (Agree(verdict, keys) <==> !OneIdManyKeys(links)))
            && ((verdict.ambiguous <==> |keys| > 1) <==> !OneIdManyKeys(links))
            && (forall key :: keys == {key} && default != Some(branch) ==> verdict.number == Some(NumberOf(links, key)))
  {
    var ids, keys := LinkedIds(links), LinkedKeys(links);
    IdsAreImages(links);
    if ids == {} {
      assert forall key :: key in keys ==> IdOfKey(links)(key) in ids;
      assert keys == {};
    }
    forall key | keys == {key} ensures ids == {IdOfKey(links)(key)} {
      assert IdOfKey(links)(key) in ids;
    }
    if |keys| == 1 {
      var key := Only(keys);
      OnlyMember(keys, key);
      OnlyMember(ids, IdOfKey(links)(key));
    }
  }

  /** Reading one branch of a table with its primary key gives each key one number. */
  lemma ReadHasOneNumberPerKey(
    arrange: seq<Row> -> seq<Row>, table: seq<Row>, q: BranchQuery, states: IssueKey -> Option<string>)
    requires OrdersByIssue(arrange) && UniqueKeys(table)
    ensures OneNumberPerKey(BranchRead(arrange, table, q, states))
  {
    var links := BranchRead(arrange, table, q, states);
    forall i, j | 0 <= i < |links| && 0 <= j < |links| && links[i].issue == links[j].issue
      ensures links[i].number == links[j].number
    {
      var a := BranchEntryHasRow(arrange, table, q, states, links[i]);
      var b := BranchEntryHasRow(arrange, table, q, states, links[j]);
      var k :| 0 <= k < |table| && table[k] == a;
      var l :| 0 <= l < |table| && table[l] == b;
      assert a.issue == b.issue && a.branch == b.branch && a.repo == b.repo;
    }
  }

  /** In particular both agree whenever external ids are the decimals of the numbers. */
  lemma ActiveAgreesWithScoped(links: seq<LinkedIssue>, branch: string, default: Option<string>)
    requires DecimalIds(links) && default != Some(branch)
    ensures var verdict, keys := Verdict(LinkedIds(links), branch, default), LinkedKeys(links);
            && Agree(verdict, keys)
            && (forall key :: keys == {key} ==>
                  verdict.number.Some? && key.externalId == Decimal(verdict.number.value))
  {
    var ids, keys := LinkedIds(links), LinkedKeys(links);
    LinkedKeysAreImages(links);
    if |ids| == 1 {
      var id := Only(ids);
      OnlyMember(ids, id);
      assert KeyOf(id) in keys;
      OnlyMember(keys, KeyOf(id));
    }
  }

  /** Without that, two ids with one number are two keys but one identity. */
  lemma ActiveDisagreesOnPlus()
    ensures var links := [LinkedIssue(IssueKey("local", "default", "7"), 7, Linked, "", None),
                          LinkedIssue(IssueKey("local", "default", "+7"), 7, Linked, "", None)];
            |LinkedKeys(links)| == 2 && Verdict(LinkedIds(links), "b", None) == CompatIssue(Some(7), false, false)
  {
    var links := [LinkedIssue(IssueKey("local", "default", "7"), 7, Linked, "", None),
                  LinkedIssue(IssueKey("local", "default", "+7"), 7, Linked, "", None)];
    var id := ScopedId("local", "default", 7);
    assert ScopedIdOf(links[0]) == id && ScopedIdOf(links[1]) == id;
    assert LinkedIds(links) == {id};
    OnlyMember(LinkedIds(links), id);
    assert |"7"| != |"+7"|;
    assert links[0].issue in LinkedKeys(links) && links[1].issue in LinkedKeys(links);
    assert LinkedKeys(links) == {links[0].issue, links[1].issue};
  }

  // --- Names that carry their issue. ---

  /** With no linked rows a generated name resolves to its id, unless it is the trimmed default branch. */
  lemma GeneratedNameResolves(tracker: Option<string>, id: nat, default: Option<string>)
    requires 0 < id <= U64_MAX
    ensures BranchIssue({}, BranchName(tracker, id), default) ==
            if default.Some? && Trim(default.value) == BranchName(tracker, id) then None else Some(id)
  {
    var name := BranchName(tracker, id);
    NameRoundTrip(tracker, id, []);
    assert name + [] == name;
    assert name[|name| - 1] == Decimal(id)[|Decimal(id)| - 1];
    assert name[0] == 'f' && IsDigit(name[|name| - 1]);
    assert IsTrimmed(name);
    TrimFixed(name);
    assert '/' in name;
  }

  // --- Commit hooks. ---

  datatype HookBindings = Unbound | Issues(ids: seq<nat>) | Conflict

  predicate SameNumberOtherScope(a: ScopedId, b: ScopedId) {
    a.number == b.number && a != b
  }

  ghost predicate CrossScope(ids: set<ScopedId>) {
    exists a, b :: a in ids && b in ids && SameNumberOtherScope(a, b)
  }

  ghost predicate Ascending(ids: seq<nat>) {
    forall i, j :: 0 <= i < j < |ids| ==> ids[i] < ids[j]
  }

  /** The linked numbers, ascending, unless one of them is linked under two scopes. */
  method HookNumbers(refs: seq<ScopedId>) returns (r: HookBindings)
    ensures if CrossScope(Elements(refs)) then r == Conflict
            else r.Issues? && Elements(r.ids) == Numbers(Elements(refs)) && Ascending(r.ids)
  {
    if exists i, j :: 0 <= i < |refs| && 0 <= j < |refs| && SameNumberOtherScope(refs[i], refs[j]) {
      var i, j :| 0 <= i < |refs| && 0 <= j < |refs| && SameNumberOtherScope(refs[i], refs[j]);
      assert refs[i] in Elements(refs) && refs[j] in Elements(refs);
      return Conflict;
    }
    var numbers: seq<nat> := seq(|refs|, i requires 0 <= i < |refs| => refs[i].number);
    assert Elements(numbers) == Numbers(Elements(refs)) by {
      assert forall i :: 0 <= i < |refs| ==> numbers[i] == refs[i].number;
    }
    numbers := SortDedup(NumberLe, numbers);
    assert forall i, j :: 0 <= i < j < |numbers| ==> NumberLe(numbers[i], numbers[j]) && numbers[i] != numbers[j];
    return Issues(numbers);
  }

  /** What the commit hooks bind a branch to, given the identities linked to it. */
  ghost predicate Binds(ids: set<ScopedId>, branch: string, default: Option<string>, r: HookBindings) {
    if IsProtectedBranch(branch, default) then r == Unbound
    else if ids == {} then
      r == match NamedBranchIssue(branch, default) case Some(id) => Issues([id]) case None => Unbound
    else if CrossScope(ids) then r == Conflict
    else r.Issues? && Elements(r.ids) == Numbers(ids) && Ascending(r.ids)
  }

  /** `resolve_hook_issue_ids`, on the rows of the store if it could be read. */
  method HookIssueIds(rows: Option<seq<LinkedIssue>>, branch: string, default: Option<string>)
    returns (r: HookBindings)
    ensures Binds(if rows.Some? then LinkedIds(rows.value) else {}, branch, default, r)
  {
    if IsProtectedBranch(branch, default) {
      return Unbound;
    }
    var refs := [];
    if rows.Some? {
      refs := LinkedRefs(rows.value);
      LinkedRefsElements(rows.value);
    }
    if refs == [] {
      assert Elements(refs) == {};
      match NamedBranchIssue(branch, default) {
        case Some(id) => return Issues([id]);
        case None => return Unbound;
      }
    }
    assert refs[0] in Elements(refs);
    r := HookNumbers(refs);
  }

  predicate BindsOne(r: HookBindings, n: nat) {
    r == Issues([n])
  }

  /** A default branch that is protected only with the blanks around it taken away, which this branch is not. */
  predicate IsUnprotectedDefault(branch: string, default: Option<string>) {
    default == Some(branch) && !IsProtectedBranch(branch, default)
  }

  lemma HooksAgreeOn(ids: set<ScopedId>, branch: string, default: Option<string>, r: HookBindings, n: nat)
    requires Binds(ids, branch, default, r) && !IsUnprotectedDefault(branch, default)
    ensures BindsOne(r, n) <==> ProtectedBranchIssue(ids, branch, default) == Some(n)
  {
    if !IsProtectedBranch(branch, default) && ids != {} {
      if |ids| == 1 {
        var id := Only(ids);
        OnlyMember(ids, id);
        assert Numbers(ids) == {id.number};
        if r.Issues? {
          DistinctSize(r.ids);
          assert r.ids[0] in Elements(r.ids);
          assert r.ids == [id.number];
        }
      } else if r.Issues? {
        SeparateNumbers(ids);
        DistinctSize(r.ids);
      }
    }
  }

  /**
   * Hooks and status resolution name the same single issue, whatever it is,
   * exactly unless the branch is an unprotected default and the hooks bind it
   * to one.
   */
  lemma HooksAgreeWithResolver(ids: set<ScopedId>, branch: string, default: Option<string>, r: HookBindings)
    requires Binds(ids, branch, default, r)
    ensures (forall n: nat :: BindsOne(r, n) <==> ProtectedBranchIssue(ids, branch, default) == Some(n))
       <==> !IsUnprotectedDefault(branch, default) || forall n: nat :: !BindsOne(r, n)
  {
    if !IsUnprotectedDefault(branch, default) {
      forall n: nat ensures BindsOne(r, n) <==> ProtectedBranchIssue(ids, branch, default) == Some(n) {
        HooksAgreeOn(ids, branch, default, r, n);
      }
    }
  }

  /** Detection only returns trimmed, non-empty names, and for those both always agree. */
  lemma HooksAgreeOnDetected(ids: set<ScopedId>, branch: string, default: Option<string>, r: HookBindings, n: nat)
    requires Binds(ids, branch, default, r)
    requires default.Some? ==> IsTrimmed(default.value) && default.value != []
    ensures BindsOne(r, n) <==> ProtectedBranchIssue(ids, branch, default) == Some(n)
  {
    if default.Some? {
      TrimFixed(default.value);
    }
    HooksAgreeOn(ids, branch, default, r, n);
  }

  /** A default passed on with a blank in front of it: the hooks bind the branch, the resolver does not. */
  lemma HooksDisagreeOnPaddedDefault(r: HookBindings)
    requires Binds({ScopedId("local", "default", 7)}, " x", Some(" x"), r)
    ensures r == Issues([7]) && ProtectedBranchIssue({ScopedId("local", "default", 7)}, " x", Some(" x")) == None
  {
    var ids := {ScopedId("local", "default", 7)};
    assert TrimStart(" x") == "x" && Trim(" x") == "x";
    assert !IsProtectedBranch(" x", Some(" x"));
    assert Numbers(ids) == {7};
    DistinctSize(r.ids);
    assert r.ids[0] in Elements(r.ids);
  }

  /** When no number is shared between scopes there are as many numbers as identities. */
  lemma {:induction false} SeparateNumbers(ids: set<ScopedId>)
    requires !CrossScope(ids)
    ensures |Numbers(ids)| == |ids|
  {
    if ids != {} {
      var id :| id in ids;
      SeparateNumbers(ids - {id});
      assert Numbers(ids) == Numbers(ids - {id}) + {id.number};
      assert id.number !in Numbers(ids - {id}) by {
        forall other | other in ids - {id} ensures other.number != id.number {
          assert !SameNumberOtherScope(id, other);
        }
      }
    }
  }
}
