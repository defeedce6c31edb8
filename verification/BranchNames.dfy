/** Issue ids in branch names: the printer and the parser (src/lifecycle.rs, src/branch_naming.rs). */
module BranchNames {
  import opened Text
  import opened Decimals
  import opened Names

  // --- Printing. ---

  function BranchPrefix(tracker: Option<string>): string {
    match tracker
    case Some(value) => if Lower(Trim(value)) == "bug" then "fix" else "feat"
    case None => "feat"
  }

  function BranchName(tracker: Option<string>, id: nat): string {
    BranchPrefix(tracker) + "/" + Decimal(id)
  }

  /** The prefix is "fix" exactly for the tracker "bug", in any letter case and with blanks around it. */
  lemma PrefixExactly(tracker: string, id: nat)
    ensures BranchName(None, id) == "feat/" + Decimal(id)
    ensures BranchName(Some(tracker), id) == "fix/" + Decimal(id)
       <==> exists pre, word, post :: AllWhitespace(pre) && AllWhitespace(post) && tracker == pre + word + post
                                      && Lower(word) == "bug"
    ensures BranchName(Some(tracker), id) in {"fix/" + Decimal(id), "feat/" + Decimal(id)}
  {
    assert ("fix/" + Decimal(id))[1] != ("feat/" + Decimal(id))[1];
    TrimExactly(tracker, Trim(tracker));
    if pre, word, post :| AllWhitespace(pre) && AllWhitespace(post) && tracker == pre + word + post
                          && Lower(word) == "bug" {
      assert Lower(word)[0] == 'b' && Lower(word)[2] == 'g';
      TrimOfParts(pre, word, post);
    }
  }

  // --- Parsing. ---

  /** `take_while(is_ascii_digit)`. */
  function DigitPrefix(s: string): (digits: string)
    ensures digits <= s && AllDigits(digits)
    ensures |digits| < |s| ==> !IsDigit(s[|digits|])
  {
    if s == [] || !IsDigit(s[0]) then [] else [s[0]] + DigitPrefix(s[1..])
  }

  /** A strictly positive id that fits u64. */
  function PositiveId(digits: string): Option<nat> {
    if digits == [] || !AllDigits(digits) then None
    else
      match ParseU64(digits)
      case Some(id) => if id > 0 then Some(id) else None
      case None => None
  }

  /** The first `/` at or after `from` whose segment starts with an id. */
  function SlashId(branch: string, from: nat): Option<nat>
    requires from <= |branch|
    decreases |branch| - from
  {
    if from == |branch| then None
    else
      var found := if branch[from] == '/' then PositiveId(DigitPrefix(branch[from + 1..])) else None;
      if found.Some? then found else SlashId(branch, from + 1)
  }

  /** The text after the last `-` or `_`, if there is one. */
  function AfterLastDash(branch: string): Option<string> {
    if branch == [] then None
    else if branch[|branch| - 1] in {'-', '_'} then Some([])
    else
      match AfterLastDash(branch[..|branch| - 1])
      case None => None
      case Some(tail) => Some(tail + [branch[|branch| - 1]])
  }

  function ParseIssueId(branch: string): Option<nat> {
    var slash := SlashId(branch, 0);
    if slash.Some? then slash
    else
      var trailing := match AfterLastDash(branch)
                      case Some(tail) => PositiveId(tail)
                      case None => None;
      if trailing.Some? then trailing else PositiveId(branch)
  }

  // --- What a name says. ---

  predicate IsId(digits: string, id: nat) {
    digits != [] && AllDigits(digits) && ValueOf(digits) == id && 0 < id <= U64_MAX
  }

  /** The slash at `at` is followed by the digits of an id, which end at `end`. */
  ghost predicate SlashNames(branch: string, at: nat, end: nat, id: nat) {
    && at + 1 < end <= |branch| && branch[at] == '/' && IsId(branch[at + 1..end], id)
    && (end == |branch| || !IsDigit(branch[end]))
  }

  ghost predicate NoSlashBefore(branch: string, at: nat) {
    forall earlier: nat, end: nat, id: nat :: earlier < at ==> !SlashNames(branch, earlier, end, id)
  }

  /** The first slash with an id behind it. */
  ghost predicate BySlash(branch: string, id: nat) {
    exists at, end :: SlashNames(branch, at, end, id) && NoSlashBefore(branch, at)
  }

  /** The name ends in a dash or underscore and the digits of an id. */
  ghost predicate ByDash(branch: string, id: nat) {
    exists head, sep, digits :: branch == head + [sep] + digits && sep in {'-', '_'} && IsId(digits, id)
  }

  lemma PositiveIdExactly(digits: string, id: nat)
    ensures PositiveId(digits) == Some(id) <==> IsId(digits, id)
  {}

  lemma PrefixOfRest(branch: string, at: nat, end: nat)
    requires at < end <= |branch| && AllDigits(branch[at + 1..end]) && (end == |branch| || !IsDigit(branch[end]))
    ensures DigitPrefix(branch[at + 1..]) == branch[at + 1..end]
  {
    var rest := branch[at + 1..];
    assert rest == branch[at + 1..end] + branch[end..];
    DigitPrefixOf(branch[at + 1..end], branch[end..]);
  }

  /** What the scan reads behind the slash at `at`. */
  lemma SlashExactly(branch: string, at: nat, id: nat)
    requires at < |branch| && branch[at] == '/'
    ensures PositiveId(DigitPrefix(branch[at + 1..])) == Some(id) <==> exists end :: SlashNames(branch, at, end, id)
  {
    var rest := branch[at + 1..];
    var digits := DigitPrefix(rest);
    PositiveIdExactly(digits, id);
    if IsId(digits, id) {
      var end := at + 1 + |digits|;
      assert branch[at + 1..end] == digits;
      assert end < |branch| ==> branch[end] == rest[|digits|];
      assert SlashNames(branch, at, end, id);
    }
    if end :| SlashNames(branch, at, end, id) {
      PrefixOfRest(branch, at, end);
    }
  }

  /** From `from` on no slash is followed by an id, or the first such slash is read. */
  lemma {:induction false} SlashIdMeans(branch: string, from: nat)
    requires from <= |branch| && NoSlashBefore(branch, from)
    ensures SlashId(branch, from) == None ==> NoSlashBefore(branch, |branch|)
    ensures forall id :: SlashId(branch, from) == Some(id) ==> BySlash(branch, id)
    decreases |branch| - from
  {
    if from < |branch| {
      var found := if branch[from] == '/' then PositiveId(DigitPrefix(branch[from + 1..])) else None;
      if found.Some? {
        SlashExactly(branch, from, found.value);
      } else {
        forall earlier: nat, end: nat, id: nat | earlier < from + 1 ensures !SlashNames(branch, earlier, end, id) {
          if earlier == from && SlashNames(branch, earlier, end, id) {
            SlashExactly(branch, from, id);
          }
        }
        SlashIdMeans(branch, from + 1);
      }
    }
  }

  lemma OneIdBehindSlash(branch: string, at: nat, end: nat, id: nat, stop: nat, other: nat)
    requires SlashNames(branch, at, end, id) && SlashNames(branch, at, stop, other)
    ensures id == other
  {
    PrefixOfRest(branch, at, end);
    PrefixOfRest(branch, at, stop);
  }

  lemma BySlashIsOne(branch: string, id: nat, other: nat)
    requires BySlash(branch, id) && BySlash(branch, other)
    ensures id == other
  {
    var at, end :| SlashNames(branch, at, end, id) && NoSlashBefore(branch, at);
    var place, stop :| SlashNames(branch, place, stop, other) && NoSlashBefore(branch, place);
    FirstSlashIsOne(branch, at, end, id, place, stop, other);
  }

  lemma FirstSlashIsOne(branch: string, at: nat, end: nat, id: nat, place: nat, stop: nat, other: nat)
    requires SlashNames(branch, at, end, id) && NoSlashBefore(branch, at)
    requires SlashNames(branch, place, stop, other) && NoSlashBefore(branch, place)
    ensures id == other
  {
    assert !(at < place) && !(place < at);
    OneIdBehindSlash(branch, at, end, id, stop, other);
  }

  lemma BySlashIsNotNone(branch: string, id: nat)
    requires BySlash(branch, id)
    ensures !NoSlashBefore(branch, |branch|)
  {
    var at, end :| SlashNames(branch, at, end, id) && NoSlashBefore(branch, at);
  }

  lemma SlashIdExactly(branch: string, id: nat)
    ensures SlashId(branch, 0) == Some(id) <==> BySlash(branch, id)
    ensures SlashId(branch, 0) == None <==> NoSlashBefore(branch, |branch|)
  {
    var found := SlashId(branch, 0);
    SlashIdMeans(branch, 0);
    if BySlash(branch, id) {
      BySlashIsNotNone(branch, id);
      BySlashIsOne(branch, id, found.value);
    }
    if found.Some? {
      BySlashIsNotNone(branch, found.value);
    }
  }

  lemma {:induction false} TailOf(head: string, sep: char, tail: string)
    requires sep in {'-', '_'} && '-' !in tail && '_' !in tail
    ensures AfterLastDash(head + [sep] + tail) == Some(tail)
    decreases |tail|
  {
    var s := head + [sep] + tail;
    if tail == [] {
      assert s[|s| - 1] == sep;
    } else {
      var n := |tail| - 1;
      assert s[|s| - 1] == tail[n] && s[..|s| - 1] == head + [sep] + tail[..n];
      TailOf(head, sep, tail[..n]);
      assert tail[..n] + [tail[n]] == tail;
    }
  }

  lemma TailDash(branch: string)
    requires AfterLastDash(branch).Some?
    ensures var n := |branch| - |AfterLastDash(branch).value| - 1;
            n >= 0 && branch[n] in {'-', '_'} && branch == branch[..n] + [branch[n]] + AfterLastDash(branch).value
  {
    TailIsSuffix(branch);
    DashStands(branch);
  }

  lemma {:induction false} DashStands(branch: string)
    requires AfterLastDash(branch).Some? && |AfterLastDash(branch).value| < |branch|
    ensures branch[|branch| - |AfterLastDash(branch).value| - 1] in {'-', '_'}
  {
    if branch[|branch| - 1] !in {'-', '_'} {
      TailIsSuffix(branch[..|branch| - 1]);
      DashStands(branch[..|branch| - 1]);
    }
  }

  lemma DashExactly(branch: string, id: nat)
    ensures ByDash(branch, id) <==> AfterLastDash(branch).Some? && PositiveId(AfterLastDash(branch).value) == Some(id)
  {
    if AfterLastDash(branch).Some? {
      TailDash(branch);
      PositiveIdExactly(AfterLastDash(branch).value, id);
    }
    if ByDash(branch, id) {
      var head, sep, digits :| branch == head + [sep] + digits && sep in {'-', '_'} && IsId(digits, id);
      assert '-' !in digits && '_' !in digits;
      TailOf(head, sep, digits);
      PositiveIdExactly(digits, id);
    }
  }

  /** The first slash that has an id behind it decides, then a trailing id, then a name that is all digits. */
  lemma ParsesExactly(branch: string, id: nat)
    ensures ParseIssueId(branch) == Some(id)
       <==> || BySlash(branch, id)
            || (NoSlashBefore(branch, |branch|) && (ByDash(branch, id) || IsId(branch, id)))
  {
    SlashIdExactly(branch, id);
    DashExactly(branch, id);
    PositiveIdExactly(branch, id);
    var tail := AfterLastDash(branch);
    if tail.Some? {
      TailDash(branch);
      assert branch[|branch| - |tail.value| - 1] in branch;
      if PositiveId(tail.value).Some? {
        DashExactly(branch, PositiveId(tail.value).value);
      }
    }
  }

  /** A name has no id exactly when it has none of the three forms. */
  lemma NamesNothingExactly(branch: string)
    ensures ParseIssueId(branch) == None
       <==> forall id: nat :: !BySlash(branch, id) && !ByDash(branch, id) && !IsId(branch, id)
  {
    forall id: nat ensures ParseIssueId(branch) == Some(id)
                 <==> || BySlash(branch, id)
                      || (NoSlashBefore(branch, |branch|) && (ByDash(branch, id) || IsId(branch, id))) {
      ParsesExactly(branch, id);
      SlashIdExactly(branch, id);
    }
    if !NoSlashBefore(branch, |branch|) {
      SlashIdExactly(branch, 0);
      SlashIdExactly(branch, SlashId(branch, 0).value);
    }
    if ParseIssueId(branch).Some? {
      var id := ParseIssueId(branch).value;
      assert BySlash(branch, id) || ByDash(branch, id) || IsId(branch, id);
    }
  }

  lemma DecimalIsId(id: nat)
    requires 0 < id <= U64_MAX
    ensures IsId(Decimal(id), id)
  {
    ValueOfDecimal(id);
  }

  lemma DigitBehindSlash(branch: string, at: nat, end: nat, id: nat)
    requires SlashNames(branch, at, end, id)
    ensures IsDigit(branch[at + 1])
  {
    assert branch[at + 1] == branch[at + 1..end][0];
  }

  lemma SlashBeforeDigit(branch: string)
    requires forall i :: 0 <= i < |branch| - 1 && branch[i] == '/' ==> !IsDigit(branch[i + 1])
    ensures NoSlashBefore(branch, |branch|)
  {
    forall at: nat, end: nat, id: nat | SlashNames(branch, at, end, id) ensures false {
      DigitBehindSlash(branch, at, end, id);
    }
  }

  /** A trailing id is read behind any head in which no slash is followed by a digit; a bare id is read as it is. */
  lemma TrailingIdParses(head: string, sep: char, id: nat)
    requires 0 < id <= U64_MAX && sep in {'-', '_'}
    requires forall i :: 0 <= i < |head| - 1 && head[i] == '/' ==> !IsDigit(head[i + 1])
    ensures ParseIssueId(head + [sep] + Decimal(id)) == Some(id)
    ensures ParseIssueId(Decimal(id)) == Some(id)
  {
    var digits := Decimal(id);
    var branch := head + [sep] + digits;
    DecimalIsId(id);
    assert forall i :: 0 <= i < |head| ==> branch[i] == head[i];
    assert forall i :: |head| < i < |branch| ==> branch[i] == digits[i - |head| - 1];
    SlashBeforeDigit(branch);
    assert ByDash(branch, id);
    ParsesExactly(branch, id);
    SlashBeforeDigit(digits);
    ParsesExactly(digits, id);
  }

  // --- Round trip. ---

  lemma {:induction false} DigitPrefixOf(digits: string, suffix: string)
    requires AllDigits(digits) && (suffix == [] || !IsDigit(suffix[0]))
    ensures DigitPrefix(digits + suffix) == digits
  {
    if digits == [] {
      assert [] + suffix == suffix;
    } else {
      DigitPrefixOf(digits[1..], suffix);
      assert (digits + suffix)[1..] == digits[1..] + suffix;
    }
  }

  lemma SlashHere(branch: string, rest: string, from: nat)
    requires from < |branch| && branch[from] == '/' && branch[from + 1..] == rest
    requires PositiveId(DigitPrefix(rest)).Some?
    ensures SlashId(branch, from) == PositiveId(DigitPrefix(rest))
  {}

  lemma {:induction false} SlashAfter(branch: string, from: nat, slash: nat)
    requires from <= slash < |branch| && forall i :: from <= i < slash ==> branch[i] != '/'
    ensures SlashId(branch, from) == SlashId(branch, slash)
    decreases slash - from
  {
    if from < slash {
      SlashAfter(branch, from + 1, slash);
    }
  }

  lemma FirstSlash(head: string, rest: string)
    requires '/' !in head && PositiveId(DigitPrefix(rest)).Some?
    ensures SlashId(head + "/" + rest, 0) == PositiveId(DigitPrefix(rest))
  {
    var branch := head + "/" + rest;
    assert forall i :: 0 <= i < |head| ==> branch[i] == head[i];
    assert branch[|head| + 1..] == rest;
    SlashAfter(branch, 0, |head|);
    SlashHere(branch, rest, |head|);
  }

  /** Any type segment, any positive u64, any suffix that does not continue the number. */
  lemma TypedNameParses(kind: string, id: nat, suffix: string)
    requires '/' !in kind && 0 < id <= U64_MAX && (suffix == [] || !IsDigit(suffix[0]))
    ensures ParseIssueId(kind + "/" + Decimal(id) + suffix) == Some(id)
  {
    var rest := Decimal(id) + suffix;
    assert kind + "/" + Decimal(id) + suffix == kind + "/" + rest;
    DigitPrefixOf(Decimal(id), suffix);
    ParseDecimal(id);
    FirstSlash(kind, rest);
  }

  lemma NameRoundTrip(tracker: Option<string>, id: nat, suffix: string)
    requires 0 < id <= U64_MAX && (suffix == [] || !IsDigit(suffix[0]))
    ensures ParseIssueId(BranchName(tracker, id) + suffix) == Some(id)
  {
    TypedNameParses(BranchPrefix(tracker), id, suffix);
  }

  /** Every id that is read is positive, fits u64, and its digits stand in the name. */
  lemma ParsedIdIsWritten(branch: string) returns (start: nat, end: nat)
    requires ParseIssueId(branch).Some?
    ensures start < end <= |branch| && AllDigits(branch[start..end])
    ensures ValueOf(branch[start..end]) == ParseIssueId(branch).value
    ensures 0 < ParseIssueId(branch).value <= U64_MAX
  {
    if SlashId(branch, 0).Some? {
      start, end := SlashIdIsWritten(branch, 0);
    } else {
      var tail := AfterLastDash(branch);
      if tail.Some? && PositiveId(tail.value).Some? {
        TailIsSuffix(branch);
        start, end := |branch| - |tail.value|, |branch|;
        assert branch[start..end] == tail.value;
      } else {
        start, end := 0, |branch|;
        assert branch[0..|branch|] == branch;
      }
    }
  }

  lemma {:induction false} SlashIdIsWritten(branch: string, from: nat) returns (start: nat, end: nat)
    requires from <= |branch| && SlashId(branch, from).Some?
    ensures start < end <= |branch| && AllDigits(branch[start..end])
    ensures ValueOf(branch[start..end]) == SlashId(branch, from).value
    ensures 0 < SlashId(branch, from).value <= U64_MAX
    decreases |branch| - from
  {
    var rest := branch[from + 1..];
    var digits := DigitPrefix(rest);
    if branch[from] == '/' && PositiveId(digits).Some? {
      start, end := from + 1, from + 1 + |digits|;
      assert branch[start..end] == rest[..|digits|] == digits;
    } else {
      start, end := SlashIdIsWritten(branch, from + 1);
    }
  }

  lemma {:induction false} TailIsSuffix(branch: string)
    requires AfterLastDash(branch).Some?
    ensures var tail := AfterLastDash(branch).value;
            |tail| < |branch| && branch[|branch| - |tail|..] == tail
  {
    if branch[|branch| - 1] !in {'-', '_'} {
      TailIsSuffix(branch[..|branch| - 1]);
    }
  }
}
