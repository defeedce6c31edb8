/** What the commit hooks make of a message, and when the trailers they add take effect (src/hooks.rs). */
module CommitTrailers {
  import opened Text
  import opened Names
  import opened Decimals
  import opened Orders
  import opened CommitMessage
  import CommentMarker
  import opened MessageLines
  import opened ReferenceScan

  // --- The two hooks. ---

  /** `prepare_commit_msg`: the message it leaves. Unbound branches and Git-generated messages are left alone. */
  function Prepared(
    ids: Option<seq<nat>>, generated: bool, marker: Result<string, CommentMarker.MarkerError>, bytes: string)
    : Result<string, CommentMarker.MarkerError>
  {
    if generated || ids.None? then Ok(bytes)
    else
      match marker
      case Err(e) => Err(e)
      case Ok(m) => Ok(if References(bytes, m) != [] then bytes else Inserted(bytes, m, ids.value))
  }

  predicate IsAsciiBlank(c: char) {
    c in {' ', '\t', '\n', '\r', '\U{0C}'}
  }

  function AsciiTrimStart(s: string): string {
    if s != [] && IsAsciiBlank(s[0]) then AsciiTrimStart(s[1..]) else s
  }

  function AsciiTrimEnd(s: string): string {
    if s != [] && IsAsciiBlank(s[|s| - 1]) then AsciiTrimEnd(s[..|s| - 1]) else s
  }

  function AsciiTrim(s: string): string {
    AsciiTrimEnd(AsciiTrimStart(s))
  }

  /** `generated_count`, over the authored lines. */
  function GeneratedCount(lines: seq<string>, id: nat): nat {
    if lines == [] then 0
    else (if AsciiTrim(lines[0]) == Trailer(id) then 1 else 0) + GeneratedCount(lines[1..], id)
  }

  /** `commit_msg`: no foreign reference, and no generated trailer twice. */
  predicate Accepts(bytes: string, marker: string, ids: seq<nat>) {
    && (forall id :: id in References(bytes, marker) ==> id in ids)
    && (forall id :: id in ids ==> GeneratedCount(Authored(bytes, marker), id) <= 1)
  }

  lemma {:induction false} CountAppend(a: seq<string>, b: seq<string>, id: nat)
    ensures GeneratedCount(a + b, id) == GeneratedCount(a, id) + GeneratedCount(b, id)
  {
    if a == [] {
      assert a + b == b;
    } else {
      assert (a + b)[1..] == a[1..] + b;
      CountAppend(a[1..], b, id);
    }
  }

  // --- When the trailers take effect. ---

  /** What the configuration reader accepts as a marker. */
  ghost predicate IsMarker(marker: string) {
    marker != [] && '\n' !in marker && '\r' !in marker
  }

  /**
   * The new line end turns the last line of the body into a scissors line: it
   * reads as one but for a carriage return, and gets a bare newline.
   */
  predicate Conceals(bytes: string, marker: string) {
    Eol(bytes) == LF && LastLine(Body(bytes, marker)) == ScissorsLine(marker) + "\r"
  }

  /** The ids whose trailers are not comments. */
  function Visible(ids: seq<nat>, marker: string): seq<nat> {
    if ids == [] then []
    else (if marker <= Trailer(ids[0]) then [] else [ids[0]]) + Visible(ids[1..], marker)
  }

  lemma ScissorsShape(marker: string)
    requires IsMarker(marker)
    ensures var cut := ScissorsLine(marker);
            cut != [] && cut[|cut| - 1] == '-' && '\n' !in cut && '\r' !in cut
  {
    assert '\n' !in " " && '\r' !in " " && '\n' !in " >8 " && '\r' !in " >8 ";
    assert SCISSORS[|SCISSORS| - 1] == '-' && '\n' !in SCISSORS && '\r' !in SCISSORS;
  }

  lemma {:induction false} TrailersAreNoCut(ids: seq<nat>, marker: string)
    requires IsMarker(marker)
    ensures ScissorsLine(marker) !in TrailerLines(ids)
  {
    if ids != [] {
      ScissorsShape(marker);
      TrailerShape(ids[0]);
      TrailersAreNoCut(ids[1..], marker);
    }
  }

  lemma {:induction false} BlanksFindNothing(blanks: seq<string>, marker: string)
    requires AllBlank(blanks)
    ensures Found(NonComments(blanks, marker)) == []
    ensures forall id :: GeneratedCount(NonComments(blanks, marker), id) == 0
  {
    if blanks != [] {
      BlanksFindNothing(blanks[1..], marker);
      FoundAppend(if marker <= [] then [] else [[]], NonComments(blanks[1..], marker));
      forall id ensures GeneratedCount(NonComments(blanks, marker), id) == 0 {
        CountAppend(if marker <= [] then [] else [[]], NonComments(blanks[1..], marker), id);
        TrailerShape(id);
      }
    }
  }

  lemma {:induction false} TrailersFound(ids: seq<nat>, marker: string)
    requires forall i :: 0 <= i < |ids| ==> IsU64(ids[i])
    ensures Found(NonComments(TrailerLines(ids), marker)) == Visible(ids, marker)
  {
    if ids != [] {
      TrailersFound(ids[1..], marker);
      TrailerFound(ids[0]);
      var first: seq<string> := if marker <= Trailer(ids[0]) then [] else [Trailer(ids[0])];
      FoundAppend(first, NonComments(TrailerLines(ids[1..]), marker));
      if first != [] {
        assert first[1..] == [];
        assert Found(first) == FoundFrom(first[0], 0) + Found([]);
      }
    }
  }

  /** The lines of the body before its last one. */
  function HeadLines(bytes: string, marker: string): seq<string> {
    Contents(Head(Body(bytes, marker)))
  }

  /** The last line of the body, if it has one that is not closed. */
  function TailLines(bytes: string, marker: string): seq<string> {
    var last := LastLine(Body(bytes, marker));
    if last == [] then [] else [last]
  }

  function ReclosedLine(bytes: string, marker: string): string {
    var last := LastLine(Body(bytes, marker));
    if Eol(bytes) == LF then WithoutCr(last) else last
  }

  /** The authored part of a message: the lines of its body and blank lines, none of which says so. */
  lemma AuthoredLines(bytes: string, marker: string) returns (blanks: seq<string>)
    ensures AllBlank(blanks)
    ensures Authored(bytes, marker) ==
            NonComments(HeadLines(bytes, marker) + TailLines(bytes, marker) + blanks, marker)
    ensures ScissorsLine(marker) !in HeadLines(bytes, marker) + TailLines(bytes, marker)
  {
    var cut, end := ScissorsLine(marker), End(bytes, marker);
    ContentsAboveCut(bytes, cut);
    CutNotBefore(Contents(bytes), cut);
    blanks := TrimmedContents(bytes[..end]);
    var body := Body(bytes, marker);
    LastLineShape(body);
    if IsClosed(body) {
      assert Head(body) == body;
    } else {
      UnclosedContents(body);
    }
    assert Contents(body) == HeadLines(bytes, marker) + TailLines(bytes, marker);
    assert forall line :: line in Contents(body) ==> line in Contents(bytes[..end]);
  }

  /** The first line of the rest, if there is a rest, is the scissors line. */
  lemma RestIsCut(bytes: string, marker: string)
    ensures Before(Contents(bytes[End(bytes, marker)..]), ScissorsLine(marker)) == []
  {
    var rest := CutStands(bytes, ScissorsLine(marker));
  }

  lemma BeforeStops(head: seq<string>, more: seq<string>, cut: string)
    requires cut !in head && more != [] && more[0] == cut
    ensures Before(head + more, cut) == head
  {
    BeforeAppend(head, more, cut);
    assert head + [] == head;
  }

  lemma BeforeFour(head: seq<string>, line: string, middle: seq<string>, rest: seq<string>, cut: string)
    requires cut !in head && cut !in middle && Before(rest, cut) == []
    ensures Before(head + [line] + middle + rest, cut) == if line == cut then head else head + [line] + middle
  {
    if line == cut {
      assert head + [line] + middle + rest == head + ([line] + middle + rest);
      BeforeStops(head, [line] + middle + rest, cut);
    } else {
      BeforeAppend(head + [line] + middle, rest, cut);
      assert head + [line] + middle + [] == head + [line] + middle;
    }
  }

  lemma AuthoredIsBefore(bytes: string, marker: string)
    ensures Authored(bytes, marker) == NonComments(Before(Contents(bytes), ScissorsLine(marker)), marker)
  {
    ContentsAboveCut(bytes, ScissorsLine(marker));
  }

  /** The lines above the scissors after an insertion. */
  function LinesAfter(bytes: string, marker: string, ids: seq<nat>): seq<string> {
    if Conceals(bytes, marker) then HeadLines(bytes, marker)
    else HeadLines(bytes, marker) + [ReclosedLine(bytes, marker)] + ([[]] + TrailerLines(ids))
  }

  lemma LinesBeforeCut(bytes: string, marker: string, ids: seq<nat>, rest: seq<string>)
    requires IsMarker(marker) && Before(rest, ScissorsLine(marker)) == []
    ensures Before(HeadLines(bytes, marker) + [ReclosedLine(bytes, marker)] + ([[]] + TrailerLines(ids)) + rest,
                   ScissorsLine(marker)) == LinesAfter(bytes, marker, ids)
  {
    var blanks := AuthoredLines(bytes, marker);
    ScissorsShape(marker);
    TrailersAreNoCut(ids, marker);
    ReclosedCut(bytes, marker);
    BeforeFour(
      HeadLines(bytes, marker), ReclosedLine(bytes, marker), [[]] + TrailerLines(ids), rest, ScissorsLine(marker));
  }

  lemma RegroupLines(a: seq<string>, b: seq<string>, c: seq<string>, d: seq<string>, e: seq<string>)
    ensures a + b + c + d + e == a + b + (c + d) + e
  {}

  /** The authored part after an insertion. */
  lemma AuthoredAfter(bytes: string, marker: string, ids: seq<nat>)
    requires ids != [] && IsMarker(marker)
    ensures Authored(Inserted(bytes, marker, ids), marker) == NonComments(LinesAfter(bytes, marker, ids), marker)
  {
    var rest := Contents(bytes[End(bytes, marker)..]);
    InsertedContents(bytes, marker, ids);
    RegroupLines(HeadLines(bytes, marker), [ReclosedLine(bytes, marker)], [[]], TrailerLines(ids), rest);
    RestIsCut(bytes, marker);
    LinesBeforeCut(bytes, marker, ids, rest);
    AuthoredIsBefore(Inserted(bytes, marker, ids), marker);
  }

  /** The reclosed line is a scissors line exactly when the insertion conceals its trailers. */
  lemma ReclosedCut(bytes: string, marker: string)
    requires IsMarker(marker)
    ensures ReclosedLine(bytes, marker) == ScissorsLine(marker) <==> Conceals(bytes, marker)
  {
    var cut, last := ScissorsLine(marker), LastLine(Body(bytes, marker));
    var blanks := AuthoredLines(bytes, marker);
    ScissorsShape(marker);
    assert last != cut;
    if last != [] && last[|last| - 1] == '\r' {
      assert last == WithoutCr(last) + "\r";
    }
    assert (cut + "\r")[..|cut|] == cut;
  }

  lemma CommentWithoutCr(line: string, marker: string)
    requires IsMarker(marker)
    ensures marker <= WithoutCr(line) <==> marker <= line
  {
    if line != [] && line[|line| - 1] == '\r' && marker <= line {
      assert line == WithoutCr(line) + "\r";
    }
  }

  /** Closing the last line again changes neither what is found in it nor that it is a comment. */
  lemma ReclosedFinds(bytes: string, marker: string)
    requires IsMarker(marker)
    ensures Found(NonComments([ReclosedLine(bytes, marker)], marker))
         == Found(NonComments(TailLines(bytes, marker), marker))
  {
    var last := LastLine(Body(bytes, marker));
    FoundWithoutCr(last);
    CommentWithoutCr(last, marker);
    OneNonComment(last, marker);
    OneNonComment(ReclosedLine(bytes, marker), marker);
  }

  lemma OneNonComment(line: string, marker: string)
    ensures Found(NonComments([line], marker)) == if marker <= line then [] else FoundFrom(line, 0)
  {
    assert [line][1..] == [];
    if !(marker <= line) {
      assert NonComments([line], marker) == [line];
      assert Found([line]) == FoundFrom(line, 0) + Found([]);
    }
  }

  lemma NonCommentsOfParts(a: seq<string>, b: seq<string>, c: seq<string>, marker: string)
    ensures Found(NonComments(a + b + c, marker)) ==
            Found(NonComments(a, marker)) + Found(NonComments(b, marker)) + Found(NonComments(c, marker))
  {
    NonCommentsAppend(a + b, c, marker);
    NonCommentsAppend(a, b, marker);
    FoundAppend(NonComments(a + b, marker), NonComments(c, marker));
    FoundAppend(NonComments(a, marker), NonComments(b, marker));
  }

  lemma FoundBefore(bytes: string, marker: string)
    ensures Found(Authored(bytes, marker)) ==
            Found(NonComments(HeadLines(bytes, marker), marker)) + Found(NonComments(TailLines(bytes, marker), marker))
  {
    var blanks := AuthoredLines(bytes, marker);
    NonCommentsOfParts(HeadLines(bytes, marker), TailLines(bytes, marker), blanks, marker);
    BlanksFindNothing(blanks, marker);
  }

  lemma BlockFound(ids: seq<nat>, marker: string)
    requires forall i :: 0 <= i < |ids| ==> IsU64(ids[i])
    ensures Found(NonComments([[]] + TrailerLines(ids), marker)) == Visible(ids, marker)
  {
    NonCommentsOfParts([], [[]], TrailerLines(ids), marker);
    assert [] + [[]] + TrailerLines(ids) == [[]] + TrailerLines(ids);
    BlanksFindNothing([[]], marker);
    TrailersFound(ids, marker);
  }

  /** What the scan finds after an insertion, next to what it found before. */
  lemma FoundAfter(bytes: string, marker: string, ids: seq<nat>)
    requires ids != [] && IsMarker(marker) && forall i :: 0 <= i < |ids| ==> IsU64(ids[i])
    ensures var before, after := Found(Authored(bytes, marker)), Found(Authored(Inserted(bytes, marker, ids), marker));
            if Conceals(bytes, marker) then after <= before else after == before + Visible(ids, marker)
  {
    AuthoredAfter(bytes, marker, ids);
    FoundBefore(bytes, marker);
    if !Conceals(bytes, marker) {
      NonCommentsOfParts(
        HeadLines(bytes, marker), [ReclosedLine(bytes, marker)], [[]] + TrailerLines(ids), marker);
      BlockFound(ids, marker);
      ReclosedFinds(bytes, marker);
    }
  }

  lemma {:induction false} MergeKeeps(ids: seq<nat>, found: seq<nat>)
    ensures ids <= Merge(ids, found)
    ensures forall id :: id in Merge(ids, found) <==> id in ids || id in found
    ensures Distinct(ids) ==> Distinct(Merge(ids, found))
    decreases |found|
  {
    if found != [] {
      MergeKeeps(if found[0] in ids then ids else ids + [found[0]], found[1..]);
      assert found == [found[0]] + found[1..];
    }
  }

  lemma {:induction false} MergeDistinct(ids: seq<nat>, found: seq<nat>)
    requires Distinct(ids + found)
    ensures Merge(ids, found) == ids + found
    decreases |found|
  {
    if found != [] {
      assert ids + found == (ids + [found[0]]) + found[1..];
      assert (ids + found)[|ids|] == found[0];
      forall i | 0 <= i < |ids| ensures ids[i] != found[0] {
        assert (ids + found)[i] == ids[i];
      }
      MergeDistinct(ids + [found[0]], found[1..]);
    } else {
      assert ids + found == ids;
    }
  }

  lemma {:induction false} VisibleAll(ids: seq<nat>, marker: string)
    ensures |Visible(ids, marker)| <= |ids|
    ensures forall id :: id in Visible(ids, marker) <==> id in ids && !(marker <= Trailer(id))
    ensures (forall i :: 0 <= i < |ids| ==> !(marker <= Trailer(ids[i]))) ==> Visible(ids, marker) == ids
  {
    if ids != [] {
      assert ids == [ids[0]] + ids[1..];
      VisibleAll(ids[1..], marker);
    }
  }

  /** Unless it conceals them, an insertion adds exactly the visible trailers to the references. */
  lemma InsertionAddsReferences(bytes: string, marker: string, ids: seq<nat>)
    requires ids != [] && IsMarker(marker) && forall i :: 0 <= i < |ids| ==> IsU64(ids[i])
    requires !Conceals(bytes, marker)
    ensures References(Inserted(bytes, marker, ids), marker) == Merge(References(bytes, marker), Visible(ids, marker))
  {
    FoundAfter(bytes, marker, ids);
    MergeBoth([], Found(Authored(bytes, marker)), Visible(ids, marker));
  }

  /**
   * On a message without references the trailers take effect, all of them and
   * in order, exactly when the insertion does not conceal them and the comment
   * marker starts none of them.
   */
  lemma TrailersTakeEffectExactly(bytes: string, marker: string, ids: seq<nat>)
    requires ids != [] && Distinct(ids) && IsMarker(marker) && forall i :: 0 <= i < |ids| ==> IsU64(ids[i])
    requires References(bytes, marker) == []
    ensures References(Inserted(bytes, marker, ids), marker) == ids
       <==> !Conceals(bytes, marker) && forall i :: 0 <= i < |ids| ==> !(marker <= Trailer(ids[i]))
  {
    var before := Found(Authored(bytes, marker));
    MergeOfNothing(before);
    FoundAfter(bytes, marker, ids);
    if Conceals(bytes, marker) {
      assert Found(Authored(Inserted(bytes, marker, ids), marker)) == [];
    } else {
      assert [] + Visible(ids, marker) == Visible(ids, marker);
      VisibleExactly(ids, marker);
    }
  }

  lemma MergeOfNothing(found: seq<nat>)
    ensures Merge([], found) == [] <==> found == []
  {
    MergeKeeps([], found);
    if found != [] {
      assert found[0] in Merge([], found);
    }
  }

  lemma VisibleExactly(ids: seq<nat>, marker: string)
    requires Distinct(ids)
    ensures Merge([], Visible(ids, marker)) == ids <==> forall i :: 0 <= i < |ids| ==> !(marker <= Trailer(ids[i]))
  {
    VisibleAll(ids, marker);
    MergeKeeps([], Visible(ids, marker));
    if forall i :: 0 <= i < |ids| ==> !(marker <= Trailer(ids[i])) {
      assert [] + ids == ids;
      MergeDistinct([], ids);
    } else {
      var i :| 0 <= i < |ids| && marker <= Trailer(ids[i]);
      assert ids[i] !in Merge([], Visible(ids, marker));
    }
  }

  lemma {:induction false} NoNewlines(bytes: string)
    requires '\n' !in bytes
    ensures Eol(bytes) == LF && LastLine(bytes) == bytes && TrimBreaks(bytes) == bytes
  {
    if bytes != [] {
      var front := bytes[..|bytes| - 1];
      assert bytes[|bytes| - 1] in bytes;
      assert bytes == front + [bytes[|bytes| - 1]];
      NoNewlines(front);
    }
  }

  /** Such a message exists for every marker: its trailers land below the scissors and are lost. */
  lemma ConcealedTrailers(marker: string, id: nat)
    requires IsMarker(marker) && IsU64(id)
    ensures var bytes := ScissorsLine(marker) + "\r";
            && Conceals(bytes, marker)
            && References(bytes, marker) == []
            && References(Inserted(bytes, marker, [id]), marker) == []
  {
    var cut := ScissorsLine(marker);
    var bytes := cut + "\r";
    ScissorsShape(marker);
    NoNewlines(bytes);
    OneLineLength(bytes);
    assert bytes[..|bytes|] == bytes && bytes[|bytes|..] == [];
    assert End(bytes, marker) == |bytes|;
    OneLine(bytes);
    OneNonComment(bytes, marker);
    assert marker <= bytes;
    assert Found(Authored(bytes, marker)) == [];
    FoundAfter(bytes, marker, [id]);
  }

  lemma CommentIsLost(bytes: string, marker: string, id: nat)
    requires IsMarker(marker) && IsU64(id) && marker <= Trailer(id)
    requires !Conceals(bytes, marker) && References(bytes, marker) == []
    ensures References(Inserted(bytes, marker, [id]), marker) == []
  {
    InsertionAddsReferences(bytes, marker, [id]);
    VisibleAll([id], marker);
    assert Visible([id], marker) == [];
  }

  lemma EmptyMessage(marker: string)
    requires IsMarker(marker)
    ensures !Conceals([], marker) && References([], marker) == []
  {
    NoNewlines([]);
    ScissorsShape(marker);
    assert Authored([], marker) == [];
  }

  /** The other way to lose one: under the marker "R" every trailer of an empty message is a comment. */
  lemma CommentedTrailers(id: nat)
    requires IsU64(id)
    ensures IsMarker("R") && References([], "R") == [] && References(Inserted([], "R", [id]), "R") == []
  {
    TrailerShape(id);
    assert "R" <= Trailer(id);
    EmptyMessage("R");
    CommentIsLost([], "R", id);
  }

  lemma Regroup(a: string, b: string, c: string, d: string)
    ensures a + b + b + c + d == a + (b + b + c) + d
  {}

  /** The body, as a part of the whole message. */
  lemma BodyStands(bytes: string, marker: string)
    ensures var from, to := |Body(bytes, marker)|, End(bytes, marker);
            && from <= to && Body(bytes, marker) == bytes[..from]
            && (from > 0 ==> bytes[from - 1] != '\n')
            && forall i :: from <= i < to ==> bytes[i] in {'\n', '\r'}
  {
    var above := bytes[..End(bytes, marker)];
    TrimsLineEnds(above);
    assert forall i :: 0 <= i < |above| ==> bytes[i] == above[i];
  }

  /**
   * An insertion replaces one stretch of line ends: all those before the
   * scissors line, or before the end of the message without one. Every other
   * byte stays.
   */
  lemma InsertionReplacesLineEnds(bytes: string, marker: string, ids: seq<nat>) returns (from: nat, to: nat)
    requires ids != []
    ensures from <= to <= |bytes| && to == End(bytes, marker)
    ensures forall i :: from <= i < to ==> bytes[i] in {'\n', '\r'}
    ensures from > 0 ==> bytes[from - 1] != '\n'
    ensures Inserted(bytes, marker, ids)
         == bytes[..from] + (Eol(bytes) + Eol(bytes) + Trailers(ids, Eol(bytes))) + bytes[to..]
  {
    from, to := |Body(bytes, marker)|, End(bytes, marker);
    BodyStands(bytes, marker);
    Regroup(Body(bytes, marker), Eol(bytes), Trailers(ids, Eol(bytes)), bytes[to..]);
  }

  lemma {:induction false} TrimsLineEnds(bytes: string)
    ensures TrimBreaks(bytes) <= bytes
    ensures TrimBreaks(bytes) != [] ==> TrimBreaks(bytes)[|TrimBreaks(bytes)| - 1] != '\n'
    ensures forall i :: |TrimBreaks(bytes)| <= i < |bytes| ==> bytes[i] in {'\n', '\r'}
    decreases |bytes|
  {
    if bytes != [] && bytes[|bytes| - 1] == '\n' {
      var body := WithoutCr(bytes[..|bytes| - 1]);
      TrimsLineEnds(body);
      assert forall i :: 0 <= i < |body| ==> bytes[i] == body[i];
    }
  }

  // --- What one hook writes, the other accepts. ---

  ghost predicate AllAsciiBlank(s: string) {
    forall i :: 0 <= i < |s| ==> IsAsciiBlank(s[i])
  }

  lemma {:induction false} AsciiTrimStartParts(s: string) returns (pre: string)
    ensures s == pre + AsciiTrimStart(s) && AllAsciiBlank(pre)
  {
    if s != [] && IsAsciiBlank(s[0]) {
      var more := AsciiTrimStartParts(s[1..]);
      pre := [s[0]] + more;
    } else {
      pre := [];
    }
  }

  lemma {:induction false} AsciiTrimEndParts(s: string) returns (post: string)
    ensures s == AsciiTrimEnd(s) + post && AllAsciiBlank(post)
  {
    if s != [] && IsAsciiBlank(s[|s| - 1]) {
      var more := AsciiTrimEndParts(s[..|s| - 1]);
      post := more + [s[|s| - 1]];
    } else {
      post := [];
    }
  }

  /** A line that trims to a trailer is found as a reference. */
  lemma TrimmedTrailerIsFound(line: string, id: nat)
    requires IsU64(id) && AsciiTrim(line) == Trailer(id)
    ensures FoundFrom(line, 0) != []
  {
    var pre := AsciiTrimStartParts(line);
    var post := AsciiTrimEndParts(AsciiTrimStart(line));
    assert line == pre + Trailer(id) + post;
    TrailerMatches(pre, id, post);
    TrailerShape(id);
    FoundContains(line, 0, |pre|, id);
  }

  lemma {:induction false} NothingFoundNothingCounted(lines: seq<string>, id: nat)
    requires IsU64(id) && Found(lines) == []
    ensures GeneratedCount(lines, id) == 0
  {
    if lines != [] {
      NothingFoundNothingCounted(lines[1..], id);
      if AsciiTrim(lines[0]) == Trailer(id) {
        TrimmedTrailerIsFound(lines[0], id);
      }
    }
  }

  lemma TrailerIsTrimmed(id: nat)
    ensures AsciiTrim(Trailer(id)) == Trailer(id)
  {
    TrailerShape(id);
  }

  lemma TrailerInjective(a: nat, b: nat)
    ensures Trailer(a) == Trailer(b) ==> a == b
  {
    assert Trailer(a)[6..] == Decimal(a) && Trailer(b)[6..] == Decimal(b);
    DecimalInjective(a, b);
  }

  lemma {:induction false} TrailersCounted(ids: seq<nat>, marker: string, id: nat)
    requires Distinct(ids)
    ensures GeneratedCount(NonComments(TrailerLines(ids), marker), id) <= if id in ids then 1 else 0
  {
    if ids != [] {
      var first: seq<string> := if marker <= Trailer(ids[0]) then [] else [Trailer(ids[0])];
      TrailersCounted(ids[1..], marker, id);
      CountAppend(first, NonComments(TrailerLines(ids[1..]), marker), id);
      TrailerIsTrimmed(ids[0]);
      TrailerInjective(ids[0], id);
      if first != [] {
        assert first[1..] == [];
      }
    }
  }

  lemma CountLines(head: seq<string>, line: string, ids: seq<nat>, marker: string, id: nat)
    requires Distinct(ids) && IsU64(id)
    requires Found(NonComments(head, marker)) == [] && Found(NonComments([line], marker)) == []
    ensures GeneratedCount(NonComments(head, marker), id) == 0
    ensures GeneratedCount(NonComments(head + [line] + ([[]] + TrailerLines(ids)), marker), id) <= 1
  {
    NothingFoundNothingCounted(NonComments(head, marker), id);
    NothingFoundNothingCounted(NonComments([line], marker), id);
    CountParts(head, [line], [[]] + TrailerLines(ids), marker, id);
    CountParts([], [[]], TrailerLines(ids), marker, id);
    assert [] + [[]] + TrailerLines(ids) == [[]] + TrailerLines(ids);
    BlanksFindNothing([[]], marker);
    TrailersCounted(ids, marker, id);
  }

  lemma CountAfter(bytes: string, marker: string, ids: seq<nat>, id: nat)
    requires ids != [] && Distinct(ids) && IsMarker(marker) && IsU64(id)
    requires Found(Authored(bytes, marker)) == []
    ensures GeneratedCount(Authored(Inserted(bytes, marker, ids), marker), id) <= 1
  {
    AuthoredAfter(bytes, marker, ids);
    FoundBefore(bytes, marker);
    ReclosedFinds(bytes, marker);
    CountLines(HeadLines(bytes, marker), ReclosedLine(bytes, marker), ids, marker, id);
  }

  lemma CountParts(a: seq<string>, b: seq<string>, c: seq<string>, marker: string, id: nat)
    ensures GeneratedCount(NonComments(a + b + c, marker), id) ==
            GeneratedCount(NonComments(a, marker), id) + GeneratedCount(NonComments(b, marker), id)
            + GeneratedCount(NonComments(c, marker), id)
  {
    NonCommentsAppend(a + b, c, marker);
    NonCommentsAppend(a, b, marker);
    CountAppend(NonComments(a + b, marker), NonComments(c, marker), id);
    CountAppend(NonComments(a, marker), NonComments(b, marker), id);
  }

  /** Every marker the configuration reader returns can be used. */
  lemma ReadMarkerIsMarker(status: int, stdout: string)
    requires CommentMarker.Marker(status, stdout).Ok?
    ensures IsMarker(CommentMarker.Marker(status, stdout).value)
  {}

  lemma OnlyOwnReferences(bytes: string, marker: string, ids: seq<nat>, id: nat)
    requires ids != [] && IsMarker(marker) && forall i :: 0 <= i < |ids| ==> IsU64(ids[i])
    requires Found(Authored(bytes, marker)) == []
    ensures id in References(Inserted(bytes, marker, ids), marker) ==> id in ids
  {
    var after := Found(Authored(Inserted(bytes, marker, ids), marker));
    FoundAfter(bytes, marker, ids);
    assert after == [] || after == Visible(ids, marker);
    VisibleAll(ids, marker);
    MergeKeeps([], after);
  }

  lemma InsertedIsAccepted(ids: seq<nat>, marker: string, bytes: string)
    requires ids != [] && Distinct(ids) && IsMarker(marker) && forall i :: 0 <= i < |ids| ==> IsU64(ids[i])
    requires References(bytes, marker) == []
    ensures Accepts(Inserted(bytes, marker, ids), marker, ids)
  {
    var out := Inserted(bytes, marker, ids);
    MergeOfNothing(Found(Authored(bytes, marker)));
    forall id | id in References(out, marker) ensures id in ids {
      OnlyOwnReferences(bytes, marker, ids, id);
    }
    forall id | id in ids ensures GeneratedCount(Authored(out, marker), id) <= 1 {
      CountAfter(bytes, marker, ids, id);
    }
  }

  /**
   * Whatever Git answers about its comment marker, `prepare-commit-msg` leaves
   * the message as it was, or leaves one `commit-msg` accepts under that
   * marker; it fails only where the marker cannot be read.
   */
  lemma PreparedIsAccepted(ids: seq<nat>, generated: bool, status: int, stdout: string, bytes: string)
    requires ids != [] && Distinct(ids) && forall i :: 0 <= i < |ids| ==> IsU64(ids[i])
    ensures var marker := CommentMarker.Marker(status, stdout);
            var out := Prepared(Some(ids), generated, marker, bytes);
            && (out.Err? <==> !generated && marker.Err?)
            && (out.Ok? ==> out.value == bytes || (marker.Ok? && Accepts(out.value, marker.value, ids)))
            && (!generated && marker.Ok? && References(bytes, marker.value) == []
                ==> Accepts(out.value, marker.value, ids))
  {
    var marker := CommentMarker.Marker(status, stdout);
    if !generated && marker.Ok? && References(bytes, marker.value) == [] {
      ReadMarkerIsMarker(status, stdout);
      InsertedIsAccepted(ids, marker.value, bytes);
    }
  }
}
