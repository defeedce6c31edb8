/** Issue references in commit messages and the trailers the hooks add (src/hooks/message.rs, src/hooks.rs). */
module CommitMessage {
  import opened Text
  import opened Names
  import opened Decimals
  import CommentMarker

  const KEYWORDS: seq<string> := ["refs", "references", "ref", "fixes", "closes", "closed"]
  const SCISSORS: string := " " + Dashes(24) + " >8 " + Dashes(24)
  const LF: string := "\n"
  const CRLF: string := "\r\n"

  function Dashes(n: nat): (s: string)
    ensures |s| == n && forall i :: 0 <= i < n ==> s[i] == '-'
  {
    if n == 0 then [] else Dashes(n - 1) + "-"
  }

  // --- Lines. ---

  /** The length of the first line, its newline included. */
  function LineLength(bytes: string): (n: nat)
    requires bytes != []
    ensures 0 < n <= |bytes|
  {
    var n := CommentMarker.NewlineAt(bytes);
    if n == |bytes| then n else n + 1
  }

  function WithoutCr(line: string): string {
    if line != [] && line[|line| - 1] == '\r' then line[..|line| - 1] else line
  }

  /** A line without its terminator; a carriage return counts only before a newline. */
  function Content(line: string): string {
    if line != [] && line[|line| - 1] == '\n' then WithoutCr(line[..|line| - 1]) else line
  }

  function Contents(bytes: string): seq<string>
    decreases |bytes|
  {
    if bytes == [] then []
    else
      var n := LineLength(bytes);
      [Content(bytes[..n])] + Contents(bytes[n..])
  }

  /** The line below which nothing belongs to the message. */
  function ScissorsLine(marker: string): string {
    marker + SCISSORS
  }

  /** Where the first line that says `cut` starts, or the length. */
  function CutAt(bytes: string, cut: string): (end: nat)
    ensures end <= |bytes|
    decreases |bytes|
  {
    if bytes == [] then 0
    else
      var n := LineLength(bytes);
      if Content(bytes[..n]) == cut then 0 else n + CutAt(bytes[n..], cut)
  }

  method FindCut(bytes: string, cut: string) returns (end: nat)
    ensures end == CutAt(bytes, cut)
  {
    end := 0;
    var rest := bytes;
    while rest != []
      invariant CutAt(bytes, cut) == end + CutAt(rest, cut)
      decreases |rest|
    {
      var n := LineLength(rest);
      if Content(rest[..n]) == cut {
        return;
      }
      end := end + n;
      rest := rest[n..];
    }
  }

  /** The length of the part above the scissors line. */
  function End(bytes: string, marker: string): (end: nat)
    ensures end <= |bytes|
  {
    CutAt(bytes, ScissorsLine(marker))
  }

  /** The lines that are not comments. */
  function NonComments(lines: seq<string>, marker: string): seq<string> {
    if lines == [] then []
    else (if marker <= lines[0] then [] else [lines[0]]) + NonComments(lines[1..], marker)
  }

  /** `Message::authored`. */
  function Authored(bytes: string, marker: string): seq<string> {
    NonComments(Contents(bytes[..End(bytes, marker)]), marker)
  }

  // --- References. ---

  predicate IsWord(c: char) {
    'a' <= c <= 'z' || 'A' <= c <= 'Z' || IsDigit(c) || c == '_'
  }

  /** ASCII letters and digits and the underscore, by code point. */
  lemma WordsByCodePoint(c: char)
    ensures var n := c as int;
            IsWord(c) <==> 0x30 <= n <= 0x39 || 0x41 <= n <= 0x5A || 0x61 <= n <= 0x7A || n == 0x5F
  {}

  function SkipBlanks(line: string, from: nat): (to: nat)
    requires from <= |line|
    ensures from <= to <= |line|
    decreases |line| - from
  {
    if from < |line| && line[from] in {' ', '\t'} then SkipBlanks(line, from + 1) else from
  }

  function SkipDigits(line: string, from: nat): (to: nat)
    requires from <= |line|
    ensures from <= to <= |line| && AllDigits(line[from..to])
    ensures to < |line| ==> !IsDigit(line[to])
    decreases |line| - from
  {
    if from < |line| && IsDigit(line[from]) then
      var to := SkipDigits(line, from + 1);
      assert line[from..to] == [line[from]] + line[from + 1..to];
      to
    else from
  }

  function IdOf(digits: string): Option<nat>
    requires AllDigits(digits)
  {
    if 0 < ValueOf(digits) <= U64_MAX then Some(ValueOf(digits)) else None
  }

  /** The hash after a keyword that ends at `c`: a colon or blanks have to stand between. */
  function HashAfter(line: string, c: nat): (hash: Option<nat>)
    requires c <= |line|
    ensures hash.Some? ==> hash.value < |line|
  {
    var colon := c < |line| && line[c] == ':';
    var blanks := if colon then c + 1 else c;
    var hash := SkipBlanks(line, blanks);
    if (!colon && hash == blanks) || hash == |line| || line[hash] != '#' then None else Some(hash)
  }

  /** The number whose digits start at `start`, unless a word character follows them. */
  function NumberAt(line: string, start: nat): Option<nat>
    requires start <= |line|
  {
    var end := SkipDigits(line, start);
    if end == start || (end < |line| && IsWord(line[end])) then None else IdOf(line[start..end])
  }

  function NumberAfter(line: string, c: nat): Option<nat>
    requires c <= |line|
  {
    match HashAfter(line, c)
    case None => None
    case Some(hash) => NumberAt(line, hash + 1)
  }

  /** The reference that `keyword` starts at this position, if it does. */
  function MatchAt(line: string, at: nat, keyword: string): Option<nat>
    requires at < |line|
  {
    var c := at + |keyword|;
    if at > 0 && IsWord(line[at - 1]) then None
    else if c > |line| || Lower(line[at..c]) != keyword then None
    else NumberAfter(line, c)
  }

  method ReadBlanks(line: string, from: nat) returns (cursor: nat)
    requires from <= |line|
    ensures cursor == SkipBlanks(line, from)
  {
    cursor := from;
    while cursor < |line| && line[cursor] in {' ', '\t'}
      invariant from <= cursor <= |line| && SkipBlanks(line, from) == SkipBlanks(line, cursor)
    {
      cursor := cursor + 1;
    }
  }

  /** Reads digits into a checked u64. */
  method ReadDigits(line: string, start: nat) returns (cursor: nat, id: Option<nat>)
    requires start <= |line|
    ensures cursor == SkipDigits(line, start)
    ensures id == if ValueOf(line[start..cursor]) > U64_MAX then None else Some(ValueOf(line[start..cursor]))
  {
    cursor, id := start, Some(0);
    while cursor < |line| && IsDigit(line[cursor])
      invariant start <= cursor <= |line| && SkipDigits(line, start) == SkipDigits(line, cursor)
      invariant AllDigits(line[start..cursor])
      invariant id == if ValueOf(line[start..cursor]) > U64_MAX then None else Some(ValueOf(line[start..cursor]))
    {
      assert line[start..cursor + 1][..cursor - start] == line[start..cursor];
      if id.Some? {
        var next := id.value * 10 + DigitValue(line[cursor]);
        id := if next > U64_MAX then None else Some(next);
      }
      cursor := cursor + 1;
    }
  }

  method ReadNumber(line: string, c: nat) returns (id: Option<nat>)
    requires c <= |line|
    ensures id == NumberAfter(line, c)
  {
    var colon := c < |line| && line[c] == ':';
    var beforeSpace := if colon then c + 1 else c;
    var hash := ReadBlanks(line, beforeSpace);
    if (!colon && hash == beforeSpace) || hash == |line| || line[hash] != '#' {
      return None;
    }
    var end, value := ReadDigits(line, hash + 1);
    if end == hash + 1 || (end < |line| && IsWord(line[end])) {
      return None;
    }
    id := if value.Some? && value.value > 0 then value else None;
  }

  method ReadReference(line: string, at: nat, keyword: string) returns (id: Option<nat>)
    requires at < |line|
    ensures id == MatchAt(line, at, keyword)
  {
    if at > 0 && IsWord(line[at - 1]) {
      return None;
    }
    var cursor := at + |keyword|;
    if cursor > |line| || Lower(line[at..cursor]) != keyword {
      return None;
    }
    id := ReadNumber(line, cursor);
  }

  function ListOf(id: Option<nat>): seq<nat> {
    if id.Some? then [id.value] else []
  }

  /** The references found at one position, in keyword order. */
  function FoundAt(line: string, at: nat, k: nat): seq<nat>
    requires at < |line| && k <= |KEYWORDS|
    decreases |KEYWORDS| - k
  {
    if k == |KEYWORDS| then [] else ListOf(MatchAt(line, at, KEYWORDS[k])) + FoundAt(line, at, k + 1)
  }

  /** The references found from a position on. */
  function FoundFrom(line: string, at: nat): seq<nat>
    requires at <= |line|
    decreases |line| - at
  {
    if at == |line| then [] else FoundAt(line, at, 0) + FoundFrom(line, at + 1)
  }

  function Found(lines: seq<string>): seq<nat> {
    if lines == [] then [] else FoundFrom(lines[0], 0) + Found(lines[1..])
  }

  /** Each id once, in order of its first appearance. */
  function Merge(ids: seq<nat>, found: seq<nat>): seq<nat>
    decreases |found|
  {
    if found == [] then ids
    else Merge(if found[0] in ids then ids else ids + [found[0]], found[1..])
  }

  /** `Message::references`. */
  function References(bytes: string, marker: string): seq<nat> {
    Merge([], Found(Authored(bytes, marker)))
  }

  lemma {:induction false} MergeBoth(ids: seq<nat>, a: seq<nat>, b: seq<nat>)
    ensures Merge(ids, a + b) == Merge(Merge(ids, a), b)
    decreases |a|
  {
    if a == [] {
      assert a + b == b;
    } else {
      assert (a + b)[1..] == a[1..] + b;
      MergeBoth(if a[0] in ids then ids else ids + [a[0]], a[1..], b);
    }
  }

  method ReadPosition(line: string, at: nat, known: seq<nat>) returns (ids: seq<nat>)
    requires at < |line|
    ensures ids == Merge(known, FoundAt(line, at, 0))
  {
    ids := known;
    for k := 0 to |KEYWORDS|
      invariant Merge(ids, FoundAt(line, at, k)) == Merge(known, FoundAt(line, at, 0))
    {
      var id := ReadReference(line, at, KEYWORDS[k]);
      MergeBoth(ids, ListOf(id), FoundAt(line, at, k + 1));
      if id.Some? && id.value !in ids {
        ids := ids + [id.value];
      }
    }
  }

  method ReadLine(line: string, known: seq<nat>) returns (ids: seq<nat>)
    ensures ids == Merge(known, FoundFrom(line, 0))
  {
    ids := known;
    for at := 0 to |line|
      invariant Merge(ids, FoundFrom(line, at)) == Merge(known, FoundFrom(line, 0))
    {
      MergeBoth(ids, FoundAt(line, at, 0), FoundFrom(line, at + 1));
      ids := ReadPosition(line, at, ids);
    }
  }

  method ReadReferences(bytes: string, marker: string) returns (ids: seq<nat>)
    ensures ids == References(bytes, marker)
  {
    var end := FindCut(bytes, ScissorsLine(marker));
    var lines := NonComments(Contents(bytes[..end]), marker);
    ids := [];
    assert lines[0..] == lines;
    for l := 0 to |lines|
      invariant Merge(ids, Found(lines[l..])) == Merge([], Found(lines))
    {
      assert lines[l..][0] == lines[l] && lines[l..][1..] == lines[l + 1..];
      MergeBoth(ids, FoundFrom(lines[l], 0), Found(lines[l + 1..]));
      ids := ReadLine(lines[l], ids);
    }
  }

  // --- Line ends and insertion. ---

  function CrLfs(bytes: string): nat {
    if bytes == [] then 0
    else CrLfs(bytes[..|bytes| - 1]) + (if EndsInCrLf(bytes) then 1 else 0)
  }

  function Newlines(bytes: string): nat {
    if bytes == [] then 0
    else Newlines(bytes[..|bytes| - 1]) + (if bytes[|bytes| - 1] == '\n' then 1 else 0)
  }

  predicate EndsInCrLf(bytes: string) {
    |bytes| >= 2 && bytes[|bytes| - 1] == '\n' && bytes[|bytes| - 2] == '\r'
  }

  /** Whether the first newline ends a CRLF. */
  predicate StartsCrLf(bytes: string) {
    var n := CommentMarker.NewlineAt(bytes);
    0 < n < |bytes| && bytes[n - 1] == '\r'
  }

  /** The more frequent line end; the first one decides a tie. */
  function Eol(bytes: string): string {
    var crlf, all := CrLfs(bytes), Newlines(bytes);
    if 2 * crlf > all || (2 * crlf == all && StartsCrLf(bytes)) then CRLF else LF
  }

  predicate IsCrLfAt(bytes: string, i: nat) {
    0 < i < |bytes| && bytes[i] == '\n' && bytes[i - 1] == '\r'
  }

  predicate IsLoneLfAt(bytes: string, i: nat) {
    i < |bytes| && bytes[i] == '\n' && (i == 0 || bytes[i - 1] != '\r')
  }

  /** The newlines that end a CRLF, and those that stand alone. */
  ghost function CrLfAt(bytes: string): set<nat> {
    set i: nat | i < |bytes| && IsCrLfAt(bytes, i)
  }

  ghost function LoneLfAt(bytes: string): set<nat> {
    set i: nat | i < |bytes| && IsLoneLfAt(bytes, i)
  }

  lemma OneCharacterMore(bytes: string, front: string, n: nat)
    requires bytes != [] && n == |bytes| - 1 && front == bytes[..n]
    ensures CrLfAt(bytes) == CrLfAt(front) + (if IsCrLfAt(bytes, n) then {n} else {})
    ensures LoneLfAt(bytes) == LoneLfAt(front) + (if IsLoneLfAt(bytes, n) then {n} else {})
  {
    forall i: nat | i < n
      ensures IsCrLfAt(bytes, i) == IsCrLfAt(front, i) && IsLoneLfAt(bytes, i) == IsLoneLfAt(front, i)
    {
      assert front[i] == bytes[i] && (i > 0 ==> front[i - 1] == bytes[i - 1]);
    }
  }

  lemma {:induction false} EolsCounted(bytes: string)
    ensures |CrLfAt(bytes)| == CrLfs(bytes) && |CrLfAt(bytes)| + |LoneLfAt(bytes)| == Newlines(bytes)
  {
    if bytes == [] {
      assert CrLfAt(bytes) == {} && LoneLfAt(bytes) == {};
    } else {
      var n := |bytes| - 1;
      EolsCounted(bytes[..n]);
      OneCharacterMore(bytes, bytes[..n], n);
      assert EndsInCrLf(bytes) == IsCrLfAt(bytes, n);
    }
  }

  /** The first newline of the text is the second half of a CRLF. */
  ghost predicate FirstIsCrLf(bytes: string) {
    exists i: nat :: i < |bytes| && i in CrLfAt(bytes) && '\n' !in bytes[..i]
  }

  /** CRLF is used exactly if it ends more lines than a lone newline does, or as many and the first. */
  lemma EolExactly(bytes: string)
    ensures Eol(bytes) in {LF, CRLF}
    ensures Eol(bytes) == CRLF
       <==> || |CrLfAt(bytes)| > |LoneLfAt(bytes)|
            || (|CrLfAt(bytes)| == |LoneLfAt(bytes)| && FirstIsCrLf(bytes))
  {
    var n := CommentMarker.NewlineAt(bytes);
    EolsCounted(bytes);
    assert |LF| != |CRLF|;
    assert StartsCrLf(bytes) ==> IsCrLfAt(bytes, n);
    if FirstIsCrLf(bytes) {
      var i: nat :| i < |bytes| && i in CrLfAt(bytes) && '\n' !in bytes[..i];
      FirstNewline(bytes, i);
    }
  }

  lemma {:induction false} FirstNewline(bytes: string, n: nat)
    requires n <= |bytes| && '\n' !in bytes[..n] && (n < |bytes| ==> bytes[n] == '\n')
    ensures CommentMarker.NewlineAt(bytes) == n
  {
    if n > 0 {
      assert bytes[..n] == [bytes[0]] + bytes[1..][..n - 1];
      FirstNewline(bytes[1..], n - 1);
    }
  }

  method PredominantEol(bytes: string) returns (eol: string)
    ensures eol == Eol(bytes)
  {
    var crlf, lf := 0, 0;
    var first: Option<bool> := None;
    for i := 0 to |bytes|
      invariant crlf == CrLfs(bytes[..i]) && crlf + lf == Newlines(bytes[..i])
      invariant first == None ==> '\n' !in bytes[..i]
      invariant first.Some? ==> first.value == StartsCrLf(bytes)
    {
      assert bytes[..i + 1][..i] == bytes[..i];
      if bytes[i] != '\n' {
        continue;
      }
      var isCrLf := i > 0 && bytes[i - 1] == '\r';
      if first.None? {
        FirstNewline(bytes, i);
        first := Some(isCrLf);
      }
      if isCrLf {
        crlf := crlf + 1;
      } else {
        lf := lf + 1;
      }
    }
    assert bytes[..|bytes|] == bytes;
    if first.None? {
      FirstNewline(bytes, |bytes|);
    }
    return if crlf > lf || (crlf == lf && first == Some(true)) then CRLF else LF;
  }

  /** Complete line terminators removed from the end. */
  function TrimBreaks(bytes: string): (body: string)
    ensures body <= bytes && (body == [] || body[|body| - 1] != '\n')
  {
    if bytes == [] || bytes[|bytes| - 1] != '\n' then bytes
    else TrimBreaks(WithoutCr(bytes[..|bytes| - 1]))
  }

  function Trailer(id: nat): string {
    "Refs #" + Decimal(id)
  }

  function Trailers(ids: seq<nat>, eol: string): string {
    if ids == [] then [] else Trailer(ids[0]) + eol + Trailers(ids[1..], eol)
  }

  /** `Message::insert_many`. */
  function Inserted(bytes: string, marker: string, ids: seq<nat>): string {
    if ids == [] then bytes
    else
      var end, eol := End(bytes, marker), Eol(bytes);
      TrimBreaks(bytes[..end]) + eol + eol + Trailers(ids, eol) + bytes[end..]
  }

  method BodyEnd(bytes: string, start: nat) returns (end: nat)
    requires start <= |bytes|
    ensures end <= start && bytes[..end] == TrimBreaks(bytes[..start])
  {
    end := start;
    while end > 0 && bytes[end - 1] == '\n'
      invariant end <= start && TrimBreaks(bytes[..end]) == TrimBreaks(bytes[..start])
    {
      assert bytes[..end][..end - 1] == bytes[..end - 1];
      end := end - 1;
      if end > 0 && bytes[end - 1] == '\r' {
        assert bytes[..end][..end - 1] == bytes[..end - 1];
        end := end - 1;
      }
    }
  }

  method AppendTrailers(head: string, ids: seq<nat>, eol: string) returns (result: string)
    ensures result == head + Trailers(ids, eol)
  {
    result := head;
    assert ids[0..] == ids;
    for i := 0 to |ids|
      invariant head + Trailers(ids, eol) == result + Trailers(ids[i..], eol)
    {
      assert ids[i..][0] == ids[i] && ids[i..][1..] == ids[i + 1..];
      var line := Trailer(ids[i]) + eol;
      assert result + (line + Trailers(ids[i + 1..], eol)) == result + line + Trailers(ids[i + 1..], eol);
      result := result + line;
    }
    assert result + [] == result;
  }

  method InsertMany(bytes: string, marker: string, ids: seq<nat>) returns (result: string)
    ensures result == Inserted(bytes, marker, ids)
  {
    if ids == [] {
      return bytes;
    }
    var eol := PredominantEol(bytes);
    var start := FindCut(bytes, ScissorsLine(marker));
    var end := BodyEnd(bytes, start);
    result := AppendTrailers(bytes[..end] + eol + eol, ids, eol);
    result := result + bytes[start..];
  }
}
