/** Lines of a commit message: splitting, cutting at the scissors, and appending a trailer block. */
module MessageLines {
  import opened Decimals
  import opened CommitMessage
  import CommentMarker

  // --- Lines of a longer text. ---

  predicate IsClosed(bytes: string) {
    bytes == [] || bytes[|bytes| - 1] == '\n'
  }

  lemma SameFirstLine(a: string, b: string)
    requires a != [] && '\n' in a
    ensures LineLength(a + b) == LineLength(a) && (a + b)[..LineLength(a)] == a[..LineLength(a)]
  {
    var n := CommentMarker.NewlineAt(a);
    assert a[..|a|] == a;
    assert (a + b)[..n] == a[..n];
    FirstNewline(a + b, n);
  }

  lemma SameLineFirst(whole: string, a: string, n: nat, rest: string, later: string, more: seq<string>)
    requires whole != [] && a != [] && LineLength(whole) == n == LineLength(a) && whole[..n] == a[..n]
    requires rest == whole[n..] && later == a[n..] && Contents(rest) == Contents(later) + more
    ensures Contents(whole) == Contents(a) + more
  {}

  lemma {:induction false} ContentsOfWhole(whole: string, a: string, b: string)
    requires whole == a + b && IsClosed(a)
    ensures Contents(whole) == Contents(a) + Contents(b)
    decreases |a|
  {
    if a == [] {
      assert whole == b;
    } else {
      assert a[|a| - 1] in a;
      SameFirstLine(a, b);
      var n := LineLength(a);
      var later, rest := a[n..], whole[n..];
      assert rest == later + b;
      ContentsOfWhole(rest, later, b);
      SameLineFirst(whole, a, n, rest, later, Contents(b));
    }
  }

  lemma ContentsAppend(a: string, b: string)
    requires IsClosed(a)
    ensures Contents(a + b) == Contents(a) + Contents(b)
  {
    ContentsOfWhole(a + b, a, b);
  }

  lemma OneLineLength(line: string)
    requires line != [] && '\n' !in line[..|line| - 1]
    ensures LineLength(line) == |line|
  {
    if line[|line| - 1] == '\n' {
      FirstNewline(line, |line| - 1);
    } else {
      assert line == line[..|line| - 1] + [line[|line| - 1]];
      assert line[..|line|] == line;
      FirstNewline(line, |line|);
    }
  }

  lemma OneLine(line: string)
    requires line != [] && '\n' !in line[..|line| - 1]
    ensures Contents(line) == [Content(line)]
  {
    OneLineLength(line);
    assert line[..|line|] == line && line[|line|..] == [];
    assert Contents([]) == [];
  }

  lemma ClosedContent(last: string, eol: string)
    requires eol in {LF, CRLF}
    ensures Content(last + eol) == if eol == LF then WithoutCr(last) else last
    ensures (last + eol)[..|last + eol| - 1] == if eol == LF then last else last + "\r"
  {
    var line := last + eol;
    if eol == LF {
      assert line[..|line| - 1] == last;
    } else {
      assert line[..|line| - 1] == last + "\r";
      assert WithoutCr(last + "\r") == last;
    }
  }

  /** A line closed with `eol`, read back. */
  lemma ClosedLine(last: string, eol: string)
    requires '\n' !in last && eol in {LF, CRLF}
    ensures Contents(last + eol) == [if eol == LF then WithoutCr(last) else last]
    ensures IsClosed(last + eol)
  {
    ClosedContent(last, eol);
    OneLine(last + eol);
  }

  /** The text after the last newline. */
  function LastLine(bytes: string): (last: string)
    ensures |last| <= |bytes|
  {
    if bytes == [] || bytes[|bytes| - 1] == '\n' then []
    else LastLine(bytes[..|bytes| - 1]) + [bytes[|bytes| - 1]]
  }

  /** The text up to and including the last newline. */
  function Head(bytes: string): string {
    bytes[..|bytes| - |LastLine(bytes)|]
  }

  lemma LastLineStep(front: string, c: char)
    requires c != '\n'
    ensures LastLine(front + [c]) == LastLine(front) + [c] && Head(front + [c]) == Head(front)
  {
    assert (front + [c])[..|front|] == front;
  }

  /** `last` holds no newline, and is all that follows the closed `head`. */
  ghost predicate SplitsOff(bytes: string, head: string, last: string) {
    bytes == head + last && '\n' !in last && IsClosed(head)
  }

  lemma SplitsOffStep(front: string, head: string, last: string, c: char)
    requires SplitsOff(front, head, last) && c != '\n'
    ensures SplitsOff(front + [c], head, last + [c])
  {}

  lemma {:induction false} LastLineSplits(bytes: string)
    ensures SplitsOff(bytes, Head(bytes), LastLine(bytes))
  {
    if IsClosed(bytes) {
      assert Head(bytes) == bytes;
    } else {
      var front, c := bytes[..|bytes| - 1], bytes[|bytes| - 1];
      assert bytes == front + [c];
      LastLineSplits(front);
      LastLineStep(front, c);
      SplitsOffStep(front, Head(front), LastLine(front), c);
    }
  }

  lemma LastLineShape(bytes: string)
    ensures bytes == Head(bytes) + LastLine(bytes)
    ensures '\n' !in LastLine(bytes) && IsClosed(Head(bytes))
    ensures LastLine(bytes) == [] <==> IsClosed(bytes)
  {
    LastLineSplits(bytes);
  }

  /** An unclosed text: its closed part, and its last line. */
  lemma UnclosedContents(bytes: string)
    requires !IsClosed(bytes)
    ensures Contents(bytes) == Contents(Head(bytes)) + [LastLine(bytes)]
  {
    var last := LastLine(bytes);
    LastLineShape(bytes);
    ContentsAppend(Head(bytes), last);
    assert '\n' !in last[..|last| - 1] && last[|last| - 1] in last;
    OneLine(last);
  }

  /** Closing a text with `eol` closes its last line. */
  lemma ClosedContents(bytes: string, eol: string)
    requires eol in {LF, CRLF}
    ensures Contents(bytes + eol) ==
            Contents(Head(bytes)) + [if eol == LF then WithoutCr(LastLine(bytes)) else LastLine(bytes)]
    ensures IsClosed(bytes + eol)
  {
    var last := LastLine(bytes);
    LastLineShape(bytes);
    assert bytes + eol == Head(bytes) + (last + eol);
    ContentsAppend(Head(bytes), last + eol);
    ClosedLine(last, eol);
  }

  /**
   * How a text is read line by line: up to a newline, without one carriage
   * return before it; a last line without a newline as it stands.
   */
  lemma LineThenRest(line: string, rest: string)
    requires '\n' !in line
    ensures Contents(line + "\n" + rest)
         == [if line != [] && line[|line| - 1] == '\r' then line[..|line| - 1] else line] + Contents(rest)
    ensures Contents(line) == if line == [] then [] else [line]
  {
    ClosedLine(line, LF);
    ContentsAppend(line + "\n", rest);
    if line != [] {
      assert '\n' !in line[..|line| - 1] && line[|line| - 1] in line;
      OneLine(line);
    }
  }

  // --- The part above the scissors. ---

  /** The line that cuts a message, written out. */
  lemma ScissorsText(marker: string)
    ensures ScissorsLine(marker) == marker + (" " + "------------------------" + " >8 " + "------------------------")
  {
    var dashes := "------------------------";
    assert |dashes| == 24 && forall i :: 0 <= i < |dashes| ==> dashes[i] == '-';
    assert Dashes(24) == dashes;
  }

  function Before(lines: seq<string>, cut: string): seq<string> {
    if lines == [] || lines[0] == cut then [] else [lines[0]] + Before(lines[1..], cut)
  }

  /** A text and its first line, which is closed unless it is the whole text. */
  lemma FirstLine(bytes: string)
    requires bytes != []
    ensures var n := LineLength(bytes);
            && '\n' !in bytes[..n][..n - 1]
            && Contents(bytes[..n]) == [Content(bytes[..n])]
            && (IsClosed(bytes[..n]) || n == |bytes|)
  {
    var n := LineLength(bytes);
    var m := CommentMarker.NewlineAt(bytes);
    assert '\n' !in bytes[..m];
    assert bytes[..n][..n - 1] <= bytes[..m];
    OneLine(bytes[..n]);
  }

  lemma BeforeCons(first: string, later: seq<string>, cut: string)
    ensures Before([first] + later, cut) == if first == cut then [] else [first] + Before(later, cut)
  {
    assert ([first] + later)[1..] == later;
  }

  lemma {:induction false} AboveCutIsClosed(bytes: string, cut: string)
    ensures IsClosed(bytes[..CutAt(bytes, cut)]) || CutAt(bytes, cut) == |bytes|
    decreases |bytes|
  {
    if bytes != [] {
      var n := LineLength(bytes);
      FirstLine(bytes);
      AboveCutIsClosed(bytes[n..], cut);
      LineAndAbove(bytes, n, CutAt(bytes[n..], cut));
    }
  }

  /** A text up to `end` characters below its first line. */
  lemma FirstLineAbove(bytes: string, n: nat, end: nat)
    requires bytes != [] && n == LineLength(bytes) && n + end <= |bytes|
    ensures Contents(bytes[..n + end]) == [Content(bytes[..n])] + Contents(bytes[n..][..end])
  {
    FirstLine(bytes);
    LineAndAbove(bytes, n, end);
  }

  /** The cut of a text whose first line is not the one that says so. */
  lemma CutFurther(bytes: string, cut: string, n: nat)
    requires bytes != [] && n == LineLength(bytes) && Content(bytes[..n]) != cut
    ensures n + CutAt(bytes[n..], cut) <= |bytes| && CutAt(bytes, cut) == n + CutAt(bytes[n..], cut)
    ensures Contents(bytes) == [Content(bytes[..n])] + Contents(bytes[n..])
  {}

  lemma AboveFirst(first: string, above: seq<string>, later: seq<string>, all: seq<string>, cut: string)
    requires first != cut && above == [first] + Before(later, cut) && all == [first] + later
    ensures above == Before(all, cut)
  {
    BeforeCons(first, later, cut);
  }

  lemma NothingAboveFirst(bytes: string, cut: string)
    requires bytes != [] && Content(bytes[..LineLength(bytes)]) == cut
    ensures Contents(bytes[..CutAt(bytes, cut)]) == Before(Contents(bytes), cut)
  {
    BeforeCons(cut, Contents(bytes[LineLength(bytes)..]), cut);
  }

  lemma {:induction false} LinesAboveCut(bytes: string, cut: string) returns (above: string, lines: seq<string>)
    ensures above == bytes[..CutAt(bytes, cut)] && lines == Before(Contents(bytes), cut) && Contents(above) == lines
    decreases |bytes|
  {
    if bytes == [] {
      above, lines := [], [];
    } else {
      var n := LineLength(bytes);
      if Content(bytes[..n]) == cut {
        NothingAboveFirst(bytes, cut);
        above, lines := [], [];
      } else {
        var later, line := bytes[n..], Content(bytes[..n]);
        CutFurther(bytes, cut, n);
        var end := CutAt(later, cut);
        above, lines := LinesAboveCut(later, cut);
        FirstLineAbove(bytes, n, end);
        AboveFirst(line, [line] + lines, Contents(later), Contents(bytes), cut);
        above, lines := bytes[..n + end], [line] + lines;
      }
    }
  }

  /** Above the scissors stand exactly the lines before the first one that says so. */
  lemma ContentsAboveCut(bytes: string, cut: string)
    ensures Contents(bytes[..CutAt(bytes, cut)]) == Before(Contents(bytes), cut)
  {
    var above, lines := LinesAboveCut(bytes, cut);
  }

  lemma LineAndAbove(bytes: string, n: nat, end: nat)
    requires 0 < n <= n + end <= |bytes|
    requires IsClosed(bytes[..n]) || n == |bytes|
    ensures Contents(bytes[..n + end]) == Contents(bytes[..n]) + Contents(bytes[n..][..end])
    ensures IsClosed(bytes[n..][..end]) && IsClosed(bytes[..n]) ==> IsClosed(bytes[..n + end])
  {
    var line, above := bytes[..n], bytes[n..][..end];
    assert bytes[..n + end] == line + above;
    if IsClosed(line) {
      ContentsAppend(line, above);
    } else {
      assert above == [] && line + above == line;
    }
  }

  lemma DropTwice(bytes: string, n: nat, m: nat)
    requires n + m <= |bytes|
    ensures bytes[n..][m..] == bytes[n + m..]
  {}

  /** What is left below the cut is nothing, or starts with the line that says so. */
  ghost predicate StartsCut(rest: string, cut: string) {
    rest == [] || Content(rest[..LineLength(rest)]) == cut
  }

  lemma {:induction false} CutStands(bytes: string, cut: string) returns (rest: string)
    ensures rest == bytes[CutAt(bytes, cut)..] && StartsCut(rest, cut)
    decreases |bytes|
  {
    if bytes == [] || Content(bytes[..LineLength(bytes)]) == cut {
      rest := bytes;
    } else {
      var n := LineLength(bytes);
      rest := CutStands(bytes[n..], cut);
      CutFurther(bytes, cut, n);
      DropTwice(bytes, n, CutAt(bytes[n..], cut));
    }
  }

  lemma SplitFirst(whole: seq<string>, a: seq<string>, b: seq<string>, more: seq<string>)
    requires whole == a + b && a != []
    ensures whole == [a[0]] + whole[1..] && a == [a[0]] + a[1..] && whole[1..] == a[1..] + b
    ensures [a[0]] + (a[1..] + more) == a + more
  {}

  lemma {:induction false} BeforeWhole(whole: seq<string>, a: seq<string>, b: seq<string>, cut: string)
    returns (lines: seq<string>)
    requires whole == a + b
    ensures lines == Before(whole, cut) && lines == if cut in a then Before(a, cut) else a + Before(b, cut)
    decreases |a|
  {
    if a == [] {
      assert whole == b;
      lines := Before(b, cut);
    } else {
      var first, later, rest := a[0], a[1..], whole[1..];
      SplitFirst(whole, a, b, Before(b, cut));
      var tail := BeforeWhole(rest, later, b, cut);
      BeforeCons(first, rest, cut);
      BeforeCons(first, later, cut);
      InFirstOrLater(a, cut);
      lines := if first == cut then [] else [first] + tail;
    }
  }

  lemma InFirstOrLater(lines: seq<string>, cut: string)
    requires lines != []
    ensures cut in lines <==> lines[0] == cut || cut in lines[1..]
  {
    assert lines == [lines[0]] + lines[1..];
  }

  lemma BeforeAppend(a: seq<string>, b: seq<string>, cut: string)
    ensures Before(a + b, cut) == if cut in a then Before(a, cut) else a + Before(b, cut)
  {
    var lines := BeforeWhole(a + b, a, b, cut);
  }

  lemma {:induction false} CutNotBefore(lines: seq<string>, cut: string)
    ensures cut !in Before(lines, cut)
  {
    if lines != [] && lines[0] != cut {
      CutNotBefore(lines[1..], cut);
    }
  }

  lemma {:induction false} NonCommentsAppend(a: seq<string>, b: seq<string>, marker: string)
    ensures NonComments(a + b, marker) == NonComments(a, marker) + NonComments(b, marker)
  {
    if a == [] {
      assert a + b == b;
    } else {
      assert (a + b)[1..] == a[1..] + b;
      NonCommentsAppend(a[1..], b, marker);
    }
  }

  lemma {:induction false} FoundAppend(a: seq<string>, b: seq<string>)
    ensures Found(a + b) == Found(a) + Found(b)
  {
    if a == [] {
      assert a + b == b;
    } else {
      assert (a + b)[1..] == a[1..] + b;
      FoundAppend(a[1..], b);
    }
  }

  // --- Blank lines at the end. ---

  ghost predicate AllBlank(lines: seq<string>) {
    forall i :: 0 <= i < |lines| ==> lines[i] == []
  }

  /** One line end adds a blank line or closes the last line, which still reads the same. */
  lemma OneBreak(body: string, eol: string)
    requires eol in {LF, CRLF} && (eol == LF ==> WithoutCr(body) == body)
    ensures Contents(body + eol) == Contents(body) + if IsClosed(body) then [[]] else []
  {
    ClosedContents(body, eol);
    LastLineShape(body);
    if IsClosed(body) {
      assert Head(body) == body;
    } else {
      UnclosedContents(body);
      LastCharacter(body);
    }
  }

  /** The last line end of a closed text. */
  lemma LastBreak(bytes: string) returns (body: string, eol: string)
    requires bytes != [] && IsClosed(bytes)
    ensures bytes == body + eol && eol in {LF, CRLF} && (eol == LF ==> WithoutCr(body) == body)
    ensures TrimBreaks(bytes) == TrimBreaks(body) && |body| < |bytes|
  {
    var front := bytes[..|bytes| - 1];
    body := WithoutCr(front);
    eol := if body == front then LF else CRLF;
  }

  ghost predicate TrimsTo(lines: seq<string>, body: seq<string>, blanks: seq<string>) {
    lines == body + blanks && AllBlank(blanks)
  }

  lemma TrimOneMore(lines: seq<string>, fewer: seq<string>, body: seq<string>, blanks: seq<string>, more: seq<string>)
    requires TrimsTo(fewer, body, blanks) && lines == fewer + more && AllBlank(more)
    ensures TrimsTo(lines, body, blanks + more)
  {}

  /** Trimming takes away blank lines only, and leaves the last line as it reads. */
  lemma {:induction false} TrimmedContents(bytes: string) returns (blanks: seq<string>)
    ensures TrimsTo(Contents(bytes), Contents(TrimBreaks(bytes)), blanks)
    decreases |bytes|
  {
    if bytes != [] && IsClosed(bytes) {
      var body, eol := LastBreak(bytes);
      OneBreak(body, eol);
      var fewer := TrimmedContents(body);
      var more: seq<string> := if IsClosed(body) then [[]] else [];
      TrimOneMore(Contents(bytes), Contents(body), Contents(TrimBreaks(bytes)), fewer, more);
      blanks := fewer + more;
    } else {
      blanks := [];
    }
  }

  lemma LastCharacter(bytes: string)
    requires !IsClosed(bytes)
    ensures LastLine(bytes) != [] && LastLine(bytes)[|LastLine(bytes)| - 1] == bytes[|bytes| - 1]
  {}

  // --- Trailers as lines. ---

  function TrailerLines(ids: seq<nat>): seq<string> {
    if ids == [] then [] else [Trailer(ids[0])] + TrailerLines(ids[1..])
  }

  lemma TrailerShape(id: nat)
    ensures var t := Trailer(id);
            |t| > 6 && t[0] == 'R' && IsDigit(t[|t| - 1]) && '\n' !in t
  {
    assert AllDigits(Decimal(id));
    assert Trailer(id)[|Trailer(id)| - 1] == Decimal(id)[|Decimal(id)| - 1];
    assert forall i :: 0 <= i < |Decimal(id)| ==> Decimal(id)[i] != '\n';
    assert '\n' !in "Refs #";
  }

  lemma {:induction false} TrailerContents(ids: seq<nat>, eol: string)
    requires eol in {LF, CRLF}
    ensures Contents(Trailers(ids, eol)) == TrailerLines(ids) && IsClosed(Trailers(ids, eol))
  {
    if ids != [] {
      var t := Trailer(ids[0]);
      TrailerShape(ids[0]);
      ClosedLine(t, eol);
      TrailerContents(ids[1..], eol);
      ContentsAppend(t + eol, Trailers(ids[1..], eol));
    }
  }

  // --- The message after an insertion. ---

  /** What stands above the scissors, without its trailing line ends. */
  function Body(bytes: string, marker: string): string {
    TrimBreaks(bytes[..End(bytes, marker)])
  }

  /** The lines of the body once the new line end closes the last one. */
  function Reclosed(bytes: string, marker: string): seq<string> {
    var last := LastLine(Body(bytes, marker));
    Contents(Head(Body(bytes, marker))) + [if Eol(bytes) == LF then WithoutCr(last) else last]
  }

  lemma InsertedContents(bytes: string, marker: string, ids: seq<nat>)
    requires ids != []
    ensures Contents(Inserted(bytes, marker, ids)) ==
            Reclosed(bytes, marker) + [[]] + TrailerLines(ids) + Contents(bytes[End(bytes, marker)..])
  {
    var eol, rest := Eol(bytes), bytes[End(bytes, marker)..];
    var first := Body(bytes, marker) + eol;
    ClosedContents(Body(bytes, marker), eol);
    ClosedLine([], eol);
    assert [] + eol == eol;
    ContentsAppend(first, eol);
    var second := first + eol;
    assert IsClosed(second);
    TrailerContents(ids, eol);
    ContentsAppend(second, Trailers(ids, eol));
    var third := second + Trailers(ids, eol);
    assert IsClosed(third);
    ContentsAppend(third, rest);
  }
}
