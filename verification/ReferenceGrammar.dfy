/** What a reference is, as a grammar over lines, and that the scan finds exactly those (src/hooks/message.rs). */
module ReferenceGrammar {
  import opened Text
  import opened Names
  import opened Decimals
  import opened Orders
  import CommentMarker
  import opened CommitMessage
  import opened MessageLines
  import opened CommitTrailers

  predicate AllBlanks(s: string) {
    forall i :: 0 <= i < |s| ==> s[i] == ' ' || s[i] == '\t'
  }

  /** Between keyword and hash: a colon and any blanks, or at least one blank. */
  predicate IsSeparator(sep: string) {
    sep != [] && if sep[0] == ':' then AllBlanks(sep[1..]) else AllBlanks(sep)
  }

  predicate IsKeyword(word: string) {
    Lower(word) in {"refs", "references", "ref", "fixes", "closes", "closed"}
  }

  predicate IsNumber(digits: string, id: nat) {
    digits != [] && AllDigits(digits) && ValueOf(digits) == id && 0 < id <= U64_MAX
  }

  /** `line` is `pre + word + sep + "#" + digits + post`, and no word character touches the reference. */
  ghost predicate Spells(line: string, pre: string, word: string, sep: string, digits: string, post: string, id: nat) {
    && line == pre + word + sep + "#" + digits + post
    && IsKeyword(word) && IsSeparator(sep) && IsNumber(digits, id)
    && (pre == [] || !IsWord(pre[|pre| - 1])) && (post == [] || !IsWord(post[0]))
  }

  ghost predicate Refers(line: string, id: nat) {
    exists pre, word, sep, digits, post :: Spells(line, pre, word, sep, digits, post, id)
  }

  // --- The same by positions. ---

  ghost predicate SpellsAt(line: string, at: nat, c: nat, hash: nat, end: nat, id: nat) {
    && at <= c <= hash < end <= |line|
    && (at == 0 || !IsWord(line[at - 1])) && IsKeyword(line[at..c])
    && IsSeparator(line[c..hash]) && line[hash] == '#'
    && IsNumber(line[hash + 1..end], id) && (end == |line| || !IsWord(line[end]))
  }

  lemma PartsOf(line: string, pre: string, word: string, sep: string, digits: string, post: string)
    requires line == pre + word + sep + "#" + digits + post
    ensures var at, c, hash := |pre|, |pre| + |word|, |pre| + |word| + |sep|;
            var end := hash + 1 + |digits|;
            && end <= |line| && line[..at] == pre && line[at..c] == word && line[c..hash] == sep
            && line[hash] == '#' && line[hash + 1..end] == digits && line[end..] == post
  {}

  lemma PlacesOf(
    line: string, pre: string, word: string, sep: string, digits: string, post: string,
    at: nat, c: nat, hash: nat, end: nat, id: nat)
    requires at <= c <= hash < end <= |line| && line[..at] == pre && line[at..c] == word && line[c..hash] == sep
    requires line[hash] == '#' && line[hash + 1..end] == digits && line[end..] == post
    requires IsKeyword(word) && IsSeparator(sep) && IsNumber(digits, id)
    requires (pre == [] || !IsWord(pre[|pre| - 1])) && (post == [] || !IsWord(post[0]))
    ensures SpellsAt(line, at, c, hash, end, id)
  {
    assert at > 0 ==> line[at - 1] == pre[at - 1];
    assert end < |line| ==> line[end] == post[0];
  }

  lemma SpelledPlaces(line: string, pre: string, word: string, sep: string, digits: string, post: string, id: nat)
    returns (at: nat, c: nat, hash: nat, end: nat)
    requires Spells(line, pre, word, sep, digits, post, id)
    ensures SpellsAt(line, at, c, hash, end, id)
  {
    at, c, hash := |pre|, |pre| + |word|, |pre| + |word| + |sep|;
    end := hash + 1 + |digits|;
    PartsOf(line, pre, word, sep, digits, post);
    PlacesOf(line, pre, word, sep, digits, post, at, c, hash, end, id);
  }

  lemma PlacesSpell(line: string, at: nat, c: nat, hash: nat, end: nat, id: nat)
    requires SpellsAt(line, at, c, hash, end, id)
    ensures Refers(line, id)
  {
    assert Spells(line, line[..at], line[at..c], line[c..hash], line[hash + 1..end], line[end..], id) by {
      assert line == line[..at] + line[at..c] + line[c..hash] + "#" + line[hash + 1..end] + line[end..];
    }
  }

  lemma ReferencePlaces(line: string, id: nat) returns (at: nat, c: nat, hash: nat, end: nat)
    requires Refers(line, id)
    ensures SpellsAt(line, at, c, hash, end, id)
  {
    var pre, word, sep, digits, post :| Spells(line, pre, word, sep, digits, post, id);
    at, c, hash, end := SpelledPlaces(line, pre, word, sep, digits, post, id);
  }

  // --- The parts of one match. ---

  lemma {:induction false} BlanksExactly(line: string, from: nat, to: nat)
    requires from <= to <= |line|
    ensures SkipBlanks(line, from) == to
       <==> AllBlanks(line[from..to]) && (to == |line| || line[to] !in {' ', '\t'})
    decreases |line| - from
  {
    if from < |line| && line[from] in {' ', '\t'} {
      if from < to {
        assert line[from..to] == [line[from]] + line[from + 1..to];
        BlanksExactly(line, from + 1, to);
      }
    } else if from < to {
      assert line[from..to][0] == line[from];
    }
  }

  lemma HashExactly(line: string, c: nat, hash: nat)
    requires c <= hash < |line|
    ensures HashAfter(line, c) == Some(hash) <==> line[hash] == '#' && IsSeparator(line[c..hash])
  {
    if line[c] == ':' {
      if c < hash {
        assert line[c..hash][0] == ':' && line[c..hash][1..] == line[c + 1..hash];
        BlanksExactly(line, c + 1, hash);
      }
    } else {
      BlanksExactly(line, c, hash);
      assert c < hash ==> line[c..hash][0] == line[c];
    }
  }

  lemma HashIsBehind(line: string, c: nat)
    requires c <= |line| && HashAfter(line, c).Some?
    ensures c < HashAfter(line, c).value < |line|
  {}

  lemma {:induction false} DigitsExactly(line: string, start: nat, end: nat)
    requires start <= end <= |line|
    ensures SkipDigits(line, start) == end
       <==> AllDigits(line[start..end]) && (end == |line| || !IsDigit(line[end]))
    decreases |line| - start
  {
    if start < |line| && IsDigit(line[start]) {
      if start < end {
        assert line[start..end] == [line[start]] + line[start + 1..end];
        DigitsExactly(line, start + 1, end);
      }
    } else if start < end {
      assert line[start..end][0] == line[start];
    }
  }

  lemma NumberExactly(line: string, start: nat, end: nat, id: nat)
    requires start <= end <= |line| && SkipDigits(line, start) == end
    ensures NumberAt(line, start) == Some(id)
       <==> IsNumber(line[start..end], id) && (end == |line| || !IsWord(line[end]))
  {}

  /** A keyword matches at a position exactly when a reference with it is spelled there. */
  lemma MatchSpells(line: string, at: nat, keyword: string, id: nat) returns (hash: nat, end: nat)
    requires at < |line| && IsKeyword(keyword) && Lower(keyword) == keyword && MatchAt(line, at, keyword) == Some(id)
    ensures at + |keyword| <= |line| && SpellsAt(line, at, at + |keyword|, hash, end, id)
  {
    var c := at + |keyword|;
    HashIsBehind(line, c);
    hash := HashAfter(line, c).value;
    HashExactly(line, c, hash);
    end := SkipDigits(line, hash + 1);
    NumberExactly(line, hash + 1, end, id);
  }

  lemma SpelledNumber(line: string, c: nat, hash: nat, end: nat, id: nat)
    requires c <= hash < end <= |line| && IsSeparator(line[c..hash]) && line[hash] == '#'
    requires IsNumber(line[hash + 1..end], id) && (end == |line| || !IsWord(line[end]))
    ensures NumberAfter(line, c) == Some(id)
  {
    HashExactly(line, c, hash);
    DigitsExactly(line, hash + 1, end);
    NumberExactly(line, hash + 1, end, id);
  }

  lemma SpelledMatches(line: string, at: nat, c: nat, hash: nat, end: nat, id: nat)
    requires SpellsAt(line, at, c, hash, end, id)
    ensures at < |line| && MatchAt(line, at, Lower(line[at..c])) == Some(id)
  {
    SpelledNumber(line, c, hash, end, id);
    assert |Lower(line[at..c])| == c - at;
  }

  // --- All of a line. ---

  lemma KeywordsAreKeywords(k: nat)
    requires k < |KEYWORDS|
    ensures IsKeyword(KEYWORDS[k]) && Lower(KEYWORDS[k]) == KEYWORDS[k]
  {
    var word := KEYWORDS[k];
    assert word in {"refs", "references", "ref", "fixes", "closes", "closed"};
    assert forall i :: 0 <= i < |word| ==> 'a' <= word[i] <= 'z';
    assert Lower(word) == word;
  }

  lemma KeywordIndex(word: string) returns (k: nat)
    requires IsKeyword(word)
    ensures k < |KEYWORDS| && KEYWORDS[k] == Lower(word)
  {
    assert KEYWORDS[0] == "refs" && KEYWORDS[1] == "references" && KEYWORDS[2] == "ref";
    assert KEYWORDS[3] == "fixes" && KEYWORDS[4] == "closes" && KEYWORDS[5] == "closed";
    k :| k < |KEYWORDS| && KEYWORDS[k] == Lower(word);
  }

  /** The ids found are spelled in the line, and in the order in which they are found. */
  ghost predicate Placed(line: string, from: nat, ids: seq<nat>, places: seq<nat>) {
    && |places| == |ids|
    && (forall i :: 0 <= i < |ids| ==> from <= places[i] && SpelledFrom(line, places[i], ids[i]))
    && (forall i, j :: 0 <= i < j < |ids| ==> places[i] <= places[j])
  }

  ghost predicate SpelledFrom(line: string, at: nat, id: nat) {
    exists c, hash, end :: SpellsAt(line, at, c, hash, end, id)
  }

  lemma MatchIsSpelled(line: string, at: nat, k: nat, id: nat)
    requires at < |line| && k < |KEYWORDS| && MatchAt(line, at, KEYWORDS[k]) == Some(id)
    ensures SpelledFrom(line, at, id)
  {
    KeywordsAreKeywords(k);
    var hash, end := MatchSpells(line, at, KEYWORDS[k], id);
  }

  lemma {:induction false} FoundAtIsSpelled(line: string, at: nat, k: nat, id: nat)
    requires at < |line| && k <= |KEYWORDS| && id in FoundAt(line, at, k)
    ensures SpelledFrom(line, at, id)
    decreases |KEYWORDS| - k
  {
    if MatchAt(line, at, KEYWORDS[k]) == Some(id) {
      MatchIsSpelled(line, at, k, id);
    } else {
      FoundAtIsSpelled(line, at, k + 1, id);
    }
  }

  lemma PlacedOneEarlier(line: string, from: nat, here: seq<nat>, later: seq<nat>, places: seq<nat>)
    requires forall id :: id in here ==> SpelledFrom(line, from, id)
    requires Placed(line, from + 1, later, places)
    ensures Placed(line, from, here + later, seq(|here|, i => from) + places)
  {
    var all, ids := seq(|here|, i => from) + places, here + later;
    forall i | 0 <= i < |ids| ensures from <= all[i] && SpelledFrom(line, all[i], ids[i]) {
      if i < |here| {
        assert ids[i] in here;
      } else {
        assert ids[i] == later[i - |here|] && all[i] == places[i - |here|];
      }
    }
  }

  lemma {:induction false} FoundInOrder(line: string, from: nat) returns (places: seq<nat>)
    requires from <= |line|
    ensures Placed(line, from, FoundFrom(line, from), places)
    decreases |line| - from
  {
    if from == |line| {
      places := [];
    } else {
      var here := FoundAt(line, from, 0);
      forall id | id in here ensures SpelledFrom(line, from, id) {
        FoundAtIsSpelled(line, from, 0, id);
      }
      var later := FoundInOrder(line, from + 1);
      PlacedOneEarlier(line, from, here, FoundFrom(line, from + 1), later);
      places := seq(|here|, i => from) + later;
    }
  }

  lemma {:induction false} SpelledIsFoundAt(line: string, at: nat, k: nat, m: nat, id: nat)
    requires at < |line| && k <= m < |KEYWORDS| && MatchAt(line, at, KEYWORDS[m]) == Some(id)
    ensures id in FoundAt(line, at, k)
    decreases m - k
  {
    if k < m {
      SpelledIsFoundAt(line, at, k + 1, m, id);
    }
  }

  lemma {:induction false} SpelledIsFound(line: string, from: nat, at: nat, id: nat)
    requires from <= at < |line| && id in FoundAt(line, at, 0)
    ensures id in FoundFrom(line, from)
    decreases at - from
  {
    if from < at {
      SpelledIsFound(line, from + 1, at, id);
    }
  }

  lemma SpelledIsReferred(line: string, at: nat, id: nat)
    requires SpelledFrom(line, at, id)
    ensures Refers(line, id)
  {
    var c, hash, end :| SpellsAt(line, at, c, hash, end, id);
    PlacesSpell(line, at, c, hash, end, id);
  }

  lemma SpelledPlaceIsFound(line: string, at: nat, c: nat, hash: nat, end: nat, id: nat)
    requires SpellsAt(line, at, c, hash, end, id)
    ensures id in FoundFrom(line, 0)
  {
    SpelledMatches(line, at, c, hash, end, id);
    var m := KeywordIndex(line[at..c]);
    SpelledIsFoundAt(line, at, 0, m, id);
    SpelledIsFound(line, 0, at, id);
  }

  /** The scan of a line finds exactly the ids it refers to. */
  lemma LineFindsExactly(line: string, id: nat)
    ensures id in FoundFrom(line, 0) <==> Refers(line, id)
  {
    if id in FoundFrom(line, 0) {
      var places := FoundInOrder(line, 0);
      var i :| 0 <= i < |places| && FoundFrom(line, 0)[i] == id;
      SpelledIsReferred(line, places[i], id);
    } else if Refers(line, id) {
      var at, c, hash, end := ReferencePlaces(line, id);
      SpelledPlaceIsFound(line, at, c, hash, end, id);
    }
  }

  // --- All of a message. ---

  ghost predicate SomeRefers(lines: seq<string>, id: nat) {
    exists i :: 0 <= i < |lines| && Refers(lines[i], id)
  }

  lemma SomeRefersCons(first: string, later: seq<string>, lines: seq<string>, id: nat)
    requires lines == [first] + later
    ensures SomeRefers(lines, id) <==> Refers(first, id) || SomeRefers(later, id)
  {
    if SomeRefers(later, id) {
      var i :| 0 <= i < |later| && Refers(later[i], id);
      assert lines[i + 1] == later[i];
    }
    if SomeRefers(lines, id) {
      var i :| 0 <= i < |lines| && Refers(lines[i], id);
      assert i > 0 ==> later[i - 1] == lines[i];
    }
    assert lines[0] == first;
  }

  lemma {:induction false} FoundMeans(lines: seq<string>, id: nat)
    ensures id in Found(lines) <==> SomeRefers(lines, id)
  {
    if lines != [] {
      var first, later := lines[0], lines[1..];
      LineFindsExactly(first, id);
      FoundMeans(later, id);
      SomeRefersCons(first, later, lines, id);
      assert Found(lines) == FoundFrom(first, 0) + Found(later);
    }
  }

  lemma {:induction false} NonCommentsMean(lines: seq<string>, marker: string, line: string)
    ensures line in NonComments(lines, marker) <==> line in lines && !(marker <= line)
  {
    if lines != [] {
      NonCommentsMean(lines[1..], marker, line);
      assert lines == [lines[0]] + lines[1..];
    }
  }

  /** The message has this line above its scissors, and it is no comment. */
  ghost predicate HasLine(bytes: string, marker: string, line: string) {
    line in Before(Contents(bytes), ScissorsLine(marker)) && !(marker <= line)
  }

  /** The references of a message are exactly the ids its authored lines refer to, each once. */
  lemma ReferencesExactly(bytes: string, marker: string)
    ensures forall id :: id in References(bytes, marker)
                    <==> exists line :: HasLine(bytes, marker, line) && Refers(line, id)
    ensures Distinct(References(bytes, marker))
  {
    var lines := Authored(bytes, marker);
    MergeMeans([], Found(lines));
    forall id ensures id in References(bytes, marker)
                 <==> exists line :: HasLine(bytes, marker, line) && Refers(line, id) {
      FoundMeans(lines, id);
      ContentsAboveCut(bytes, ScissorsLine(marker));
      if i :| 0 <= i < |lines| && Refers(lines[i], id) {
        NonCommentsMean(Before(Contents(bytes), ScissorsLine(marker)), marker, lines[i]);
        assert HasLine(bytes, marker, lines[i]);
      }
      if line :| HasLine(bytes, marker, line) && Refers(line, id) {
        NonCommentsMean(Before(Contents(bytes), ScissorsLine(marker)), marker, line);
        var i :| 0 <= i < |lines| && lines[i] == line;
      }
    }
  }

  lemma {:induction false} MergeMeans(ids: seq<nat>, found: seq<nat>)
    requires Distinct(ids)
    ensures Distinct(Merge(ids, found))
    ensures forall id :: id in Merge(ids, found) <==> id in ids || id in found
    decreases |found|
  {
    if found != [] {
      assert found == [found[0]] + found[1..];
      MergeMeans(if found[0] in ids then ids else ids + [found[0]], found[1..]);
    }
  }

  // --- What commit-msg accepts. ---

  ghost predicate IsAsciiBlanks(s: string) {
    forall i :: 0 <= i < |s| ==> s[i] in {' ', '\t', '\n', '\r', '\U{0C}'}
  }

  /** The line is the generated trailer of `id`, with nothing but blanks around it. */
  ghost predicate IsTrailerLine(line: string, id: nat) {
    exists pre, post :: IsAsciiBlanks(pre) && IsAsciiBlanks(post) && line == pre + Trailer(id) + post
  }

  lemma {:induction false} TrimStartOf(pre: string, core: string)
    requires IsAsciiBlanks(pre) && core != [] && !IsAsciiBlank(core[0])
    ensures AsciiTrimStart(pre + core) == core
  {
    if pre == [] {
      assert pre + core == core;
    } else {
      assert (pre + core)[0] == pre[0] && (pre + core)[1..] == pre[1..] + core;
      TrimStartOf(pre[1..], core);
    }
  }

  lemma {:induction false} TrimEndOf(core: string, post: string)
    requires IsAsciiBlanks(post) && core != [] && !IsAsciiBlank(core[|core| - 1])
    ensures AsciiTrimEnd(core + post) == core
    decreases |post|
  {
    if post == [] {
      assert core + post == core;
    } else {
      var s, n := core + post, |post| - 1;
      assert s[|s| - 1] == post[n] && s[..|s| - 1] == core + post[..n];
      TrimEndOf(core, post[..n]);
    }
  }

  lemma TrailerLineExactly(line: string, id: nat)
    ensures AsciiTrim(line) == Trailer(id) <==> IsTrailerLine(line, id)
  {
    var t := Trailer(id);
    TrailerEnds(id);
    if AsciiTrim(line) == t {
      var pre := AsciiTrimStartParts(line);
      var post := AsciiTrimEndParts(AsciiTrimStart(line));
      assert line == pre + t + post;
      assert IsAsciiBlanks(pre) && IsAsciiBlanks(post);
    }
    if IsTrailerLine(line, id) {
      var pre, post :| IsAsciiBlanks(pre) && IsAsciiBlanks(post) && line == pre + t + post;
      TrimOf(pre, t, post);
    }
  }

  lemma TrailerEnds(id: nat)
    ensures var t := Trailer(id);
            t != [] && !IsAsciiBlank(t[0]) && !IsAsciiBlank(t[|t| - 1])
  {
    var t := Trailer(id);
    TrailerShape(id);
    assert t[|t| - 1] == Decimal(id)[|Decimal(id)| - 1];
  }

  lemma TrimOf(pre: string, core: string, post: string)
    requires IsAsciiBlanks(pre) && IsAsciiBlanks(post)
    requires core != [] && !IsAsciiBlank(core[0]) && !IsAsciiBlank(core[|core| - 1])
    ensures AsciiTrim(pre + core + post) == core
  {
    assert pre + core + post == pre + (core + post) && (core + post)[0] == core[0];
    TrimStartOf(pre, core + post);
    TrimEndOf(core, post);
  }

  lemma {:induction false} CountedOnce(lines: seq<string>, id: nat)
    ensures GeneratedCount(lines, id) > 0 <==> exists i :: 0 <= i < |lines| && IsTrailerLine(lines[i], id)
  {
    if lines != [] {
      var later := lines[1..];
      TrailerLineExactly(lines[0], id);
      CountedOnce(later, id);
      if i :| 0 <= i < |lines| && IsTrailerLine(lines[i], id) && i > 0 {
        assert later[i - 1] == lines[i];
      }
      if i :| 0 <= i < |later| && IsTrailerLine(later[i], id) {
        assert lines[i + 1] == later[i];
      }
    }
  }

  /** No two authored lines are both the trailer of `id`. */
  ghost predicate NoTrailerTwice(lines: seq<string>, id: nat) {
    forall i, j :: 0 <= i < j < |lines| ==> !(IsTrailerLine(lines[i], id) && IsTrailerLine(lines[j], id))
  }

  lemma {:induction false} CountedTwice(lines: seq<string>, id: nat)
    ensures GeneratedCount(lines, id) <= 1 <==> NoTrailerTwice(lines, id)
  {
    if lines != [] {
      var later := lines[1..];
      TrailerLineExactly(lines[0], id);
      CountedOnce(later, id);
      CountedTwice(later, id);
      if NoTrailerTwice(lines, id) {
        forall i, j | 0 <= i < j < |later|
          ensures !(IsTrailerLine(later[i], id) && IsTrailerLine(later[j], id))
        {
          assert later[i] == lines[i + 1] && later[j] == lines[j + 1];
        }
        forall i | 0 <= i < |later| && IsTrailerLine(lines[0], id) ensures !IsTrailerLine(later[i], id) {
          assert later[i] == lines[i + 1];
        }
      } else {
        var i, j :| 0 <= i < j < |lines| && IsTrailerLine(lines[i], id) && IsTrailerLine(lines[j], id);
        assert later[j - 1] == lines[j] && (i > 0 ==> later[i - 1] == lines[i]);
      }
    }
  }

  /**
   * `commit-msg` accepts a message exactly when its authored lines refer to
   * bound issues only and no generated trailer stands in it twice.
   */
  lemma AcceptsExactly(bytes: string, marker: string, ids: seq<nat>)
    ensures Accepts(bytes, marker, ids)
       <==> && (forall line, id :: HasLine(bytes, marker, line) && Refers(line, id) ==> id in ids)
            && (forall id :: id in ids ==> NoTrailerTwice(Authored(bytes, marker), id))
  {
    ReferencesExactly(bytes, marker);
    forall id ensures GeneratedCount(Authored(bytes, marker), id) <= 1
                 <==> NoTrailerTwice(Authored(bytes, marker), id) {
      CountedTwice(Authored(bytes, marker), id);
    }
  }

  // --- When prepare-commit-msg changes a message. ---

  lemma InsertionChanges(bytes: string, marker: string, ids: seq<nat>)
    requires ids != []
    ensures Inserted(bytes, marker, ids) != bytes
  {
    var from, to := InsertionReplacesLineEnds(bytes, marker, ids);
    var eol := Eol(bytes);
    var block := eol + eol + Trailers(ids, eol);
    var out := bytes[..from] + block + bytes[to..];
    var k := 2 * |eol|;
    assert block[k] == Trailers(ids, eol)[0] == Trailer(ids[0])[0] == 'R';
    assert out[from + k] == block[k];
  }

  /** No authored line refers to any issue. */
  ghost predicate RefersToNothing(bytes: string, marker: string) {
    forall line, id :: HasLine(bytes, marker, line) ==> !Refers(line, id)
  }

  lemma NoReferencesExactly(bytes: string, marker: string)
    ensures References(bytes, marker) == [] <==> RefersToNothing(bytes, marker)
  {
    var found := References(bytes, marker);
    ReferencesExactly(bytes, marker);
    if found != [] {
      assert found[0] in found;
    } else {
      forall line, id | HasLine(bytes, marker, line) ensures !Refers(line, id) {
        assert Refers(line, id) ==> id in found;
      }
    }
  }

  /**
   * `prepare-commit-msg` changes a message exactly if it is not Git's own, the
   * branch is bound, the marker can be read and no authored line refers to an
   * issue; then it inserts the trailers of all bound issues.
   */
  lemma PreparesExactly(
    ids: seq<nat>, generated: bool, marker: Result<string, CommentMarker.MarkerError>, bytes: string)
    requires ids != []
    ensures var out := Prepared(Some(ids), generated, marker, bytes);
            && (out.Ok? && out.value != bytes <==>
                  !generated && marker.Ok? && RefersToNothing(bytes, marker.value))
            && (out.Ok? && out.value != bytes ==> out.value == Inserted(bytes, marker.value, ids))
            && (out.Err? <==> !generated && marker.Err?) && (out.Err? ==> out == marker)
    ensures Prepared(None, generated, marker, bytes) == Ok(bytes)
  {
    if !generated && marker.Ok? {
      NoReferencesExactly(bytes, marker.value);
      InsertionChanges(bytes, marker.value, ids);
    }
  }
}
