/** What the reference scan finds in a trailer line, and that a trailing carriage return does not matter to it. */
module ReferenceScan {
  import opened Text
  import opened Names
  import opened Decimals
  import opened CommitMessage
  import opened MessageLines

  // --- What the scan finds. ---

  lemma KeywordShape(k: nat)
    requires k < |KEYWORDS|
    ensures 3 <= |KEYWORDS[k]| <= 10 && '\r' !in KEYWORDS[k] && KEYWORDS[k][0] in {'r', 'f', 'c'}
  {
    assert KEYWORDS[k] in {"refs", "references", "ref", "fixes", "closes", "closed"};
  }

  lemma {:induction false} BlanksBeforeCr(line: string, from: nat)
    requires from <= |line|
    ensures SkipBlanks(line + "\r", from) == SkipBlanks(line, from)
    decreases |line| - from
  {
    if from < |line| {
      assert (line + "\r")[from] == line[from];
      BlanksBeforeCr(line, from + 1);
    }
  }

  lemma {:induction false} DigitsBeforeCr(line: string, from: nat)
    requires from <= |line|
    ensures SkipDigits(line + "\r", from) == SkipDigits(line, from)
    decreases |line| - from
  {
    if from < |line| {
      assert (line + "\r")[from] == line[from];
      DigitsBeforeCr(line, from + 1);
    }
  }

  lemma KeywordBeforeCr(line: string, at: nat, end: nat, keyword: string)
    requires at < end <= |line| + 1 && '\r' !in keyword
    ensures Lower((line + "\r")[at..end]) == keyword <==> end <= |line| && Lower(line[at..end]) == keyword
  {
    if end <= |line| {
      assert (line + "\r")[at..end] == line[at..end];
    } else {
      var word := Lower((line + "\r")[at..end]);
      assert word[|word| - 1] == '\r';
    }
  }

  lemma HashBeforeCr(line: string, c: nat)
    requires c <= |line|
    ensures HashAfter(line + "\r", c) == HashAfter(line, c)
  {
    var longer := line + "\r";
    var blanks := if c < |line| && line[c] == ':' then c + 1 else c;
    BlanksBeforeCr(line, blanks);
    assert forall i :: 0 <= i < |line| ==> longer[i] == line[i];
    assert longer[|line|] == '\r';
  }

  lemma NumberAtBeforeCr(line: string, start: nat)
    requires start <= |line|
    ensures NumberAt(line + "\r", start) == NumberAt(line, start)
  {
    var longer, end := line + "\r", SkipDigits(line, start);
    DigitsBeforeCr(line, start);
    assert longer[start..end] == line[start..end];
    assert longer[end] == if end < |line| then line[end] else '\r';
  }

  lemma NumberBeforeCr(line: string, c: nat)
    requires c <= |line|
    ensures NumberAfter(line + "\r", c) == NumberAfter(line, c)
  {
    HashBeforeCr(line, c);
    if HashAfter(line, c).Some? {
      NumberAtBeforeCr(line, HashAfter(line, c).value + 1);
    }
  }

  /** A trailing carriage return changes no match. */
  lemma MatchBeforeCr(line: string, at: nat, keyword: string)
    requires at < |line| && '\r' !in keyword && keyword != []
    ensures MatchAt(line + "\r", at, keyword) == MatchAt(line, at, keyword)
  {
    var c := at + |keyword|;
    assert at > 0 ==> (line + "\r")[at - 1] == line[at - 1];
    if c <= |line| {
      KeywordBeforeCr(line, at, c, keyword);
      NumberBeforeCr(line, c);
    } else if c == |line| + 1 {
      KeywordBeforeCr(line, at, c, keyword);
    }
  }

  lemma {:induction false} FoundAtBeforeCr(line: string, at: nat, k: nat)
    requires at < |line| && k <= |KEYWORDS|
    ensures FoundAt(line + "\r", at, k) == FoundAt(line, at, k)
    decreases |KEYWORDS| - k
  {
    if k < |KEYWORDS| {
      KeywordShape(k);
      MatchBeforeCr(line, at, KEYWORDS[k]);
      FoundAtBeforeCr(line, at, k + 1);
    }
  }

  lemma {:induction false} NothingAtEnd(line: string, at: nat, k: nat)
    requires at < |line| < at + 3 && k <= |KEYWORDS|
    ensures FoundAt(line, at, k) == []
    decreases |KEYWORDS| - k
  {
    if k < |KEYWORDS| {
      KeywordShape(k);
      NothingAtEnd(line, at, k + 1);
    }
  }

  lemma {:induction false} FoundBeforeCr(line: string, at: nat)
    requires at <= |line|
    ensures FoundFrom(line + "\r", at) == FoundFrom(line, at)
    decreases |line| - at
  {
    if at < |line| {
      FoundAtBeforeCr(line, at, 0);
      FoundBeforeCr(line, at + 1);
    } else {
      NothingAtEnd(line + "\r", at, 0);
      assert FoundFrom(line + "\r", at + 1) == [];
    }
  }

  lemma FoundWithoutCr(line: string)
    ensures FoundFrom(WithoutCr(line), 0) == FoundFrom(line, 0)
  {
    if line != [] && line[|line| - 1] == '\r' {
      assert line == WithoutCr(line) + "\r";
      FoundBeforeCr(WithoutCr(line), 0);
    }
  }

  lemma {:induction false} DigitsRead(line: string, from: nat, end: nat)
    requires from <= end <= |line| && AllDigits(line[from..end]) && (end < |line| ==> !IsDigit(line[end]))
    ensures SkipDigits(line, from) == end
    decreases end - from
  {
    if from < end {
      assert line[from] == line[from..end][0];
      assert line[from..end] == [line[from]] + line[from + 1..end];
      assert line[from + 1..end] == line[from..end][1..];
      DigitsRead(line, from + 1, end);
    }
  }

  predicate IsU64(id: nat) {
    0 < id <= U64_MAX
  }

  lemma TrailerStands(line: string, pre: string, id: nat, post: string)
    requires IsU64(id) && line == pre + Trailer(id) + post
    ensures var at, digits := |pre|, Decimal(id);
            && at + 6 + |digits| <= |line| && line[at..at + 4] == "Refs"
            && line[at + 4] == ' ' && line[at + 5] == '#' && line[at + 6..at + 6 + |digits|] == digits
            && line[..at] == pre && line[at + 6 + |digits|..] == post
  {
    assert Trailer(id)[6..] == Decimal(id);
    var at := |pre|;
    assert line[at..at + |Trailer(id)|] == Trailer(id);
    assert line[at..at + 4] == Trailer(id)[..4] == "Refs";
  }

  lemma NumberStands(line: string, at: nat, id: nat, end: nat)
    requires IsU64(id) && at + 2 < end <= |line| && line[at] == ' ' && line[at + 1] == '#'
    requires line[at + 2..end] == Decimal(id) && (end < |line| ==> !IsWord(line[end]))
    ensures NumberAfter(line, at) == Some(id)
  {
    assert SkipBlanks(line, at + 1) == at + 1;
    assert SkipBlanks(line, at) == at + 1;
    DigitsRead(line, at + 2, end);
    ValueOfDecimal(id);
  }

  /** A trailer is a reference wherever no word character touches it. */
  lemma TrailerMatches(pre: string, id: nat, post: string)
    requires IsU64(id)
    requires pre == [] || !IsWord(pre[|pre| - 1])
    requires post == [] || !IsWord(post[0])
    ensures MatchAt(pre + Trailer(id) + post, |pre|, "refs") == Some(id)
  {
    var line, at := pre + Trailer(id) + post, |pre|;
    var end := at + 6 + |Decimal(id)|;
    TrailerStands(line, pre, id, post);
    assert Lower("Refs") == "refs";
    assert at > 0 ==> line[at - 1] == pre[at - 1];
    assert end < |line| ==> line[end] == post[0];
    NumberStands(line, at + 4, id, end);
  }

  lemma {:induction false} FoundContains(line: string, from: nat, at: nat, id: nat)
    requires from <= at < |line| && MatchAt(line, at, "refs") == Some(id)
    ensures id in FoundFrom(line, from)
    decreases at - from
  {
    if from < at {
      FoundContains(line, from + 1, at, id);
    } else {
      assert KEYWORDS[0] == "refs";
      assert id in ListOf(MatchAt(line, at, KEYWORDS[0]));
    }
  }

  /** No keyword starts inside a word or at a character that begins none. */
  lemma {:induction false} NoKeywordHere(line: string, at: nat, k: nat)
    requires at < |line| && k <= |KEYWORDS|
    requires (at > 0 && IsWord(line[at - 1])) || LowerChar(line[at]) !in {'r', 'f', 'c'}
    ensures FoundAt(line, at, k) == []
    decreases |KEYWORDS| - k
  {
    if k < |KEYWORDS| {
      KeywordShape(k);
      NoKeywordHere(line, at, k + 1);
      var c := at + |KEYWORDS[k]|;
      if c <= |line| && Lower(line[at..c]) == KEYWORDS[k] {
        assert Lower(line[at..c])[0] == LowerChar(line[at]);
      }
    }
  }

  lemma {:induction false} NothingAfter(line: string, from: nat)
    requires 0 < from <= |line|
    requires forall at :: from <= at < |line| ==> IsWord(line[at - 1]) || LowerChar(line[at]) !in {'r', 'f', 'c'}
    ensures FoundFrom(line, from) == []
    decreases |line| - from
  {
    if from < |line| {
      NoKeywordHere(line, from, 0);
      NothingAfter(line, from + 1);
    }
  }

  /** At its start a trailer matches "refs" only: "ref" is followed by a letter, the others differ. */
  lemma OnlyRefsMatches(line: string, k: nat)
    requires |line| > 6 && line[..6] == "Refs #" && 0 < k < |KEYWORDS|
    ensures MatchAt(line, 0, KEYWORDS[k]) == None
  {
    var keyword := KEYWORDS[k];
    KeywordShape(k);
    var c := |keyword|;
    assert line[0] == 'R' && line[1] == 'e' && line[2] == 'f' && line[3] == 's' && line[4] == ' ';
    if c <= |line| {
      var word := Lower(line[0..c]);
      assert word[0] == 'r' && word[2] == 'f' && (c > 3 ==> word[3] == 's');
      assert keyword == "ref" ==> SkipBlanks(line, 3) == 3;
    }
  }

  /** Behind its first character a trailer starts no keyword. */
  lemma TrailerTail(id: nat)
    ensures FoundFrom(Trailer(id), 1) == []
  {
    var line := Trailer(id);
    var front := "Refs #";
    assert forall at :: 0 <= at < 6 ==> line[at] == front[at];
    assert front[0] == 'R' && front[1] == 'e' && front[2] == 'f' && front[3] == 's';
    assert front[4] == ' ' && front[5] == '#';
    forall at | 1 <= at < |line| ensures IsWord(line[at - 1]) || LowerChar(line[at]) !in {'r', 'f', 'c'} {
      if at >= 6 {
        assert line[at] == Decimal(id)[at - 6];
      }
    }
    NothingAfter(line, 1);
  }

  lemma TrailerFound(id: nat)
    requires IsU64(id)
    ensures FoundFrom(Trailer(id), 0) == [id]
  {
    var line := Trailer(id);
    TrailerShape(id);
    assert [] + line + [] == line;
    TrailerMatches([], id, []);
    assert line[..6] == "Refs #";
    OnlyRefsAtStart(line, 1);
    assert KEYWORDS[0] == "refs";
    assert FoundAt(line, 0, 0) == [id];
    TrailerTail(id);
  }

  lemma {:induction false} OnlyRefsAtStart(line: string, k: nat)
    requires |line| > 6 && line[..6] == "Refs #" && 0 < k <= |KEYWORDS|
    ensures FoundAt(line, 0, k) == []
    decreases |KEYWORDS| - k
  {
    if k < |KEYWORDS| {
      OnlyRefsMatches(line, k);
      OnlyRefsAtStart(line, k + 1);
    }
  }
}
