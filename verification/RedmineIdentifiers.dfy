/** Redmine project identifiers built from OWNER/REPOSITORY (src/remote.rs). */
module RedmineIdentifiers {
  import opened Text
  import opened Names
  import opened Decimals

  const MAX_IDENTIFIER: nat := 100

  datatype RepositoryError = NotOwnerRepository

  predicate IsSeparator(c: char) {
    c == '-' || c == '_'
  }

  predicate IsLowerLetter(c: char) {
    'a' <= c <= 'z'
  }

  predicate IsAlphanumeric(c: char) {
    IsLowerLetter(LowerChar(c)) || IsDigit(c)
  }

  // --- One component. ---

  /** Letters in lower case, and one separator for each stretch of other characters. */
  function Squeezed(component: string, previousSeparator: bool): string {
    if component == [] then []
    else if IsAlphanumeric(component[0]) then [LowerChar(component[0])] + Squeezed(component[1..], false)
    else if previousSeparator then Squeezed(component[1..], true)
    else [if component[0] == '_' then '_' else '-'] + Squeezed(component[1..], true)
  }

  function WithoutTail(s: string): string {
    if s != [] && IsSeparator(s[|s| - 1]) then WithoutTail(s[..|s| - 1]) else s
  }

  function WithoutHead(s: string): string {
    if s != [] && IsSeparator(s[0]) then WithoutHead(s[1..]) else s
  }

  function Normalized(component: string): string {
    WithoutHead(WithoutTail(Squeezed(component, false)))
  }

  lemma SqueezeStep(pushed: string, component: string, i: nat, previousSeparator: bool)
    requires i < |component|
    ensures var c, rest := component[i], component[i + 1..];
            pushed + Squeezed(component[i..], previousSeparator) ==
            if IsAlphanumeric(c) then pushed + [LowerChar(c)] + Squeezed(rest, false)
            else if previousSeparator then pushed + Squeezed(rest, true)
            else pushed + [if c == '_' then '_' else '-'] + Squeezed(rest, true)
  {
    assert component[i..][0] == component[i] && component[i..][1..] == component[i + 1..];
  }

  /** The loop that pushes lower-case letters, digits and single separators. */
  method Squeeze(component: string) returns (normalized: string)
    ensures normalized == Squeezed(component, false)
  {
    normalized := [];
    var previousSeparator := false;
    assert component[0..] == component;
    for i := 0 to |component|
      invariant normalized + Squeezed(component[i..], previousSeparator) == Squeezed(component, false)
    {
      SqueezeStep(normalized, component, i, previousSeparator);
      var character := component[i];
      if IsAlphanumeric(character) {
        normalized := normalized + [LowerChar(character)];
        previousSeparator := false;
      } else if !previousSeparator {
        normalized := normalized + [if character == '_' then '_' else '-'];
        previousSeparator := true;
      }
    }
    assert normalized + [] == normalized;
  }

  method NormalizeComponent(component: string) returns (normalized: string)
    ensures normalized == Normalized(component)
  {
    normalized := Squeeze(component);
    while normalized != [] && IsSeparator(normalized[|normalized| - 1])
      invariant WithoutHead(WithoutTail(normalized)) == Normalized(component)
    {
      normalized := normalized[..|normalized| - 1];
    }
    while normalized != [] && IsSeparator(normalized[0])
      invariant WithoutHead(normalized) == Normalized(component)
    {
      normalized := normalized[1..];
    }
  }

  // --- The whole identifier. ---

  predicate IsComponent(part: string) {
    part != [] && part != "." && part != ".."
  }

  /** `validate_repository`. */
  function ValidateRepository(value: string): Result<string, RepositoryError> {
    var parts := Split(value, '/');
    if |parts| != 2 || !IsComponent(parts[0]) || !IsComponent(parts[1]) then Err(NotOwnerRepository)
    else Ok(value)
  }

  function OrElse(value: string, default: string): string {
    if value == [] then default else value
  }

  /** The identifier before it is cut to length. */
  function Untruncated(owner: string, repository: string): string {
    var joined := OrElse(Normalized(owner), "owner") + "-" + OrElse(Normalized(repository), "repository");
    if joined != [] && IsLowerLetter(joined[0]) then joined else "wf-" + joined
  }

  function Truncated(identifier: string): string {
    if |identifier| > MAX_IDENTIFIER then WithoutTail(identifier[..MAX_IDENTIFIER]) else identifier
  }

  function Identifier(repository: string): Result<string, RepositoryError> {
    match ValidateRepository(repository)
    case Err(e) => Err(e)
    case Ok(value) =>
      var parts := Split(value, '/');
      Ok(Truncated(Untruncated(parts[0], parts[1])))
  }

  method RedmineIdentifier(repository: string) returns (result: Result<string, RepositoryError>)
    ensures result == Identifier(repository)
  {
    var valid := ValidateRepository(repository);
    if valid.Err? {
      return Err(valid.error);
    }
    var parts := Split(repository, '/');
    var owner := NormalizeComponent(parts[0]);
    var name := NormalizeComponent(parts[1]);
    var identifier := OrElse(owner, "owner") + "-" + OrElse(name, "repository");
    if !IsLowerLetter(identifier[0]) {
      identifier := "wf-" + identifier;
    }
    if |identifier| > MAX_IDENTIFIER {
      ghost var whole := identifier;
      identifier := identifier[..MAX_IDENTIFIER];
      while identifier != [] && IsSeparator(identifier[|identifier| - 1])
        invariant WithoutTail(identifier) == Truncated(whole)
      {
        identifier := identifier[..|identifier| - 1];
      }
    }
    return Ok(identifier);
  }

  // --- Shape. ---

  predicate InAlphabet(c: char) {
    IsLowerLetter(c) || IsDigit(c) || IsSeparator(c)
  }

  /** The alphabet of an identifier, with no two separators side by side. */
  ghost predicate Spaced(s: string) {
    && (forall i :: 0 <= i < |s| ==> InAlphabet(s[i]))
    && (forall i :: 0 <= i < |s| - 1 ==> !(IsSeparator(s[i]) && IsSeparator(s[i + 1])))
  }

  ghost predicate Bounded(s: string) {
    s != [] ==> !IsSeparator(s[0]) && !IsSeparator(s[|s| - 1])
  }

  lemma {:induction false} SqueezedIsSpaced(component: string, previousSeparator: bool)
    ensures var s := Squeezed(component, previousSeparator);
            Spaced(s) && (previousSeparator && s != [] ==> !IsSeparator(s[0]))
  {
    if component != [] {
      SqueezedIsSpaced(component[1..], false);
      SqueezedIsSpaced(component[1..], true);
    }
  }

  lemma {:induction false} WithoutTailShape(s: string)
    ensures var t := WithoutTail(s);
            && t <= s
            && (t != [] ==> !IsSeparator(t[|t| - 1]))
            && (Spaced(s) ==> Spaced(t) && |s| - |t| <= 1)
            && (s == [] || !IsSeparator(s[|s| - 1]) ==> t == s)
  {
    if s != [] && IsSeparator(s[|s| - 1]) {
      var shorter := s[..|s| - 1];
      WithoutTailShape(shorter);
      if Spaced(s) {
        assert Spaced(shorter);
        if shorter != [] {
          assert s[|s| - 2] == shorter[|shorter| - 1];
        }
      }
    }
  }

  lemma {:induction false} WithoutHeadShape(s: string)
    ensures var t := WithoutHead(s);
            && |t| <= |s| && t == s[|s| - |t|..]
            && (t != [] ==> !IsSeparator(t[0]))
            && (Spaced(s) ==> Spaced(t))
            && (s == [] || !IsSeparator(s[0]) ==> t == s)
  {
    if s != [] && IsSeparator(s[0]) {
      WithoutHeadShape(s[1..]);
      if Spaced(s) {
        assert Spaced(s[1..]);
      }
    }
  }

  lemma NormalizedShape(component: string)
    ensures Spaced(Normalized(component)) && Bounded(Normalized(component))
  {
    var s := Squeezed(component, false);
    SqueezedIsSpaced(component, false);
    WithoutTailShape(s);
    WithoutHeadShape(WithoutTail(s));
  }

  lemma {:induction false} SqueezedFixed(s: string, previousSeparator: bool)
    requires Spaced(s) && (previousSeparator && s != [] ==> !IsSeparator(s[0]))
    ensures Squeezed(s, previousSeparator) == s
  {
    if s != [] {
      var rest := s[1..];
      assert Spaced(rest);
      assert InAlphabet(s[0]);
      SqueezedFixed(rest, IsSeparator(s[0]));
      assert [s[0]] + rest == s;
    }
  }

  /** The normaliser leaves a text alone exactly when it already has the shape it produces. */
  lemma FixedExactly(s: string)
    ensures Normalized(s) == s <==> Spaced(s) && Bounded(s)
  {
    NormalizedShape(s);
    if Spaced(s) && Bounded(s) {
      SqueezedFixed(s, false);
      WithoutTailShape(s);
      WithoutHeadShape(s);
    }
  }

  lemma Hyphenated(a: string, b: string)
    requires Spaced(a) && Bounded(a) && a != [] && Spaced(b) && Bounded(b) && b != []
    ensures Spaced(a + "-" + b) && Bounded(a + "-" + b)
  {
    var s := a + "-" + b;
    forall i | 0 <= i < |s| ensures InAlphabet(s[i]) {
      assert s[i] == if i < |a| then a[i] else if i == |a| then '-' else b[i - |a| - 1];
    }
    forall i | 0 <= i < |s| - 1 ensures !(IsSeparator(s[i]) && IsSeparator(s[i + 1])) {
      if i < |a| - 1 {
        assert s[i] == a[i] && s[i + 1] == a[i + 1];
      } else if i == |a| - 1 {
        assert s[i] == a[|a| - 1];
      } else if i == |a| {
        assert s[i + 1] == b[0];
      } else {
        assert s[i] == b[i - |a| - 1] && s[i + 1] == b[i - |a|];
      }
    }
    assert s[0] == a[0] && s[|s| - 1] == b[|b| - 1];
  }

  lemma PlainWord(word: string)
    requires word != [] && forall i :: 0 <= i < |word| ==> IsLowerLetter(word[i])
    ensures Spaced(word) && Bounded(word)
  {}

  lemma UntruncatedShape(owner: string, repository: string)
    ensures var s := Untruncated(owner, repository);
            Spaced(s) && Bounded(s) && s != [] && IsLowerLetter(s[0])
  {
    NormalizedShape(owner);
    NormalizedShape(repository);
    PlainWord("owner");
    PlainWord("repository");
    PlainWord("wf");
    var a, b := OrElse(Normalized(owner), "owner"), OrElse(Normalized(repository), "repository");
    Hyphenated(a, b);
    var joined := a + "-" + b;
    Hyphenated("wf", joined);
    assert "wf" + "-" + joined == "wf-" + joined;
  }

  lemma TruncatedShape(s: string)
    requires Spaced(s) && Bounded(s) && s != [] && IsLowerLetter(s[0])
    ensures var t := Truncated(s);
            && Spaced(t) && Bounded(t) && t != [] && IsLowerLetter(t[0]) && t <= s
            && |t| == if |s| <= MAX_IDENTIFIER then |s|
                      else if IsSeparator(s[MAX_IDENTIFIER - 1]) then MAX_IDENTIFIER - 1
                      else MAX_IDENTIFIER
  {
    if |s| > MAX_IDENTIFIER {
      var cut := s[..MAX_IDENTIFIER];
      assert Spaced(cut);
      WithoutTailShape(cut);
      if IsSeparator(cut[MAX_IDENTIFIER - 1]) {
        var shorter := cut[..MAX_IDENTIFIER - 1];
        assert s[MAX_IDENTIFIER - 2] == shorter[|shorter| - 1];
        assert WithoutTail(cut) == shorter;
      }
    }
  }

  /**
   * Every OWNER/REPOSITORY gets an identifier: 1 to 100 characters of the
   * alphabet, starting with a letter, ending in no separator, without two
   * separators side by side, a fixed point of the normaliser, and at most one
   * character short of the limit if it had to be cut.
   */
  lemma IdentifierShape(repository: string)
    ensures Identifier(repository).Ok? <==> ValidateRepository(repository).Ok?
    ensures Identifier(repository).Ok? ==>
              var id, parts := Identifier(repository).value, Split(repository, '/');
              && 1 <= |id| <= 100
              && IsLowerLetter(id[0]) && !IsSeparator(id[|id| - 1]) && Spaced(id)
              && Normalized(id) == id
              && id <= Untruncated(parts[0], parts[1])
              && (id != Untruncated(parts[0], parts[1]) ==> |id| in {99, 100})
  {
    if ValidateRepository(repository).Ok? {
      var parts := Split(repository, '/');
      var whole := Untruncated(parts[0], parts[1]);
      UntruncatedShape(parts[0], parts[1]);
      TruncatedShape(whole);
      FixedExactly(Truncated(whole));
    }
  }

  // --- What an identifier keeps. ---

  predicate AllAlphanumeric(s: string) {
    forall i :: 0 <= i < |s| ==> IsAlphanumeric(s[i])
  }

  predicate NoneAlphanumeric(s: string) {
    forall i :: 0 <= i < |s| ==> !IsAlphanumeric(s[i])
  }

  lemma {:induction false} WordSqueezed(word: string, rest: string, previousSeparator: bool)
    requires word != [] && AllAlphanumeric(word)
    ensures Squeezed(word + rest, previousSeparator) == Lower(word) + Squeezed(rest, false)
  {
    var later := word[1..];
    assert (word + rest)[0] == word[0] && (word + rest)[1..] == later + rest;
    assert Lower(word) == [LowerChar(word[0])] + Lower(later);
    if later == [] {
      assert later + rest == rest;
    } else {
      WordSqueezed(later, rest, false);
    }
  }

  lemma {:induction false} GapSqueezed(gap: string, rest: string, previousSeparator: bool)
    requires gap != [] && NoneAlphanumeric(gap)
    ensures Squeezed(gap + rest, previousSeparator)
         == (if previousSeparator then [] else [if gap[0] == '_' then '_' else '-']) + Squeezed(rest, true)
  {
    var later := gap[1..];
    assert (gap + rest)[0] == gap[0] && (gap + rest)[1..] == later + rest;
    if later == [] {
      assert later + rest == rest;
    } else {
      GapSqueezed(later, rest, true);
    }
  }

  /** What a stretch of other characters becomes. */
  function GapMark(gap: string): string {
    if gap == [] then [] else [if gap[0] == '_' then '_' else '-']
  }

  lemma LastWord(b: string, tail: string, previousSeparator: bool)
    requires b != [] && AllAlphanumeric(b) && NoneAlphanumeric(tail)
    ensures Squeezed(b + tail, previousSeparator) == Lower(b) + GapMark(tail)
  {
    WordSqueezed(b, tail, previousSeparator);
    if tail != [] {
      assert tail + [] == tail;
      GapSqueezed(tail, [], false);
    }
  }

  lemma WordAndGap(a: string, gap: string, rest: string, previousSeparator: bool)
    requires a != [] && AllAlphanumeric(a) && gap != [] && NoneAlphanumeric(gap)
    ensures Squeezed(a + (gap + rest), previousSeparator) == Lower(a) + (GapMark(gap) + Squeezed(rest, true))
  {
    WordSqueezed(a, gap + rest, previousSeparator);
    GapSqueezed(gap, rest, false);
  }

  lemma FirstGap(head: string, rest: string)
    requires NoneAlphanumeric(head)
    ensures Squeezed(head + rest, false) == GapMark(head) + Squeezed(rest, head != [])
  {
    if head == [] {
      assert head + rest == rest;
    } else {
      GapSqueezed(head, rest, false);
    }
  }

  /**
   * Words are kept in lower case, and a stretch of other characters between two
   * words becomes one separator: an underscore if it starts with one, else a
   * hyphen. Such stretches at either end are dropped.
   */
  lemma TwoWords(head: string, a: string, gap: string, b: string, tail: string)
    requires NoneAlphanumeric(head) && NoneAlphanumeric(gap) && NoneAlphanumeric(tail) && gap != []
    requires a != [] && b != [] && AllAlphanumeric(a) && AllAlphanumeric(b)
    ensures Normalized(head + (a + (gap + (b + tail))))
         == Lower(a) + ([if gap[0] == '_' then '_' else '-'] + Lower(b))
  {
    var middle := Lower(a) + (GapMark(gap) + Lower(b));
    FirstGap(head, a + (gap + (b + tail)));
    WordAndGap(a, gap, b + tail, head != []);
    LastWord(b, tail, true);
    assert GapMark(head) + (Lower(a) + (GapMark(gap) + (Lower(b) + GapMark(tail))))
        == GapMark(head) + middle + GapMark(tail);
    LowerIsWord(a);
    LowerIsWord(b);
    MiddleEnds(Lower(a), GapMark(gap), Lower(b));
    StripEnds(GapMark(head), middle, GapMark(tail));
  }

  lemma MiddleEnds(a: string, gap: string, b: string)
    requires a != [] && b != []
    ensures var middle := a + (gap + b);
            middle[0] == a[0] && middle[|middle| - 1] == b[|b| - 1]
  {}

  lemma LowerIsWord(word: string)
    requires word != [] && AllAlphanumeric(word)
    ensures !IsSeparator(Lower(word)[0]) && !IsSeparator(Lower(word)[|word| - 1])
  {}

  lemma StripTail(t: string, back: string)
    requires |back| <= 1 && t != [] && !IsSeparator(t[|t| - 1]) && (back != [] ==> IsSeparator(back[0]))
    ensures WithoutTail(t + back) == t
  {
    var s := t + back;
    if back == [] {
      assert s == t;
    } else {
      assert s[|s| - 1] == back[0] && s[..|s| - 1] == t;
    }
  }

  lemma StripHead(front: string, t: string)
    requires |front| <= 1 && t != [] && !IsSeparator(t[0]) && (front != [] ==> IsSeparator(front[0]))
    ensures WithoutHead(front + t) == t
  {
    var s := front + t;
    if front == [] {
      assert s == t;
    } else {
      assert s[0] == front[0] && s[1..] == t;
    }
  }

  lemma StripEnds(front: string, middle: string, back: string)
    requires |front| <= 1 && |back| <= 1 && middle != []
    requires !IsSeparator(middle[0]) && !IsSeparator(middle[|middle| - 1])
    requires (front != [] ==> IsSeparator(front[0])) && (back != [] ==> IsSeparator(back[0]))
    ensures WithoutHead(WithoutTail(front + middle + back)) == middle
  {
    assert (front + middle)[|front| + |middle| - 1] == middle[|middle| - 1];
    StripTail(front + middle, back);
    StripHead(front, middle);
  }

  /** What stands in for a component the normaliser leaves nothing of. */
  ghost predicate IsPart(component: string, default: string, part: string) {
    part == if Normalized(component) == [] then default else Normalized(component)
  }

  lemma UntruncatedOf(owner: string, repository: string, a: string, b: string)
    requires IsPart(owner, "owner", a) && IsPart(repository, "repository", b)
    ensures a != [] && Untruncated(owner, repository) == (if 'a' <= a[0] <= 'z' then "" else "wf-") + (a + "-" + b)
  {
    var joined := a + "-" + b;
    assert joined[0] == a[0] && "" + joined == joined;
  }

  lemma TwoParts(owner: string, repository: string)
    requires '/' !in owner && '/' !in repository
    ensures Split(owner + "/" + repository, '/') == [owner, repository]
  {
    SplitHead(owner, repository, '/');
    SplitHead(repository, [], '/');
  }

  /**
   * The identifier is the owner's part, a hyphen and the repository's part, with
   * "wf-" in front exactly when the owner's part starts with no letter, and it
   * is cut only if that is longer than 100 characters.
   */
  lemma IdentifierOf(owner: string, repository: string, a: string, b: string)
    requires '/' !in owner && '/' !in repository && IsComponent(owner) && IsComponent(repository)
    requires IsPart(owner, "owner", a) && IsPart(repository, "repository", b)
    ensures a != []
    ensures var whole := (if 'a' <= a[0] <= 'z' then "" else "wf-") + (a + "-" + b);
            var id := Identifier(owner + "/" + repository);
            && id.Ok? && id.value <= whole && (|whole| <= 100 ==> id.value == whole)
  {
    ValidExactly(owner, repository);
    TwoParts(owner, repository);
    UntruncatedOf(owner, repository, a, b);
    UntruncatedShape(owner, repository);
    TruncatedShape(Untruncated(owner, repository));
  }

  lemma OnlySlash(a: string, b: string, at: nat)
    requires '/' !in a && '/' !in b && at <= |a| + |b| && (a + "/" + b)[at] == '/'
    ensures at == |a|
  {
    var value := a + "/" + b;
    assert forall i :: 0 <= i < |a| ==> value[i] == a[i] != '/';
    assert forall i :: |a| < i < |value| ==> value[i] == b[i - |a| - 1];
  }

  /** Two ways to put a text around a slash agree, if one of them leaves no other slash. */
  lemma SlashesMeet(owner: string, repository: string, a: string, b: string)
    requires owner + "/" + repository == a + "/" + b && '/' !in a && '/' !in b
    ensures owner == a && repository == b
  {
    var value := owner + "/" + repository;
    assert value[|owner|] == '/';
    OnlySlash(a, b, |owner|);
    assert owner == value[..|a|] && repository == value[|a| + 1..];
  }

  /** A valid repository is two components around one slash. */
  lemma ValidExactly(owner: string, repository: string)
    ensures ValidateRepository(owner + "/" + repository).Ok?
       <==> && '/' !in owner && owner !in {"", ".", ".."}
            && '/' !in repository && repository !in {"", ".", ".."}
  {
    var value := owner + "/" + repository;
    SplitIsFree(value, '/');
    JoinOfSplit(value, '/');
    var parts := Split(value, '/');
    if '/' !in owner {
      SplitHead(owner, repository, '/');
      if '/' !in repository {
        SplitHead(repository, [], '/');
      } else if |parts| == 2 {
        assert parts[1..] == Split(repository, '/');
        JoinOfSplit(repository, '/');
      }
    } else if |parts| == 2 {
      assert parts[1..] == [parts[1]];
      SlashesMeet(owner, repository, parts[0], parts[1]);
    }
  }
}
