/** Character classes and trimming as Rust's `str` defines them. */
module Names {

  /** `char::is_whitespace`: the Unicode White_Space property. */
  predicate IsWhitespace(c: char) {
    || '\t' <= c <= '\r' || c == ' ' || c == '\U{85}' || c == '\U{A0}' || c == '\U{1680}'
    || '\U{2000}' <= c <= '\U{200A}' || c == '\U{2028}' || c == '\U{2029}' || c == '\U{202F}'
    || c == '\U{205F}' || c == '\U{3000}'
  }

  /** `char::is_control`: the general category Cc. */
  predicate IsControl(c: char) {
    c < ' ' || '\U{7F}' <= c <= '\U{9F}'
  }

  predicate HasControl(s: string) {
    exists i :: 0 <= i < |s| && IsControl(s[i])
  }

  function TrimStart(s: string): string {
    if s != [] && IsWhitespace(s[0]) then TrimStart(s[1..]) else s
  }

  function TrimEnd(s: string): string {
    if s != [] && IsWhitespace(s[|s| - 1]) then TrimEnd(s[..|s| - 1]) else s
  }

  function Trim(s: string): string {
    TrimEnd(TrimStart(s))
  }

  predicate IsTrimmed(s: string) {
    s == [] || (!IsWhitespace(s[0]) && !IsWhitespace(s[|s| - 1]))
  }

  lemma {:induction false} TrimEndShape(s: string)
    ensures var t := TrimEnd(s);
            t <= s && (t != [] ==> !IsWhitespace(t[|t| - 1]))
  {
    if s != [] && IsWhitespace(s[|s| - 1]) {
      TrimEndShape(s[..|s| - 1]);
    }
  }

  lemma {:induction false} TrimStartShape(s: string)
    ensures var t := TrimStart(s);
            |t| <= |s| && s[|s| - |t|..] == t && (t != [] ==> !IsWhitespace(t[0]))
  {
    if s != [] && IsWhitespace(s[0]) {
      TrimStartShape(s[1..]);
    }
  }

  lemma TrimIsTrimmed(s: string)
    ensures IsTrimmed(Trim(s))
  {
    TrimStartShape(s);
    TrimEndShape(TrimStart(s));
  }

  lemma TrimFixed(s: string)
    ensures IsTrimmed(s) <==> Trim(s) == s
  {
    TrimIsTrimmed(s);
  }

  predicate AllWhitespace(s: string) {
    forall i :: 0 <= i < |s| ==> IsWhitespace(s[i])
  }

  lemma {:induction false} TrimStartOfBlank(pre: string, s: string)
    requires AllWhitespace(pre) && (s == [] || !IsWhitespace(s[0]))
    ensures TrimStart(pre + s) == s
  {
    if pre == [] {
      assert pre + s == s;
    } else {
      assert (pre + s)[0] == pre[0] && (pre + s)[1..] == pre[1..] + s;
      TrimStartOfBlank(pre[1..], s);
    }
  }

  lemma {:induction false} TrimEndOfBlank(s: string, post: string)
    requires AllWhitespace(post) && (s == [] || !IsWhitespace(s[|s| - 1]))
    ensures TrimEnd(s + post) == s
    decreases |post|
  {
    if post == [] {
      assert s + post == s;
    } else {
      var n := |post| - 1;
      assert (s + post)[|s| + n] == post[n] && (s + post)[..|s| + n] == s + post[..n];
      TrimEndOfBlank(s, post[..n]);
    }
  }

  lemma {:induction false} TrimStartBlank(s: string)
    ensures |TrimStart(s)| <= |s| && AllWhitespace(s[..|s| - |TrimStart(s)|])
  {
    if s != [] && IsWhitespace(s[0]) {
      TrimStartBlank(s[1..]);
      TrimStartShape(s[1..]);
      var n := |s| - |TrimStart(s)|;
      assert s[..n] == [s[0]] + s[1..][..n - 1];
    }
  }

  lemma {:induction false} TrimEndBlank(s: string)
    ensures |TrimEnd(s)| <= |s| && AllWhitespace(s[|TrimEnd(s)|..])
    decreases |s|
  {
    if s != [] && IsWhitespace(s[|s| - 1]) {
      var n := |s| - 1;
      TrimEndBlank(s[..n]);
      var t := |TrimEnd(s)|;
      assert s[t..] == s[..n][t..] + [s[n]];
    }
  }

  /** Trimming takes away exactly the white space at both ends. */
  lemma TrimExactly(s: string, core: string)
    ensures Trim(s) == core
       <==> IsTrimmed(core) && exists pre, post :: AllWhitespace(pre) && AllWhitespace(post) && s == pre + core + post
  {
    var t := TrimStart(s);
    TrimStartShape(s);
    TrimStartBlank(s);
    TrimEndShape(t);
    TrimEndBlank(t);
    TrimIsTrimmed(s);
    var pre, post := s[..|s| - |t|], t[|Trim(s)|..];
    assert s == pre + Trim(s) + post;
    if IsTrimmed(core) {
      if pre, post :| AllWhitespace(pre) && AllWhitespace(post) && s == pre + core + post {
        TrimOfParts(pre, core, post);
      }
    }
  }

  lemma TrimOfParts(pre: string, core: string, post: string)
    requires AllWhitespace(pre) && AllWhitespace(post) && IsTrimmed(core)
    ensures Trim(pre + core + post) == core
  {
    if core == [] {
      assert pre + core + post == (pre + post) + [];
      TrimStartOfBlank(pre + post, []);
    } else {
      assert pre + core + post == pre + (core + post);
      TrimStartOfBlank(pre, core + post);
      TrimEndOfBlank(core, post);
    }
  }

  lemma TrimIsEmpty(s: string)
    ensures Trim(s) == [] <==> AllWhitespace(s)
  {
    TrimExactly(s, []);
    if AllWhitespace(s) {
      assert s == s + [] + [] && AllWhitespace([]);
    }
    if Trim(s) == [] {
      var pre, post :| AllWhitespace(pre) && AllWhitespace(post) && s == pre + [] + post;
    }
  }

  /** Not blank, at most `most` characters, none of them a control: what the stores ask of a text. */
  ghost predicate IsText(s: string, most: nat) {
    && (exists i :: 0 <= i < |s| && !IsWhitespace(s[i])) && |s| <= most
    && forall i :: 0 <= i < |s| ==> !IsControl(s[i])
  }

  function LowerChar(c: char): char {
    if 'A' <= c <= 'Z' then (c as int + 32) as char else c
  }

  function Lower(s: string): string {
    seq(|s|, i requires 0 <= i < |s| => LowerChar(s[i]))
  }

  /** The classes by code point: White_Space and Cc of Unicode, and the letters that have a lower case in ASCII. */
  lemma ClassesByCodePoint(c: char)
    ensures var n := c as int;
            && (IsControl(c) <==> 0 <= n <= 0x1F || 0x7F <= n <= 0x9F)
            && (IsWhitespace(c) <==>
                  || 0x9 <= n <= 0xD || 0x2000 <= n <= 0x200A
                  || n in {0x20, 0x85, 0xA0, 0x1680, 0x2028, 0x2029, 0x202F, 0x205F, 0x3000})
            && LowerChar(c) as int == if 0x41 <= n <= 0x5A then n + 0x20 else n
  {}
}
