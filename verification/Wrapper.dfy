/** Managed hook wrappers: shell quoting, rendering and ownership (src/hooks.rs). */
module Wrapper {
  import opened Text

  datatype HookKind = PrepareCommitMsg | CommitMsg

  function Name(hook: HookKind): string {
    match hook
    case PrepareCommitMsg => "prepare-commit-msg"
    case CommitMsg => "commit-msg"
  }

  // --- Quoting. ---

  /** `value.replace('\'', "'\\''")`. */
  function Escape(value: string): string {
    if value == [] then []
    else (if value[0] == '\'' then "'\\''" else [value[0]]) + Escape(value[1..])
  }

  function ShellQuote(value: string): string {
    "'" + Escape(value) + "'"
  }

  // --- The reader of IEEE Std 1003.1, Shell Command Language, sections 2.2.1 and 2.2.2. ---

  /** A word read from a script, and the text that follows it. */
  datatype Word = Word(value: string, rest: string)

  function Prepend(prefix: string, word: Option<Word>): Option<Word> {
    match word
    case None => None
    case Some(w) => Some(Word(prefix + w.value, w.rest))
  }

  /** Characters that mean something else than themselves outside quotes. */
  predicate IsShellSpecial(c: char) {
    c in {'|', '&', ';', '<', '>', '(', ')', '$', '`', '"'}
  }

  /** Section 2.2.2: everything up to the next single quote is literal. */
  function ReadSingleQuoted(text: string): (word: Option<Word>)
    ensures word.Some? ==> |word.value.rest| < |text|
  {
    if text == [] then None
    else if text[0] == '\'' then Some(Word([], text[1..]))
    else Prepend([text[0]], ReadSingleQuoted(text[1..]))
  }

  /**
   * One word, from an unquoted position. It ends before a blank or a newline.
   * Section 2.2.1: a backslash quotes the next character, and a backslash
   * before a newline is removed with it. Operators, expansions and double
   * quotes lie outside these two sections and are not read.
   */
  function ReadWord(text: string): Option<Word>
    decreases |text|
  {
    if text == [] || text[0] in {' ', '\t', '\n'} then Some(Word([], text))
    else if text[0] == '\'' then
      match ReadSingleQuoted(text[1..])
      case None => None
      case Some(w) => Prepend(w.value, ReadWord(w.rest))
    else if text[0] == '\\' then
      if |text| == 1 then None
      else if text[1] == '\n' then ReadWord(text[2..])
      else Prepend([text[1]], ReadWord(text[2..]))
    else if IsShellSpecial(text[0]) then None
    else Prepend([text[0]], ReadWord(text[1..]))
  }

  /** Quoting protects the whole value; what follows is read as if it stood alone. */
  lemma {:induction false} QuotedReadsBack(value: string, tail: string)
    ensures ReadWord(ShellQuote(value) + tail) == Prepend(value, ReadWord(tail))
  {
    if value == [] {
      QuotedEmpty(tail);
    } else {
      var c, later := value[0], value[1..];
      QuotedReadsBack(later, tail);
      PrependTwice([c], later, ReadWord(tail));
      assert [c] + later == value;
      if c == '\'' {
        QuotedApostrophe(later, tail);
      } else {
        QuotedOrdinary(c, later, tail);
      }
    }
  }

  lemma QuotedEmpty(tail: string)
    ensures ReadWord(ShellQuote([]) + tail) == Prepend([], ReadWord(tail))
  {
    var text := ShellQuote([]) + tail;
    assert text[0] == '\'' && text[1..] == "'" + tail;
    assert ("'" + tail)[1..] == tail;
  }

  lemma QuotedApostrophe(value: string, tail: string)
    ensures ReadWord(ShellQuote("'" + value) + tail) == Prepend("'", ReadWord(ShellQuote(value) + tail))
  {
    var text, later := ShellQuote("'" + value) + tail, ShellQuote(value) + tail;
    assert ("'" + value)[1..] == value;
    var escaped := "\\'" + later;
    assert text[0] == '\'' && text[1..] == "'" + escaped;
    assert ("'" + escaped)[1..] == escaped;
    assert escaped[0] == '\\' && escaped[1] == '\'' && escaped[2..] == later;
    PrependEmpty(ReadWord(escaped));
  }

  lemma QuotedOrdinary(c: char, value: string, tail: string)
    requires c != '\''
    ensures ReadWord(ShellQuote([c] + value) + tail) == Prepend([c], ReadWord(ShellQuote(value) + tail))
  {
    var inner := Escape(value) + "'" + tail;
    var text, later := ShellQuote([c] + value) + tail, ShellQuote(value) + tail;
    assert ([c] + value)[1..] == value;
    assert text[0] == '\'' && text[1..] == [c] + inner;
    assert later[0] == '\'' && later[1..] == inner;
    assert ([c] + inner)[1..] == inner;
    var word := ReadSingleQuoted(inner);
    assert ReadSingleQuoted([c] + inner) == Prepend([c], word);
    if word.Some? {
      PrependTwice([c], word.value.value, ReadWord(word.value.rest));
    }
  }

  lemma PrependEmpty(word: Option<Word>)
    ensures Prepend([], word) == word
  {
    if word.Some? {
      assert [] + word.value.value == word.value.value;
    }
  }

  lemma PrependTwice(a: string, b: string, word: Option<Word>)
    ensures Prepend(a + b, word) == Prepend(a, Prepend(b, word))
  {
    if word.Some? {
      assert (a + b) + word.value.value == a + (b + word.value.value);
    }
  }

  /** A quoted value ends exactly at the newline after it, and determines the value. */
  lemma QuoteEndsAtNewline(value: string, rest: string)
    ensures ReadWord(ShellQuote(value) + "\n" + rest) == Some(Word(value, "\n" + rest))
  {
    assert ShellQuote(value) + "\n" + rest == ShellQuote(value) + ("\n" + rest);
    QuotedReadsBack(value, "\n" + rest);
    assert value + [] == value;
  }

  // --- Rendering. ---

  const HEADER: string :=
    "#!/bin/sh\n# phasegent:managed\n# Installed by `phasegent hooks install`; safe to reinstall or remove.\n"
  const CHAIN_NOTE: string :=
    "# The preserved original hook runs first;" + " phasegent runs only if it succeeds.\n"
  const ASSIGN: string := "PHASEGENT_ORIGINAL_HOOK="
  const PREFLIGHT_TEST: string :=
    "if [ ! -f \"$PHASEGENT_ORIGINAL_HOOK\" ]"
    + " || [ ! -x \"$PHASEGENT_ORIGINAL_HOOK\" ]"
    + " || [ -L \"$PHASEGENT_ORIGINAL_HOOK\" ]; then\n"
  const PREFLIGHT_REPORT: string :=
    "  printf '%s\\n' \"phasegent: preserved original hook $PHASEGENT_ORIGINAL_HOOK is missing or unsafe;"
    + " restore a regular executable original or manually reconcile the managed wrapper before reinstalling\" >&2\n"
    + "  exit 1\nfi\n"
  const CHAIN: string := "\"$PHASEGENT_ORIGINAL_HOOK\" \"$@\" || exit $?\n"
  const EXEC: string := "exec phasegent hooks run "
  const ARGUMENTS: string := " \"$@\"\n"

  function ExecLine(hook: HookKind): string {
    EXEC + Name(hook) + ARGUMENTS
  }

  /** What follows the assignment of the preserved original. */
  function ChainTail(hook: HookKind, preflight: bool): string {
    (if preflight then PREFLIGHT_TEST + PREFLIGHT_REPORT else []) + (CHAIN + ExecLine(hook))
  }

  function ChainPart(backup: string, tail: string): string {
    CHAIN_NOTE + (ASSIGN + (ShellQuote(backup) + "\n" + tail))
  }

  function RenderWrapper(hook: HookKind, backup: Option<string>, preflight: bool): string {
    HEADER + (match backup
              case None => ExecLine(hook)
              case Some(path) => ChainPart(path, ChainTail(hook, preflight)))
  }

  function Script(hook: HookKind, backup: Option<string>): string {
    RenderWrapper(hook, backup, true)
  }

  function LegacyScript(hook: HookKind, backup: Option<string>): string {
    RenderWrapper(hook, backup, false)
  }

  predicate DeclaresOriginal(current: string, hook: HookKind, backup: string) {
    || current == Script(hook, Some(backup))
    || current == LegacyScript(hook, Some(backup))
  }

  /** A live hook this installer owns: chained to this very backup, or unchained. */
  predicate IsManaged(current: string, hook: HookKind, backup: string) {
    DeclaresOriginal(current, hook, backup) || current == Script(hook, None)
  }

  // --- What the shell reads from the rendered line. ---

  /** Letters, an underscore and an equals sign: they stand for themselves. */
  predicate IsPlain(text: string) {
    forall i :: 0 <= i < |text| ==> 'A' <= text[i] <= 'Z' || text[i] in {'_', '='}
  }

  lemma {:induction false} PlainReadsAsItself(plain: string, tail: string)
    requires IsPlain(plain)
    ensures ReadWord(plain + tail) == Prepend(plain, ReadWord(tail))
  {
    if plain == [] {
      assert plain + tail == tail;
      PrependEmpty(ReadWord(tail));
    } else {
      assert (plain + tail)[1..] == plain[1..] + tail && [plain[0]] + plain[1..] == plain;
      PlainReadsAsItself(plain[1..], tail);
      PrependTwice([plain[0]], plain[1..], ReadWord(tail));
    }
  }

  /**
   * Below the comments of a chained wrapper the shell reads one word that
   * assigns exactly the backup's path, whatever characters the path holds;
   * the line ends there.
   */
  lemma AssignmentReadsBack(hook: HookKind, backup: string, preflight: bool)
    ensures var line := ASSIGN + (ShellQuote(backup) + "\n" + ChainTail(hook, preflight));
            && RenderWrapper(hook, Some(backup), preflight) == HEADER + (CHAIN_NOTE + line)
            && ReadWord(line) == Some(Word(ASSIGN + backup, "\n" + ChainTail(hook, preflight)))
  {
    AssignedPath(backup, ChainTail(hook, preflight));
  }

  lemma AssignedPath(backup: string, tail: string)
    ensures ReadWord(ASSIGN + (ShellQuote(backup) + "\n" + tail)) == Some(Word(ASSIGN + backup, "\n" + tail))
  {
    QuoteEndsAtNewline(backup, tail);
    PlainReadsAsItself(ASSIGN, ShellQuote(backup) + "\n" + tail);
  }

  /**
   * What a chained wrapper does, in order: name the backup, test it unless it is
   * the legacy text, run it, and only then run the program.
   */
  lemma ScriptInOrder(hook: HookKind, backup: string, preflight: bool)
    ensures var test := if preflight then PREFLIGHT_TEST + PREFLIGHT_REPORT else [];
            RenderWrapper(hook, Some(backup), preflight)
            == HEADER + CHAIN_NOTE + ASSIGN + ShellQuote(backup) + "\n" + test + CHAIN + ExecLine(hook)
  {
    var test := if preflight then PREFLIGHT_TEST + PREFLIGHT_REPORT else [];
    Regroup(HEADER, CHAIN_NOTE, ASSIGN, ShellQuote(backup), "\n", test, CHAIN, ExecLine(hook));
  }

  lemma Regroup(
    a: string, b: string, c: string, d: string, e: string, f: string, g: string, h: string)
    ensures a + (b + (c + (d + e + (f + (g + h))))) == a + b + c + d + e + f + g + h
  {}

  // --- Ownership is exact. ---

  lemma CancelPrefix(p: string, a: string, b: string)
    ensures p + a == p + b <==> a == b
  {
    if p + a == p + b {
      assert (p + a)[|p|..] == a && (p + b)[|p|..] == b;
    }
  }

  lemma ExecLineInjective(h: HookKind, k: HookKind)
    ensures ExecLine(h) == ExecLine(k) ==> h == k
  {
    assert |ExecLine(h)| == |EXEC| + |Name(h)| + |ARGUMENTS|;
    assert |ExecLine(k)| == |EXEC| + |Name(k)| + |ARGUMENTS|;
    assert |Name(PrepareCommitMsg)| == 18 && |Name(CommitMsg)| == 10;
  }

  lemma ChainTailInjective(h: HookKind, f: bool, k: HookKind, g: bool)
    ensures ChainTail(h, f) == ChainTail(k, g) ==> h == k && f == g
  {
    assert PREFLIGHT_TEST[0] == 'i' && CHAIN[0] == '"';
    assert ChainTail(h, f)[0] == (if f then 'i' else '"');
    assert ChainTail(k, g)[0] == (if g then 'i' else '"');
    if ChainTail(h, f) == ChainTail(k, g) {
      CancelPrefix(if f then PREFLIGHT_TEST + PREFLIGHT_REPORT else [], CHAIN + ExecLine(h), CHAIN + ExecLine(k));
      CancelPrefix(CHAIN, ExecLine(h), ExecLine(k));
      ExecLineInjective(h, k);
    }
  }

  lemma ChainPartInjective(p: string, a: string, q: string, b: string)
    ensures ChainPart(p, a) == ChainPart(q, b) ==> p == q && a == b
  {
    if ChainPart(p, a) == ChainPart(q, b) {
      var s, t := ShellQuote(p) + "\n" + a, ShellQuote(q) + "\n" + b;
      CancelPrefix(CHAIN_NOTE, ASSIGN + s, ASSIGN + t);
      CancelPrefix(ASSIGN, s, t);
      QuoteEndsAtNewline(p, a);
      QuoteEndsAtNewline(q, b);
      CancelPrefix("\n", a, b);
    }
  }

  lemma FirstCharacters(hook: HookKind, backup: string, tail: string)
    ensures ExecLine(hook)[0] == 'e' && ChainPart(backup, tail)[0] == '#'
  {
    assert EXEC[0] == 'e' && CHAIN_NOTE[0] == '#';
  }

  /** A chained wrapper and any other one: the same text only for the same hook, backup and preflight choice. */
  lemma ChainedInjective(h: HookKind, p: string, f: bool, k: HookKind, q: Option<string>, g: bool)
    ensures RenderWrapper(h, Some(p), f) == RenderWrapper(k, q, g) <==> h == k && q == Some(p) && f == g
  {
    var chained := ChainPart(p, ChainTail(h, f));
    match q
    case None =>
      CancelPrefix(HEADER, chained, ExecLine(k));
      FirstCharacters(k, p, ChainTail(h, f));
    case Some(path) =>
      CancelPrefix(HEADER, chained, ChainPart(path, ChainTail(k, g)));
      ChainPartInjective(p, ChainTail(h, f), path, ChainTail(k, g));
      ChainTailInjective(h, f, k, g);
  }

  /**
   * Two wrappers are the same text exactly when they are for the same hook,
   * the same backup and, when there is a backup, the same preflight choice.
   */
  lemma RenderInjective(h: HookKind, p: Option<string>, f: bool, k: HookKind, q: Option<string>, g: bool)
    ensures RenderWrapper(h, p, f) == RenderWrapper(k, q, g)
       <==> h == k && p == q && (p.Some? ==> f == g)
  {
    match (p, q)
    case (Some(path), _) => ChainedInjective(h, path, f, k, q, g);
    case (None, Some(path)) => ChainedInjective(k, path, g, h, p, f);
    case (None, None) =>
      CancelPrefix(HEADER, ExecLine(h), ExecLine(k));
      ExecLineInjective(h, k);
  }

  /** A text declares a backup exactly if it is one of the two wrappers chained to it. */
  lemma DeclaresEither(current: string, hook: HookKind, backup: string)
    ensures DeclaresOriginal(current, hook, backup)
       <==> current == RenderWrapper(hook, Some(backup), true) || current == RenderWrapper(hook, Some(backup), false)
  {}

  /** Among rendered wrappers, only one for this hook and this backup declares it. */
  lemma DeclaresExactly(h: HookKind, backup: string, k: HookKind, q: Option<string>, g: bool)
    ensures DeclaresOriginal(RenderWrapper(k, q, g), h, backup) <==> h == k && q == Some(backup)
  {
    var current := RenderWrapper(k, q, g);
    DeclaresEither(current, h, backup);
    ChainedInjective(h, backup, true, k, q, g);
    ChainedInjective(h, backup, false, k, q, g);
    assert h == k && q == Some(backup) <==>
      current == RenderWrapper(h, Some(backup), true) || current == RenderWrapper(h, Some(backup), false);
  }
}
