/** Git's effective comment marker, read from NUL-framed config records (src/hooks.rs). */
module CommentMarker {
  import opened Text

  const NUL: char := '\0'

  datatype MarkerError = GitFailed | BadFraming | UnexpectedKey | AutoMarker | InvalidMarker

  predicate IsAcceptedKey(key: string) {
    key == "core.commentchar" || key == "core.commentstring"
  }

  /** The index of the first newline, or the length. */
  function NewlineAt(record: string): (n: nat)
    ensures n <= |record|
    ensures '\n' !in record[..n]
    ensures n < |record| ==> record[n] == '\n'
  {
    if record == [] || record[0] == '\n' then 0
    else
      var n := NewlineAt(record[1..]);
      assert record[..n + 1] == [record[0]] + record[1..][..n];
      n + 1
  }

  /** The value of one record: the text after its first newline, under an accepted key. */
  function RecordValue(record: string): Result<string, MarkerError> {
    var n := NewlineAt(record);
    if n == |record| then Err(BadFraming)
    else if !IsAcceptedKey(record[..n]) then Err(UnexpectedKey)
    else Ok(record[n + 1..])
  }

  /** The final check on whatever marker the records left. */
  function Accept(marker: string): Result<string, MarkerError> {
    if marker == "auto" then Err(AutoMarker)
    else if marker == [] || '\n' in marker || '\r' in marker then Err(InvalidMarker)
    else Ok(marker)
  }

  /** The marker after the non-empty records, the last one winning. */
  function LastValue(records: seq<string>, marker: string): Result<string, MarkerError> {
    if records == [] then Ok(marker)
    else if records[0] == [] then LastValue(records[1..], marker)
    else
      match RecordValue(records[0])
      case Err(e) => Err(e)
      case Ok(value) => LastValue(records[1..], value)
  }

  /** `comment_marker` on an exit status and a standard output. */
  function Marker(status: int, stdout: string): Result<string, MarkerError> {
    if status == 1 then Ok("#")
    else if status != 0 then Err(GitFailed)
    else if stdout == [] || stdout[|stdout| - 1] != NUL then Err(BadFraming)
    else
      match LastValue(Split(stdout, NUL), "#")
      case Err(e) => Err(e)
      case Ok(marker) => Accept(marker)
  }

  method ReadMarker(status: int, stdout: string) returns (result: Result<string, MarkerError>)
    ensures result == Marker(status, stdout)
  {
    if status == 1 {
      return Ok("#");
    }
    if status != 0 {
      return Err(GitFailed);
    }
    if stdout == [] || stdout[|stdout| - 1] != NUL {
      return Err(BadFraming);
    }
    var marker := "#";
    var records := Split(stdout, NUL);
    for i := 0 to |records|
      invariant LastValue(records[i..], marker) == LastValue(records, "#")
    {
      var record := records[i];
      assert records[i..][0] == record && records[i..][1..] == records[i + 1..];
      if record == [] {
        continue;
      }
      var newline := NewlineAt(record);
      if newline == |record| {
        return Err(BadFraming);
      }
      if !IsAcceptedKey(record[..newline]) {
        return Err(UnexpectedKey);
      }
      marker := record[newline + 1..];
    }
    if marker == "auto" {
      return Err(AutoMarker);
    }
    if marker == [] || '\n' in marker || '\r' in marker {
      return Err(InvalidMarker);
    }
    return Ok(marker);
  }

  // --- What Git prints. ---

  /** One configuration entry as `git config --null --get-regexp` prints it. */
  datatype Entry = Entry(key: string, value: string)

  function Frame(entry: Entry): string {
    entry.key + "\n" + entry.value
  }

  function Output(entries: seq<Entry>): string {
    if entries == [] then [] else Frame(entries[0]) + [NUL] + Output(entries[1..])
  }

  ghost predicate IsPrintable(entry: Entry) {
    entry.key in {"core.commentchar", "core.commentstring"} && NUL !in entry.value
  }

  lemma AcceptedKeyIsPlain(key: string)
    requires IsAcceptedKey(key)
    ensures NUL !in key && '\n' !in key && key != []
  {}

  lemma {:induction false} NewlineAfterKey(key: string, value: string)
    requires '\n' !in key
    ensures NewlineAt(key + "\n" + value) == |key|
  {
    if key == [] {
      assert ([] + "\n" + value)[0] == '\n';
    } else {
      var text := key + "\n" + value;
      assert text[0] == key[0] && text[1..] == key[1..] + "\n" + value;
      NewlineAfterKey(key[1..], value);
    }
  }

  lemma FrameReadsBack(entry: Entry)
    requires IsPrintable(entry)
    ensures RecordValue(Frame(entry)) == Ok(entry.value)
    ensures NUL !in Frame(entry) && Frame(entry) != []
  {
    AcceptedKeyIsPlain(entry.key);
    NewlineAfterKey(entry.key, entry.value);
    var n := |entry.key|;
    assert Frame(entry)[..n] == entry.key && Frame(entry)[n + 1..] == entry.value;
  }

  lemma {:induction false} OutputReadsBack(entries: seq<Entry>, marker: string)
    requires forall i :: 0 <= i < |entries| ==> IsPrintable(entries[i])
    ensures LastValue(Split(Output(entries), NUL), marker)
         == Ok(if entries == [] then marker else entries[|entries| - 1].value)
    ensures entries != [] ==> Output(entries) != [] && Output(entries)[|Output(entries)| - 1] == NUL
  {
    if entries == [] {
      var records := Split([], NUL);
      assert records == [[]] && records[1..] == [];
    } else {
      var head, tail := Frame(entries[0]), Output(entries[1..]);
      FrameReadsBack(entries[0]);
      SplitHead(head, tail, NUL);
      var records := Split(Output(entries), NUL);
      assert records[0] == head && records[1..] == Split(tail, NUL);
      OutputReadsBack(entries[1..], entries[0].value);
    }
  }

  lemma MarkerOf(output: string, value: string)
    requires output != [] && output[|output| - 1] == NUL && LastValue(Split(output, NUL), "#") == Ok(value)
    ensures Marker(0, output) == Accept(value)
  {}

  /** The last entry decides, whatever the earlier ones hold. */
  lemma LastEntryDecides(entries: seq<Entry>)
    requires entries != [] && forall i :: 0 <= i < |entries| ==> IsPrintable(entries[i])
    ensures Marker(0, Output(entries)) == Accept(entries[|entries| - 1].value)
    ensures var value := entries[|entries| - 1].value;
            Marker(0, Output(entries)).Err? <==> value == "auto" || value == [] || '\n' in value || '\r' in value
  {
    OutputReadsBack(entries, "#");
    MarkerOf(Output(entries), entries[|entries| - 1].value);
  }

  /** Without an entry Git exits with 1 and the marker is the default; any other failure is one. */
  lemma StatusDecides(status: int, stdout: string)
    ensures status == 1 ==> Marker(status, stdout) == Ok("#")
    ensures status !in {0, 1} ==> Marker(status, stdout) == Err(GitFailed)
    ensures status == 0 && (stdout == [] || stdout[|stdout| - 1] != NUL) ==> Marker(status, stdout) == Err(BadFraming)
  {}

  /** Why a marker is refused. */
  lemma AcceptExactly(marker: string)
    ensures Accept(marker) == if marker == "auto" then Err(AutoMarker)
                              else if |marker| == 0 || exists i :: 0 <= i < |marker| && marker[i] in {'\n', '\r'}
                              then Err(InvalidMarker)
                              else Ok(marker)
  {}

  predicate IsBadRecord(record: string) {
    record != [] && RecordValue(record).Err?
  }

  /** The first record that is no entry decides: without a newline it is framed badly, else its key is unexpected. */
  lemma {:induction false} FirstBadRecord(records: seq<string>, marker: string, i: nat)
    requires i < |records| && IsBadRecord(records[i]) && forall j :: 0 <= j < i ==> !IsBadRecord(records[j])
    ensures LastValue(records, marker) == Err(if '\n' in records[i] then UnexpectedKey else BadFraming)
    decreases |records|
  {
    if i > 0 {
      var later := records[1..];
      assert later[i - 1] == records[i] && forall j :: 0 <= j < i - 1 ==> later[j] == records[j + 1];
      var next := if records[0] == [] then marker else RecordValue(records[0]).value;
      FirstBadRecord(later, next, i - 1);
    } else {
      var record := records[0];
      var n := NewlineAt(record);
      assert record[..|record|] == record;
    }
  }

  // --- Every output, printed by Git or not. ---

  /** The entries a NUL-terminated output stands for, if each of its records is one. */
  ghost predicate StandsFor(records: seq<string>, entries: seq<Entry>)
    decreases |records|
  {
    if records == [] then entries == []
    else if records[0] == [] then StandsFor(records[1..], entries)
    else entries != [] && IsPrintable(entries[0]) && records[0] == Frame(entries[0])
         && StandsFor(records[1..], entries[1..])
  }

  lemma {:induction false} ReadRecordsStandForEntries(records: seq<string>, marker: string)
    returns (entries: seq<Entry>)
    requires Free(records, NUL) && LastValue(records, marker).Ok?
    ensures StandsFor(records, entries)
    ensures LastValue(records, marker) == Ok(if entries == [] then marker else entries[|entries| - 1].value)
    decreases |records|
  {
    if records == [] {
      entries := [];
    } else if records[0] == [] {
      entries := ReadRecordsStandForEntries(records[1..], marker);
    } else {
      var record := records[0];
      var n := NewlineAt(record);
      var first := Entry(record[..n], record[n + 1..]);
      assert record == Frame(first);
      assert NUL !in first.value;
      var rest := ReadRecordsStandForEntries(records[1..], first.value);
      entries := [first] + rest;
      assert entries[1..] == rest;
    }
  }

  /** Nothing is accepted but records Git prints, and then the last entry is what was read. */
  lemma AcceptedOutputIsEntries(stdout: string) returns (entries: seq<Entry>)
    requires Marker(0, stdout).Ok?
    ensures StandsFor(Split(stdout, NUL), entries)
    ensures Marker(0, stdout) == Accept(if entries == [] then "#" else entries[|entries| - 1].value)
  {
    SplitIsFree(stdout, NUL);
    entries := ReadRecordsStandForEntries(Split(stdout, NUL), "#");
  }
}
