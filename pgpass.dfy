/** `PgPassFile`: a credential file named by its path, read through a
    permission gate and parsed afresh on every call, and the password lookup
    over its entries.  The file system is a value the caller passes in, so
    each call sees the files as they are at that moment. */
module PgPass {
  import opened Wrappers
  import opened PyText
  import opened Matching
  import opened LineParser

  /** `st_mode` of a file. */
  type Mode = bv32

  /** `stat.S_IRWXG` (0o070) and `stat.S_IRWXO` (0o007). */
  const S_IRWXG: Mode := 0x38
  const S_IRWXO: Mode := 0x07

  /** What `os.stat`, `os.access(path, os.R_OK)` and `read_file` report
      about one path. */
  datatype FileInfo = FileInfo(mode: Mode, readable: bool, content: string)

  /** The paths that exist (`os.path.exists`) and what is known about each. */
  type FileSystem = map<string, FileInfo>

  /** `PgPassFileNotExistsError` and `PgPassFileNotReadableError`. */
  datatype PgPassError = NotExists(filename: string) | NotReadable(filename: string)

  /** The group or the others have some permission on the file. */
  predicate GroupOrOtherAccess(mode: Mode) {
    mode & S_IRWXG != 0 || mode & S_IRWXO != 0
  }

  /** `PgPassFile.read`: a missing path and an unreadable file are errors; a
      file the group or others may access reads as empty unless `force` is
      set; otherwise the file's content is returned unchanged. */
  function Read(fs: FileSystem, filename: string, force: bool): (r: Result<string, PgPassError>)
    ensures r == Failure(NotExists(filename)) <==> filename !in fs
    ensures r == Failure(NotReadable(filename)) <==> filename in fs && !fs[filename].readable
    ensures r.Success? <==> filename in fs && fs[filename].readable
    ensures r.Success? && !force && GroupOrOtherAccess(fs[filename].mode) ==> r.value == ""
    ensures r.Success? && (force || !GroupOrOtherAccess(fs[filename].mode)) ==>
              r.value == fs[filename].content
  {
    if filename !in fs then Failure(NotExists(filename))
    else if !fs[filename].readable then Failure(NotReadable(filename))
    else if GroupOrOtherAccess(fs[filename].mode) && !force then Success("")
    else Success(fs[filename].content)
  }

  /** The outcome of parsing each line, line by line. */
  function Outcomes(lines: seq<string>): (r: seq<LineOutcome>)
    ensures |r| == |lines|
  {
    if lines == [] then []
    else Outcomes(lines[..|lines| - 1]) + [ParseLine(lines[|lines| - 1])]
  }

  /** The entries of the parsed lines, in line order; every other outcome
      contributes nothing. */
  function EntriesOf(outcomes: seq<LineOutcome>): (r: seq<PgPassEntry>)
    ensures |r| <= |outcomes|
  {
    if outcomes == [] then []
    else
      var last := outcomes[|outcomes| - 1];
      EntriesOf(outcomes[..|outcomes| - 1]) + (if last.Parsed? then [last.entry] else [])
  }

  /** The entries of a whole file content. */
  function ParseContent(content: string): seq<PgPassEntry> {
    EntriesOf(Outcomes(SplitLines(content)))
  }

  /** What `entries()` returns for the file system as it is: the errors of
      `read`, or the entries of the content `read` returned. */
  function EntryList(fs: FileSystem, filename: string, force: bool): Result<seq<PgPassEntry>, PgPassError> {
    match Read(fs, filename, force)
    case Failure(e) => Failure(e)
    case Success(content) => Success(ParseContent(content))
  }

  /** What `get_passwd` returns: the password of the first entry that
      matches, `None` when none does, or the error of reading the file. */
  function Lookup(fs: FileSystem, filename: string, force: bool, q: Query): Result<Option<string>, PgPassError> {
    match EntryList(fs, filename, force)
    case Failure(e) => Failure(e)
    case Success(entries) => Success(FirstMatch(entries, q))
  }

  class PgPassFile {
    /** The path of the credential file. */
    const filename: string
    /** Use the file even if the group or others have permissions on it. */
    const force: bool

    constructor (filename: string, force: bool)
      ensures this.filename == filename && this.force == force
    {
      this.filename := filename;
      this.force := force;
    }

    /** `PgPassFile(filename, force)`: without a file name the default path
        is used; the path must exist when the object is made. */
    static method Open(fs: FileSystem, filename: Option<string>, defaultPath: string, force: bool)
      returns (r: Result<PgPassFile, PgPassError>)
      ensures var path := if filename.Some? then filename.value else defaultPath;
              (r.Failure? <==> path !in fs)
              && (r.Failure? ==> r.error == NotExists(path))
              && (r.Success? ==> fresh(r.value) && r.value.filename == path && r.value.force == force)
    {
      var path := if filename.Some? then filename.value else defaultPath;
      if path !in fs {
        return Failure(NotExists(path));
      }
      var file := new PgPassFile(path, force);
      r := Success(file);
    }

    /** `PgPassFile.entries`: read the file through the permission gate and
        parse it line by line, keeping every accepted line's entry in file
        order. */
    method Entries(fs: FileSystem) returns (r: Result<seq<PgPassEntry>, PgPassError>)
      ensures r == EntryList(fs, filename, force)
    {
      var read := Read(fs, filename, force);
      if read.Failure? {
        return Failure(read.error);
      }
      var content := read.value;
      if content == [] {
        return Success([]);
      }
      var lines := SplitLines(content);
      var result := ParseLines(lines);
      return Success(result);
    }

    /** The loop of `PgPassFile.entries`: each line in turn is parsed, and
        the entry of every line that parses is appended to the result. */
    static method ParseLines(lines: seq<string>) returns (result: seq<PgPassEntry>)
      ensures result == EntriesOf(Outcomes(lines))
    {
      result := [];
      var rowNr := 0;
      while rowNr < |lines|
        invariant 0 <= rowNr <= |lines|
        invariant result == EntriesOf(Outcomes(lines[..rowNr]))
      {
        var line := lines[rowNr];
        var outcome := ParseLine(line);
        assert lines[..rowNr + 1][..rowNr] == lines[..rowNr];
        assert Outcomes(lines[..rowNr + 1]) == Outcomes(lines[..rowNr]) + [outcome];
        EntriesOfAppend(Outcomes(lines[..rowNr]), [outcome]);
        assert [outcome][..0] == [];
        rowNr := rowNr + 1;
        if !outcome.Parsed? {
          continue;
        }
        result := result + [outcome.entry];
      }
      assert lines[..rowNr] == lines;
    }

    /** `PgPassFile.get_passwd`: the password of the first entry in file
        order that matches the query, or `None`. */
    method GetPasswd(fs: FileSystem, q: Query) returns (r: Result<Option<string>, PgPassError>)
      ensures r == Lookup(fs, filename, force, q)
    {
      var passwd: Option<string> := None;
      var entries := Entries(fs);
      if entries.Failure? {
        return Failure(entries.error);
      }
      var list := entries.value;
      var i := 0;
      while i < |list|
        invariant 0 <= i <= |list|
        invariant FirstMatch(list, q) == FirstMatch(list[i..], q)
      {
        if Matches(list[i], q) {
          passwd := Some(list[i].password);
          break;
        }
        assert list[i..][1..] == list[i + 1..];
        i := i + 1;
      }
      return Success(passwd);
    }
  }

  /** The entries of two runs of lines one after the other are those of
      the first followed by those of the second. */
  lemma {:induction false} EntriesOfAppend(a: seq<LineOutcome>, b: seq<LineOutcome>)
    ensures EntriesOf(a + b) == EntriesOf(a) + EntriesOf(b)
    decreases |b|
  {
    if b != [] {
      assert (a + b)[..|a + b| - 1] == a + b[..|b| - 1];
      assert (a + b)[|a + b| - 1] == b[|b| - 1];
      EntriesOfAppend(a, b[..|b| - 1]);
    } else {
      assert a + b == a;
    }
  }

  /** `Outcomes` parses each line on its own: the outcome at every
      position is the parse of the line at that position. */
  lemma {:induction false} OutcomesAt(lines: seq<string>, k: nat)
    requires k < |lines|
    ensures Outcomes(lines)[k] == ParseLine(lines[k])
    decreases |lines|
  {
    var n := |lines| - 1;
    var last := ParseLine(lines[n]);
    var front := Outcomes(lines[..n]);
    assert Outcomes(lines) == front + [last];
    if k < n {
      OutcomesAt(lines[..n], k);
      assert lines[..n][k] == lines[k];
      assert (front + [last])[k] == front[k];
    }
  }

  /** Outcomes that agree line by line with the parses are the file's
      outcomes (the converse is `OutcomesAt`). */
  lemma OutcomesPointwise(lines: seq<string>, os: seq<LineOutcome>)
    requires |os| == |lines|
    requires forall k :: 0 <= k < |lines| ==> os[k] == ParseLine(lines[k])
    ensures Outcomes(lines) == os
  {
    forall k | 0 <= k < |lines|
      ensures Outcomes(lines)[k] == ParseLine(lines[k])
    {
      OutcomesAt(lines, k);
    }
  }

  /** No state passes from one line to the next: the outcomes of two runs
      of lines one after the other are those of each run on its own. */
  lemma OutcomesAppend(a: seq<string>, b: seq<string>)
    ensures Outcomes(a + b) == Outcomes(a) + Outcomes(b)
  {
    var os := Outcomes(a) + Outcomes(b);
    forall k | 0 <= k < |a + b|
      ensures os[k] == ParseLine((a + b)[k])
    {
      if k < |a| {
        OutcomesAt(a, k);
      } else {
        OutcomesAt(b, k - |a|);
      }
    }
    OutcomesPointwise(a + b, os);
  }

  /** A line that yields no entry (blank, comment, wrong field count, bad
      port) is skipped without affecting the lines before or after it. */
  lemma SkippedLine(before: seq<LineOutcome>, skipped: LineOutcome, after: seq<LineOutcome>)
    requires !skipped.Parsed?
    ensures EntriesOf(before + [skipped] + after) == EntriesOf(before) + EntriesOf(after)
  {
    EntriesOfAppend(before + [skipped], after);
    EntriesOfAppend(before, [skipped]);
    assert [skipped][..0] == [];
    assert EntriesOf([skipped]) == [];
    assert EntriesOf(before) + [] == EntriesOf(before);
  }

  /** When every line parses, there is one entry per line, in line order,
      duplicates included. */
  lemma {:induction false} AllParsedEntries(outcomes: seq<LineOutcome>)
    requires forall i :: 0 <= i < |outcomes| ==> outcomes[i].Parsed?
    ensures |EntriesOf(outcomes)| == |outcomes|
    ensures forall i :: 0 <= i < |outcomes| ==> EntriesOf(outcomes)[i] == outcomes[i].entry
    decreases |outcomes|
  {
    if outcomes != [] {
      var front := outcomes[..|outcomes| - 1];
      AllParsedEntries(front);
    }
  }

  /** When no line parses, there are no entries: every skipped line is
      passed over without ending the loop. */
  lemma {:induction false} NoParsedNoEntries(outcomes: seq<LineOutcome>)
    requires forall i :: 0 <= i < |outcomes| ==> !outcomes[i].Parsed?
    ensures EntriesOf(outcomes) == []
    decreases |outcomes|
  {
    if outcomes != [] {
      NoParsedNoEntries(outcomes[..|outcomes| - 1]);
    }
  }

  /** A text written line by line, each line with its "\n", holds the
      entries of those lines. */
  lemma ParseTerminated(lines: seq<string>)
    requires forall k :: 0 <= k < |lines| ==> '\n' !in lines[k] && '\r' !in lines[k]
    ensures ParseContent(Terminated(lines)) == EntriesOf(Outcomes(lines))
  {
    SplitTerminated(lines);
  }

  /** The entries of a single line's outcome. */
  lemma EntriesOfOne(o: LineOutcome)
    ensures EntriesOf([o]) == if o.Parsed? then [o.entry] else []
  {
    assert [o][..0] == [];
  }

  /** A file the group or others may access, read without `force`, has no
      entries, whatever it contains. */
  lemma TooOpenHasNoEntries(fs: FileSystem, filename: string)
    requires filename in fs && fs[filename].readable && GroupOrOtherAccess(fs[filename].mode)
    ensures EntryList(fs, filename, false) == Success([])
  {
    assert SplitLines("") == [];
  }

  /** With `force`, or on a file only its owner may access, the entries are
      those of the file's content. */
  lemma TrustedFileEntries(fs: FileSystem, filename: string, force: bool)
    requires filename in fs && fs[filename].readable
    requires force || !GroupOrOtherAccess(fs[filename].mode)
    ensures EntryList(fs, filename, force) == Success(ParseContent(fs[filename].content))
  {
  }

  /** A lookup succeeds exactly when the file can be read, and then answers
      `None` exactly when no entry matches. */
  lemma LookupNoneIffNoMatch(fs: FileSystem, filename: string, force: bool, q: Query)
    ensures Lookup(fs, filename, force, q).Success? <==> filename in fs && fs[filename].readable
    ensures Lookup(fs, filename, force, q) == Success(None) <==>
              EntryList(fs, filename, force).Success?
              && forall e :: e in EntryList(fs, filename, force).value ==> !Matches(e, q)
  {
    if EntryList(fs, filename, force).Success? {
      var entries := EntryList(fs, filename, force).value;
      assert forall e :: e in entries <==> exists i :: 0 <= i < |entries| && entries[i] == e;
    }
  }
}
