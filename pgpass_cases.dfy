/** The scenarios of the unit tests for `PgPassFile`, stated over the model:
    the permission gate and three small files (the lookups are in
    `LookupCases`). */
module PgPassCases {
  import opened Wrappers
  import opened PyText
  import opened Matching
  import opened LineParser
  import opened PgPass

  // ---------------------------------------------------------------------------
  // `test_read_pgpass`: the file holds "bla\n"

  /** Mode 0o600: only the owner may read and write. */
  const OwnerOnly: Mode := 0x180
  /** Mode 0o644: the group and others may read. */
  const WorldReadable: Mode := 0x1A4

  /** A file only its owner may access is read as it is; once the group and
      others may read it, it reads as empty unless `force` is set; a path
      that does not exist is an error. */
  lemma ReadGate()
    ensures Read(map["f" := FileInfo(OwnerOnly, true, "bla\n")], "f", false) == Success("bla\n")
    ensures Read(map["f" := FileInfo(WorldReadable, true, "bla\n")], "f", false) == Success("")
    ensures Read(map["f" := FileInfo(WorldReadable, true, "bla\n")], "f", true) == Success("bla\n")
  {
    assert !GroupOrOtherAccess(OwnerOnly);
    assert GroupOrOtherAccess(WorldReadable);
  }

  /** A path that is not in the file system is reported as missing before
      anything else is looked at. */
  lemma ReadMissing()
    ensures Read(map["f" := FileInfo(OwnerOnly, true, "bla\n")], "g", false) == Failure(NotExists("g"))
  {
  }

  // ---------------------------------------------------------------------------
  // Shapes shared by the scenarios

  /** A line of plain fields reads as the entry it writes. */
  lemma PlainLine(e: PgPassEntry, fields: seq<string>)
    requires LineWritable(e)
    requires fields == [FormatField(e.hostname), FormatPortField(e.port), FormatField(e.database),
                        FormatField(e.username), Escape(e.password)]
    ensures ParseLine(JoinFields(fields)) == Parsed(e)
  {
    JoinFive(fields[0], fields[1], fields[2], fields[3], fields[4]);
    ParseFormatLine(e);
  }

  // ---------------------------------------------------------------------------
  // `test_parse_entries1`: two entries, a comment and an empty line.  Lines
  // with five fields are written as their fields joined with colons:
  // `JoinFields(["app", "5432", "*", "uhu", "passwd3"])` is `app:5432:*:uhu:passwd3`.

  const LocalhostEntry := PgPassEntry(Some("localhost"), Some(5432), None, Some("glassfish"), "ov4Lael3ugoh")
  const App1Entry := PgPassEntry(Some("app1"), Some(5432), None, Some("glassfish"), "ov4Lael3ugoh")

  /** The words of `test_parse_entries1` are written as they are. */
  lemma Entries1Words()
    ensures Escape("localhost") == "localhost" && Escape("app1") == "app1"
    ensures Escape("glassfish") == "glassfish" && Escape("ov4Lael3ugoh") == "ov4Lael3ugoh"
    ensures FormatPortField(Some(5432)) == "5432"
  {
    EscapePlain("localhost");
    EscapePlain("app1");
    EscapePlain("glassfish");
    EscapePlain("ov4Lael3ugoh");
    FormatPort5432();
  }

  lemma LocalhostLine()
    ensures ParseLine(JoinFields(["localhost", "5432", "*", "glassfish", "ov4Lael3ugoh"])) == Parsed(LocalhostEntry)
  {
    Entries1Words();
    PlainLine(LocalhostEntry, ["localhost", "5432", "*", "glassfish", "ov4Lael3ugoh"]);
  }

  lemma App1Line()
    ensures ParseLine(JoinFields(["app1", "5432", "*", "glassfish", "ov4Lael3ugoh"])) == Parsed(App1Entry)
  {
    Entries1Words();
    PlainLine(App1Entry, ["app1", "5432", "*", "glassfish", "ov4Lael3ugoh"]);
  }

  lemma CommentLine()
    ensures ParseLine("# bla bla") == Comment
  {
    StripUnchanged("# bla bla");
    assert !IsSpace("# bla bla"[0]);
  }

  /** Four lines, each written with its line feed, read back as those lines. */
  lemma TerminatedFour(l0: string, l1: string, l2: string, l3: string)
    requires OneLine(l0) && OneLine(l1) && OneLine(l2) && OneLine(l3)
    ensures ParseContent(Terminated([l0, l1, l2, l3])) == EntriesOf(Outcomes([l0, l1, l2, l3]))
  {
    var lines := [l0, l1, l2, l3];
    assert forall k :: 0 <= k < |lines| ==> OneLine(lines[k]);
    ParseTerminated(lines);
  }

  /** An entry, a comment, an entry and a blank line hold the two entries. */
  lemma EntryCommentEntryBlankOutcomes(e0: PgPassEntry, e2: PgPassEntry)
    ensures EntriesOf([Parsed(e0), Comment, Parsed(e2), Blank]) == [e0, e2]
  {
    var os := [Parsed(e0), Comment, Parsed(e2), Blank];
    assert os == [Parsed(e0)] + [Comment] + [Parsed(e2)] + [Blank];
    EntriesOfAppend([Parsed(e0)] + [Comment] + [Parsed(e2)], [Blank]);
    EntriesOfAppend([Parsed(e0)] + [Comment], [Parsed(e2)]);
    EntriesOfAppend([Parsed(e0)], [Comment]);
    EntriesOfOne(Parsed(e0));
    EntriesOfOne(Comment);
    EntriesOfOne(Parsed(e2));
    EntriesOfOne(Blank);
  }

  /** Four lines are parsed one by one. */
  lemma FourOutcomes(l0: string, l1: string, l2: string, l3: string)
    ensures Outcomes([l0, l1, l2, l3]) == [ParseLine(l0), ParseLine(l1), ParseLine(l2), ParseLine(l3)]
  {
    assert [l0][..0] == [];
    assert Outcomes([l0]) == [ParseLine(l0)];
    assert [l0, l1][..1] == [l0];
    assert Outcomes([l0, l1]) == [ParseLine(l0), ParseLine(l1)];
    assert [l0, l1, l2][..2] == [l0, l1];
    assert Outcomes([l0, l1, l2]) == [ParseLine(l0), ParseLine(l1), ParseLine(l2)];
    assert [l0, l1, l2, l3][..3] == [l0, l1, l2];
  }

  /** The written entry lines of `test_parse_entries1` hold no line break. */
  lemma Entries1OneLine()
    ensures OneLine(JoinFields(["localhost", "5432", "*", "glassfish", "ov4Lael3ugoh"]))
    ensures OneLine(JoinFields(["app1", "5432", "*", "glassfish", "ov4Lael3ugoh"]))
  {
    JoinOneLine(["localhost", "5432", "*", "glassfish", "ov4Lael3ugoh"]);
    JoinOneLine(["app1", "5432", "*", "glassfish", "ov4Lael3ugoh"]);
  }

  /** `test_parse_entries1`: the comment and the empty line are skipped and
      the two entries are kept in file order. */
  lemma ParseEntries1()
    ensures ParseContent(Terminated([
              JoinFields(["localhost", "5432", "*", "glassfish", "ov4Lael3ugoh"]),
              "# bla bla",
              JoinFields(["app1", "5432", "*", "glassfish", "ov4Lael3ugoh"]),
              ""])) == [LocalhostEntry, App1Entry]
  {
    Entries1OneLine();
    TerminatedFour(JoinFields(["localhost", "5432", "*", "glassfish", "ov4Lael3ugoh"]), "# bla bla",
                   JoinFields(["app1", "5432", "*", "glassfish", "ov4Lael3ugoh"]), "");
    LocalhostLine();
    CommentLine();
    App1Line();
    FourOutcomes(JoinFields(["localhost", "5432", "*", "glassfish", "ov4Lael3ugoh"]), "# bla bla",
                 JoinFields(["app1", "5432", "*", "glassfish", "ov4Lael3ugoh"]), "");
    EntryCommentEntryBlankOutcomes(LocalhostEntry, App1Entry);
  }

  // ---------------------------------------------------------------------------
  // `test_parse_entries2`: a line with too few fields and a line whose port
  // `int()` rejects; neither gives an entry.

  /** The words of `test_parse_entries2` hold no colon. */
  lemma Entries2Words()
    ensures NoSeparator("localhost") && NoSeparator("5432") && NoSeparator("")
    ensures NoSeparator("app1") && NoSeparator("5432tt") && NoSeparator("*")
    ensures NoSeparator("glassfish")
  {
    NoColonNoSeparator("localhost");
    NoColonNoSeparator("5432");
    NoColonNoSeparator("app1");
    NoColonNoSeparator("5432tt");
    NoColonNoSeparator("*");
    NoColonNoSeparator("glassfish");
  }

  /** `localhost:5432:` has three fields and is skipped. */
  lemma ShortLine()
    ensures ParseLine(JoinFields(["localhost", "5432", ""])) == WrongFieldCount(3)
  {
    var fields := ["localhost", "5432", ""];
    var line := JoinFields(fields);
    Entries2Words();
    assert fields[1..] == ["5432", ""] && fields[1..][1..] == [""];
    assert Splittable(fields);
    SplitFieldsOfJoin(fields, 4);
    assert line == "localhost" + ":" + ("5432" + ":" + "");
    assert line[0] == 'l' && line[|line| - 1] == ':';
    StripUnchanged(line);
  }

  /** `app1:5432tt:*:glassfish:ov4Lael3ugoh` has a port `int()` rejects and
      is skipped. */
  lemma BadPortLine()
    ensures ParseLine(JoinFields(["app1", "5432tt", "*", "glassfish", "ov4Lael3ugoh"])) == InvalidPort("5432tt")
  {
    Entries2Words();
    FiveFieldLine("app1", "5432tt", "*", "glassfish", "ov4Lael3ugoh");
    ParsePortRejects();
    ParseRejectedPort(JoinFields(["app1", "5432tt", "*", "glassfish", "ov4Lael3ugoh"]),
                      ["app1", "5432tt", "*", "glassfish", "ov4Lael3ugoh"]);
  }

  /** The written lines of `test_parse_entries2` hold no line break. */
  lemma Entries2OneLine()
    ensures OneLine(JoinFields(["localhost", "5432", ""]))
    ensures OneLine(JoinFields(["app1", "5432tt", "*", "glassfish", "ov4Lael3ugoh"]))
  {
    JoinOneLine(["localhost", "5432", ""]);
    JoinOneLine(["app1", "5432tt", "*", "glassfish", "ov4Lael3ugoh"]);
  }

  /** None of the outcomes of `test_parse_entries2` is an entry. */
  lemma Entries2Outcomes()
    ensures EntriesOf([WrongFieldCount(3), Comment, InvalidPort("5432tt"), Blank]) == []
  {
    NoParsedNoEntries([WrongFieldCount(3), Comment, InvalidPort("5432tt"), Blank]);
  }

  /** `test_parse_entries2`: a short line, a comment, a line with a bad port
      and an empty line give no entry, and the bad lines do not stop the
      parse. */
  lemma ParseEntries2()
    ensures ParseContent(Terminated([
              JoinFields(["localhost", "5432", ""]),
              "# bla bla",
              JoinFields(["app1", "5432tt", "*", "glassfish", "ov4Lael3ugoh"]),
              ""])) == []
  {
    Entries2OneLine();
    TerminatedFour(JoinFields(["localhost", "5432", ""]), "# bla bla",
                   JoinFields(["app1", "5432tt", "*", "glassfish", "ov4Lael3ugoh"]), "");
    ShortLine();
    CommentLine();
    BadPortLine();
    FourOutcomes(JoinFields(["localhost", "5432", ""]), "# bla bla",
                 JoinFields(["app1", "5432tt", "*", "glassfish", "ov4Lael3ugoh"]), "");
    Entries2Outcomes();
  }

  // ---------------------------------------------------------------------------
  // `test_parse_entries3`: escaped backslashes and colons in the fields and
  // further colons in the password, `local\host:5432:*:glass\:fish:ov:La\:nel3::oh`.

  const EscapedEntry := PgPassEntry(Some("local\\host"), Some(5432), None, Some("glass:fish"), "ov:La:nel3::oh")

  /** The line of `test_parse_entries3` is stripped, is not a comment and
      splits into its five fields: the escaped colon in the user is not a
      separator, and the colons in the last field are never split at. */
  lemma EscapedLineFields()
    ensures var line := JoinFields(["local\\host", "5432", "*", "glass\\:fish", "ov:La\\:nel3::oh"]);
            Strip(line) == line && line != [] && line[0] != '#'
            && SplitFields(line, 4) == ["local\\host", "5432", "*", "glass\\:fish", "ov:La\\:nel3::oh"]
  {
    NoColonNoSeparator("local\\host");
    NoColonNoSeparator("5432");
    NoColonNoSeparator("*");
    assert "glass\\:fish" == "glass" + "\\:" + "fish";
    EscapedColonNoSeparator("glass", "fish");
    FiveFieldLine("local\\host", "5432", "*", "glass\\:fish", "ov:La\\:nel3::oh");
  }

  /** The host keeps its lone backslash. */
  lemma Entries3Host()
    ensures Unescape("local\\host") == "local\\host"
  {
    assert "local\\host" == "local" + "\\" + "host";
    UnescapeLoneBackslash("local", "host");
  }

  /** The user's escaped colon unescapes to a colon. */
  lemma Entries3User()
    ensures Unescape("glass\\:fish") == "glass:fish"
  {
    assert "glass\\:fish" == "glass" + "\\:" + "fish";
    UnescapeEscapedColon("glass", "fish");
    assert "glass" + ":" + "fish" == "glass:fish";
  }

  /** The password keeps its unescaped colons and loses the backslash of the
      escaped one. */
  lemma Entries3Password()
    ensures Unescape("ov:La\\:nel3::oh") == "ov:La:nel3::oh"
  {
    assert "ov:La\\:nel3::oh" == "ov:La" + "\\:" + "nel3::oh";
    UnescapeEscapedColon("ov:La", "nel3::oh");
    assert "ov:La" + ":" + "nel3::oh" == "ov:La:nel3::oh";
  }

  lemma EscapedLine()
    ensures ParseLine(JoinFields(["local\\host", "5432", "*", "glass\\:fish", "ov:La\\:nel3::oh"])) == Parsed(EscapedEntry)
  {
    EscapedLineFields();
    ParsePortAccepts();
    ParseFiveFields(JoinFields(["local\\host", "5432", "*", "glass\\:fish", "ov:La\\:nel3::oh"]),
                    ["local\\host", "5432", "*", "glass\\:fish", "ov:La\\:nel3::oh"]);
    Entries3Host();
    Entries3User();
    Entries3Password();
  }

  /** The line of `test_parse_entries3` holds no line break. */
  lemma Entries3OneLine()
    ensures OneLine(JoinFields(["local\\host", "5432", "*", "glass\\:fish", "ov:La\\:nel3::oh"]))
  {
    JoinOneLine(["local\\host", "5432", "*", "glass\\:fish", "ov:La\\:nel3::oh"]);
  }

  /** `test_parse_entries3`: the single line gives one entry with the
      unescaped values. */
  lemma ParseEntries3()
    ensures ParseContent(Terminated([JoinFields(["local\\host", "5432", "*", "glass\\:fish", "ov:La\\:nel3::oh"])]))
              == [EscapedEntry]
  {
    var line := JoinFields(["local\\host", "5432", "*", "glass\\:fish", "ov:La\\:nel3::oh"]);
    Entries3OneLine();
    ParseTerminated([line]);
    EscapedLine();
    assert [line][..0] == [];
    EntriesOfOne(Parsed(EscapedEntry));
  }
}
