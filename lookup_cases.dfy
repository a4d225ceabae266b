/** The scenario of `test_get_passwd`: six lines, parsed in file order, and
    ten lookups answered by the first matching line. */
module LookupCases {
  import opened Wrappers
  import opened PyText
  import opened Matching
  import opened LineParser
  import opened PgPass
  import opened PgPassCases

  // ---------------------------------------------------------------------------
  // The six lines and their entries

  const Passwd1 := PgPassEntry(Some("app"), Some(5432), Some("vdc"), Some("glassfish"), "passwd1")
  const Passwd2 := PgPassEntry(Some("app"), Some(5432), None, Some("glassfish"), "passwd2")
  const Passwd3 := PgPassEntry(Some("app"), Some(5432), None, Some("uhu"), "passwd3")
  const Passwd4 := PgPassEntry(Some("app"), Some(5432), None, None, "passwd4")
  const Passwd5 := PgPassEntry(Some("app"), Some(5434), None, Some("glassfish"), "passwd5")
  const Passwd6 := PgPassEntry(Some("localhost"), Some(5432), None, Some("glassfish"), "passwd6")

  /** The entries of the file, in file order. */
  const PasswdEntries := [Passwd1, Passwd2, Passwd3, Passwd4, Passwd5, Passwd6]

  lemma FormatPort5434()
    ensures FormatPort(5434) == "5434"
  {
    assert Decimal(5) == "5";
    assert Decimal(54) == "54";
    assert Decimal(543) == "543";
    assert Decimal(5434) == "5434";
  }

  /** The host names of the file are written as they are. */
  lemma PasswdHosts()
    ensures Escape("app") == "app" && Escape("localhost") == "localhost"
  {
    EscapePlain("app");
    EscapePlain("localhost");
  }

  /** The database and user names of the file are written as they are. */
  lemma PasswdWords()
    ensures Escape("vdc") == "vdc" && Escape("uhu") == "uhu" && Escape("glassfish") == "glassfish"
  {
    EscapePlain("vdc");
    EscapePlain("uhu");
    EscapePlain("glassfish");
  }

  /** The two ports of the file are written in decimal. */
  lemma PasswdPorts()
    ensures FormatPortField(Some(5432)) == "5432" && FormatPortField(Some(5434)) == "5434"
  {
    FormatPort5432();
    FormatPort5434();
  }

  /** The passwords of the file are written as they are. */
  lemma PasswdPasswords()
    ensures Escape("passwd1") == "passwd1" && Escape("passwd2") == "passwd2"
    ensures Escape("passwd3") == "passwd3" && Escape("passwd4") == "passwd4"
    ensures Escape("passwd5") == "passwd5" && Escape("passwd6") == "passwd6"
  {
    EscapePlain("passwd1");
    EscapePlain("passwd2");
    EscapePlain("passwd3");
    EscapePlain("passwd4");
    EscapePlain("passwd5");
    EscapePlain("passwd6");
  }

  lemma Line1()
    ensures ParseLine(JoinFields(["app", "5432", "vdc", "glassfish", "passwd1"])) == Parsed(Passwd1)
  {
    PasswdHosts();
    PasswdWords();
    PasswdPorts();
    PasswdPasswords();
    PlainLine(Passwd1, ["app", "5432", "vdc", "glassfish", "passwd1"]);
  }

  lemma Line2()
    ensures ParseLine(JoinFields(["app", "5432", "*", "glassfish", "passwd2"])) == Parsed(Passwd2)
  {
    PasswdHosts();
    PasswdWords();
    PasswdPorts();
    PasswdPasswords();
    PlainLine(Passwd2, ["app", "5432", "*", "glassfish", "passwd2"]);
  }

  lemma Line3()
    ensures ParseLine(JoinFields(["app", "5432", "*", "uhu", "passwd3"])) == Parsed(Passwd3)
  {
    PasswdHosts();
    PasswdWords();
    PasswdPorts();
    PasswdPasswords();
    PlainLine(Passwd3, ["app", "5432", "*", "uhu", "passwd3"]);
  }

  lemma Line4()
    ensures ParseLine(JoinFields(["app", "5432", "*", "*", "passwd4"])) == Parsed(Passwd4)
  {
    PasswdHosts();
    PasswdWords();
    PasswdPorts();
    PasswdPasswords();
    PlainLine(Passwd4, ["app", "5432", "*", "*", "passwd4"]);
  }

  lemma Line5()
    ensures ParseLine(JoinFields(["app", "5434", "*", "glassfish", "passwd5"])) == Parsed(Passwd5)
  {
    PasswdHosts();
    PasswdWords();
    PasswdPorts();
    PasswdPasswords();
    PlainLine(Passwd5, ["app", "5434", "*", "glassfish", "passwd5"]);
  }

  lemma Line6()
    ensures ParseLine(JoinFields(["localhost", "5432", "*", "glassfish", "passwd6"])) == Parsed(Passwd6)
  {
    PasswdHosts();
    PasswdWords();
    PasswdPorts();
    PasswdPasswords();
    PlainLine(Passwd6, ["localhost", "5432", "*", "glassfish", "passwd6"]);
  }

  /** Six lines written one per line are parsed line by line. */
  lemma TerminatedSix(l0: string, l1: string, l2: string, l3: string, l4: string, l5: string)
    requires OneLine(l0) && OneLine(l1) && OneLine(l2) && OneLine(l3) && OneLine(l4) && OneLine(l5)
    ensures ParseContent(Terminated([l0, l1, l2, l3, l4, l5])) == EntriesOf(Outcomes([l0, l1, l2, l3, l4, l5]))
  {
    var lines := [l0, l1, l2, l3, l4, l5];
    assert forall k :: 0 <= k < |lines| ==> OneLine(lines[k]);
    ParseTerminated(lines);
  }

  /** Three lines are parsed one by one. */
  lemma ThreeOutcomes(l0: string, l1: string, l2: string)
    ensures Outcomes([l0, l1, l2]) == [ParseLine(l0), ParseLine(l1), ParseLine(l2)]
  {
    assert [l0][..0] == [];
    assert Outcomes([l0]) == [ParseLine(l0)];
    assert [l0, l1][..1] == [l0];
    assert Outcomes([l0, l1]) == [ParseLine(l0), ParseLine(l1)];
    assert [l0, l1, l2][..2] == [l0, l1];
  }

  /** Six lines are parsed as their first three and then their last three. */
  lemma SixOutcomes(l0: string, l1: string, l2: string, l3: string, l4: string, l5: string,
                    o0: LineOutcome, o1: LineOutcome, o2: LineOutcome,
                    o3: LineOutcome, o4: LineOutcome, o5: LineOutcome)
    requires Outcomes([l0, l1, l2]) == [o0, o1, o2] && Outcomes([l3, l4, l5]) == [o3, o4, o5]
    ensures Outcomes([l0, l1, l2, l3, l4, l5]) == [o0, o1, o2, o3, o4, o5]
  {
    assert [l0, l1, l2, l3, l4, l5] == [l0, l1, l2] + [l3, l4, l5];
    OutcomesAppend([l0, l1, l2], [l3, l4, l5]);
    assert [o0, o1, o2] + [o3, o4, o5] == [o0, o1, o2, o3, o4, o5];
  }

  /** Six accepted lines give their six entries, in order. */
  lemma SixEntries(e0: PgPassEntry, e1: PgPassEntry, e2: PgPassEntry,
                   e3: PgPassEntry, e4: PgPassEntry, e5: PgPassEntry)
    ensures EntriesOf([Parsed(e0), Parsed(e1), Parsed(e2), Parsed(e3), Parsed(e4), Parsed(e5)]) ==
              [e0, e1, e2, e3, e4, e5]
  {
    var os := [Parsed(e0), Parsed(e1), Parsed(e2), Parsed(e3), Parsed(e4), Parsed(e5)];
    AllParsedEntries(os);
    var r := EntriesOf(os);
    assert r[0] == e0 && r[1] == e1 && r[2] == e2 && r[3] == e3 && r[4] == e4 && r[5] == e5;
  }

  lemma PasswdOneLineA()
    ensures OneLine(JoinFields(["app", "5432", "vdc", "glassfish", "passwd1"]))
    ensures OneLine(JoinFields(["app", "5432", "*", "glassfish", "passwd2"]))
  {
    JoinOneLine(["app", "5432", "vdc", "glassfish", "passwd1"]);
    JoinOneLine(["app", "5432", "*", "glassfish", "passwd2"]);
  }

  lemma PasswdOneLineB()
    ensures OneLine(JoinFields(["app", "5432", "*", "uhu", "passwd3"]))
    ensures OneLine(JoinFields(["app", "5432", "*", "*", "passwd4"]))
  {
    JoinOneLine(["app", "5432", "*", "uhu", "passwd3"]);
    JoinOneLine(["app", "5432", "*", "*", "passwd4"]);
  }

  lemma PasswdOneLineC()
    ensures OneLine(JoinFields(["app", "5434", "*", "glassfish", "passwd5"]))
    ensures OneLine(JoinFields(["localhost", "5432", "*", "glassfish", "passwd6"]))
  {
    JoinOneLine(["app", "5434", "*", "glassfish", "passwd5"]);
    JoinOneLine(["localhost", "5432", "*", "glassfish", "passwd6"]);
  }

  /** The file of `test_get_passwd` holds its six entries in file order. */
  lemma ParsePasswdFile()
    ensures ParseContent(Terminated([
              JoinFields(["app", "5432", "vdc", "glassfish", "passwd1"]),
              JoinFields(["app", "5432", "*", "glassfish", "passwd2"]),
              JoinFields(["app", "5432", "*", "uhu", "passwd3"]),
              JoinFields(["app", "5432", "*", "*", "passwd4"]),
              JoinFields(["app", "5434", "*", "glassfish", "passwd5"]),
              JoinFields(["localhost", "5432", "*", "glassfish", "passwd6"])])) == PasswdEntries
  {
    PasswdOneLineA();
    PasswdOneLineB();
    PasswdOneLineC();
    Line1();
    Line2();
    Line3();
    Line4();
    Line5();
    Line6();
    TerminatedSix(JoinFields(["app", "5432", "vdc", "glassfish", "passwd1"]),
                  JoinFields(["app", "5432", "*", "glassfish", "passwd2"]),
                  JoinFields(["app", "5432", "*", "uhu", "passwd3"]),
                  JoinFields(["app", "5432", "*", "*", "passwd4"]),
                  JoinFields(["app", "5434", "*", "glassfish", "passwd5"]),
                  JoinFields(["localhost", "5432", "*", "glassfish", "passwd6"]));
    ThreeOutcomes(JoinFields(["app", "5432", "vdc", "glassfish", "passwd1"]),
                  JoinFields(["app", "5432", "*", "glassfish", "passwd2"]),
                  JoinFields(["app", "5432", "*", "uhu", "passwd3"]));
    ThreeOutcomes(JoinFields(["app", "5432", "*", "*", "passwd4"]),
                  JoinFields(["app", "5434", "*", "glassfish", "passwd5"]),
                  JoinFields(["localhost", "5432", "*", "glassfish", "passwd6"]));
    SixOutcomes(JoinFields(["app", "5432", "vdc", "glassfish", "passwd1"]),
                JoinFields(["app", "5432", "*", "glassfish", "passwd2"]),
                JoinFields(["app", "5432", "*", "uhu", "passwd3"]),
                JoinFields(["app", "5432", "*", "*", "passwd4"]),
                JoinFields(["app", "5434", "*", "glassfish", "passwd5"]),
                JoinFields(["localhost", "5432", "*", "glassfish", "passwd6"]),
                Parsed(Passwd1), Parsed(Passwd2), Parsed(Passwd3),
                Parsed(Passwd4), Parsed(Passwd5), Parsed(Passwd6));
    SixEntries(Passwd1, Passwd2, Passwd3, Passwd4, Passwd5, Passwd6);
  }

  // ---------------------------------------------------------------------------
  // The ten lookups

  /** The names in the queries and in the file are in lower case. */
  lemma QueryHostsLower()
    ensures Lower("app") == "app" && Lower("localhost") == "localhost" && Lower("somewhere") == "somewhere"
  {
    LowerNoUpper("app");
    LowerNoUpper("localhost");
    LowerNoUpper("somewhere");
  }

  lemma QueryWordsLower()
    ensures Lower("vdc") == "vdc" && Lower("bla") == "bla"
    ensures Lower("glassfish") == "glassfish" && Lower("uhu") == "uhu" && Lower("itsme") == "itsme"
  {
    LowerNoUpper("vdc");
    LowerNoUpper("bla");
    LowerNoUpper("glassfish");
    LowerNoUpper("uhu");
    LowerNoUpper("itsme");
  }

  /** A query that none of the six entries matches has no password. */
  lemma NoneOfSix(q: Query)
    requires !Matches(Passwd1, q) && !Matches(Passwd2, q) && !Matches(Passwd3, q)
    requires !Matches(Passwd4, q) && !Matches(Passwd5, q) && !Matches(Passwd6, q)
    ensures FirstMatch(PasswdEntries, q) == None
  {
    forall i | 0 <= i < |PasswdEntries|
      ensures !Matches(PasswdEntries[i], q)
    {
      if i == 0 { assert PasswdEntries[i] == Passwd1; }
      else if i == 1 { assert PasswdEntries[i] == Passwd2; }
      else if i == 2 { assert PasswdEntries[i] == Passwd3; }
      else if i == 3 { assert PasswdEntries[i] == Passwd4; }
      else if i == 4 { assert PasswdEntries[i] == Passwd5; }
      else { assert PasswdEntries[i] == Passwd6; }
    }
  }

  /** The line naming the database answers before the wildcard lines after it. */
  lemma ExactLineFirst()
    ensures FirstMatch(PasswdEntries, Query("app", 5432, "vdc", "glassfish")) == Some("passwd1")
  {
    var q := Query("app", 5432, "vdc", "glassfish");
    QueryHostsLower();
    QueryWordsLower();
    FirstMatchAt(PasswdEntries, q, 0);
  }

  /** Another database falls through to the line with a wildcard database. */
  lemma WildcardDatabase()
    ensures FirstMatch(PasswdEntries, Query("app", 5432, "bla", "glassfish")) == Some("passwd2")
  {
    var q := Query("app", 5432, "bla", "glassfish");
    QueryHostsLower();
    QueryWordsLower();
    assert !Matches(Passwd1, q);
    assert forall j :: 0 <= j < 1 ==> PasswdEntries[j] == [Passwd1][j];
    FirstMatchAt(PasswdEntries, q, 1);
  }

  /** The user `uhu` is answered by its own line, whatever the database. */
  lemma UserUhuWithVdc()
    ensures FirstMatch(PasswdEntries, Query("app", 5432, "vdc", "uhu")) == Some("passwd3")
  {
    var q := Query("app", 5432, "vdc", "uhu");
    QueryHostsLower();
    QueryWordsLower();
    assert !Matches(Passwd1, q);
    assert !Matches(Passwd2, q);
    assert forall j :: 0 <= j < 2 ==> PasswdEntries[j] == [Passwd1, Passwd2][j];
    FirstMatchAt(PasswdEntries, q, 2);
  }

  lemma UserUhuWithBla()
    ensures FirstMatch(PasswdEntries, Query("app", 5432, "bla", "uhu")) == Some("passwd3")
  {
    var q := Query("app", 5432, "bla", "uhu");
    QueryHostsLower();
    QueryWordsLower();
    assert !Matches(Passwd1, q);
    assert !Matches(Passwd2, q);
    assert forall j :: 0 <= j < 2 ==> PasswdEntries[j] == [Passwd1, Passwd2][j];
    FirstMatchAt(PasswdEntries, q, 2);
  }

  /** An unknown user falls through to the line with wildcard database and user. */
  lemma WildcardUser()
    ensures FirstMatch(PasswdEntries, Query("app", 5432, "bla", "itsme")) == Some("passwd4")
  {
    var q := Query("app", 5432, "bla", "itsme");
    QueryHostsLower();
    QueryWordsLower();
    assert !Matches(Passwd1, q);
    assert !Matches(Passwd2, q);
    assert !Matches(Passwd3, q);
    assert forall j :: 0 <= j < 3 ==> PasswdEntries[j] == [Passwd1, Passwd2, Passwd3][j];
    FirstMatchAt(PasswdEntries, q, 3);
  }

  /** The port is part of the key: port 5434 skips the lines for 5432. */
  lemma OtherPort()
    ensures FirstMatch(PasswdEntries, Query("app", 5434, "bla", "glassfish")) == Some("passwd5")
  {
    var q := Query("app", 5434, "bla", "glassfish");
    QueryHostsLower();
    QueryWordsLower();
    assert !Matches(Passwd1, q);
    assert !Matches(Passwd2, q);
    assert !Matches(Passwd3, q);
    assert !Matches(Passwd4, q);
    assert forall j :: 0 <= j < 4 ==> PasswdEntries[j] == [Passwd1, Passwd2, Passwd3, Passwd4][j];
    FirstMatchAt(PasswdEntries, q, 4);
  }

  /** No line for port 5434 accepts an unknown user. */
  lemma OtherPortUnknownUser()
    ensures FirstMatch(PasswdEntries, Query("app", 5434, "bla", "itsme")) == None
  {
    var q := Query("app", 5434, "bla", "itsme");
    QueryHostsLower();
    QueryWordsLower();
    NoneOfSix(q);
  }

  /** The host is part of the key: `localhost` skips the lines for `app`. */
  lemma OtherHost()
    ensures FirstMatch(PasswdEntries, Query("localhost", 5432, "bla", "glassfish")) == Some("passwd6")
  {
    var q := Query("localhost", 5432, "bla", "glassfish");
    QueryHostsLower();
    QueryWordsLower();
    assert !Matches(Passwd1, q);
    assert !Matches(Passwd2, q);
    assert !Matches(Passwd3, q);
    assert !Matches(Passwd4, q);
    assert !Matches(Passwd5, q);
    assert forall j :: 0 <= j < 5 ==> PasswdEntries[j] == [Passwd1, Passwd2, Passwd3, Passwd4, Passwd5][j];
    FirstMatchAt(PasswdEntries, q, 5);
  }

  /** No line for `localhost` accepts an unknown user. */
  lemma OtherHostUnknownUser()
    ensures FirstMatch(PasswdEntries, Query("localhost", 5432, "bla", "itsme")) == None
  {
    var q := Query("localhost", 5432, "bla", "itsme");
    QueryHostsLower();
    QueryWordsLower();
    NoneOfSix(q);
  }

  /** No line names the host `somewhere`. */
  lemma UnknownHost()
    ensures FirstMatch(PasswdEntries, Query("somewhere", 5432, "bla", "glassfish")) == None
  {
    var q := Query("somewhere", 5432, "bla", "glassfish");
    QueryHostsLower();
    QueryWordsLower();
    NoneOfSix(q);
  }

  /** `get_passwd` on the file of `test_get_passwd`, readable by its owner
      only, answers every query with the first of the six entries that
      matches it. */
  lemma PasswdFileLookup(fs: FileSystem, filename: string, q: Query)
    requires filename in fs
    requires fs[filename] == FileInfo(OwnerOnly, true, Terminated([
               JoinFields(["app", "5432", "vdc", "glassfish", "passwd1"]),
               JoinFields(["app", "5432", "*", "glassfish", "passwd2"]),
               JoinFields(["app", "5432", "*", "uhu", "passwd3"]),
               JoinFields(["app", "5432", "*", "*", "passwd4"]),
               JoinFields(["app", "5434", "*", "glassfish", "passwd5"]),
               JoinFields(["localhost", "5432", "*", "glassfish", "passwd6"])]))
    ensures Lookup(fs, filename, false, q) == Success(FirstMatch(PasswdEntries, q))
  {
    assert !GroupOrOtherAccess(OwnerOnly);
    TrustedFileEntries(fs, filename, false);
    ParsePasswdFile();
  }
}
