# The `.pgpass` credential file of `pb_dbhandler`, in Dafny

This project models the credential-file subsystem of `pb_dbhandler`, found in
`src/pb_dbhandler/pgpass.py`. Given a host, a port, a database and a user, it
answers which password applies. It has four parts.

- **Permission gate (`PgPassFile.read`).** A missing file and an unreadable
  file are errors. A file that the group or others may access reads as empty
  unless `force` is set. The constructor checks that the path exists.
- **Line parser (the loop body of `PgPassFile.entries`).** Each line is
  stripped. Blank lines and lines starting with `#` are skipped. The line is
  split at most four times, on colons not preceded by a backslash. Lines with
  fewer than five fields are skipped, and so are lines whose port `int()`
  rejects. A field that is exactly `*` is the wildcard. Every other field is
  unescaped with `\\`→`\` and then `\:`→`:`.
- **Entry list (`PgPassFile.entries`).** The accepted lines, in file order,
  without deduplication. The file is read again on every call.
- **Matcher (`PgPassEntry.match`, `PgPassFile.get_passwd`).** Host, database
  and user are compared after `lower()`, the port as an integer. A `None` field
  of an entry matches anything. The first matching entry in file order gives
  the password, and `None` means that no entry matched.

Modules, one per file:

- `Wrappers`: `Option` and `Result`.
- `PyText`: the Python 2 byte-string operations the parser relies on: `strip`,
  `splitlines` and `lower`.
- `Matching`: `PgPassEntry`, the query, `match`, and the first-match search.
- `LineParser`: splitting at separators, unescaping, `int()` on the port, and
  the parse of one line. It also has a writer (`FormatLine`) that serves as
  the parser's inverse in the proofs.
- `PgPass`: the file system as a value, the permission gate, the entry list,
  and the class `PgPassFile` with the methods `Entries`, `ParseLines` and
  `GetPasswd`. `Entries` reads the file, splits it into lines and hands them
  to `ParseLines`; it is proved equal to the specification function
  `EntryList`. `ParseLines` and `GetPasswd` hold the loops: they are proved
  equal to `EntriesOf(Outcomes(lines))` and to `Lookup`.
- `PgPassCases` and `LookupCases`: the unit-test files of
  `test/test_pgpass.py`, written as the lines the test writes, with the
  entries and passwords the tests expect.

The file system is a value passed to every call: a map from path to mode bits,
readability and content. `Entries` and `GetPasswd` are specified as functions
of that value, `filename` and `force`. So two calls on an unchanged file
return equal results; no state is cached between calls.

About escaping, the parser does not invert every escaping. `UnescapeEscape`
proves `Unescape(Escape(v)) == v` only for the model's own writer `Escape`,
which writes `\` as `\\` and `:` as `\:`. This round trip holds value by value.
The converse fails: `UnescapeNotInjective` shows three different raw fields
(`\\:`, `\:` and `:`) that all unescape to `:`. So no escaping function can be
recovered from what the parser returns. `BackslashPairBeforeColon` shows the
quirk behind this: an escaped backslash before a colon hides the colon from
the splitter, and the field reads as a bare colon. For that reason a value
ending in a backslash is not writable (`Writable`). `ParseFormatLine` proves
that every writable entry's line parses back to the entry.

## Model

| member | source | states |
|---|---|---|
| `PgPass.Read` | src/pb_dbhandler/pgpass.py:426-451 | It fails with `NotExists` exactly when the path is missing, and with `NotReadable` exactly when the file exists but cannot be read. Without `force`, a file with any group or other bit reads as `""`. With `force` or an owner-only mode, the content comes back unchanged. |
| `PgPass.PgPassFile.Open` | src/pb_dbhandler/pgpass.py:350-357 | Without a file name the default path is used. It fails with `NotExists` exactly when that path is missing. Otherwise it returns a fresh object holding the path and `force`. |
| `PgPass.PgPassFile.Entries` | src/pb_dbhandler/pgpass.py:466-471 | The result is `EntryList` of the file system: read errors propagate, and empty content gives no entries. Otherwise it returns the parsed entries of the content. |
| `PgPass.PgPassFile.ParseLines` | src/pb_dbhandler/pgpass.py:477-531 | The loop that appends each accepted line's entry yields `EntriesOf(Outcomes(lines))`, the entries of the line-by-line outcomes in order. |
| `PgPass.PgPassFile.GetPasswd` | src/pb_dbhandler/pgpass.py:553-579 | The loop that breaks at the first match returns `Lookup`: the read error, or `FirstMatch` over the entries. |
| `PgPass.OutcomesAt` | src/pb_dbhandler/pgpass.py:477-529 | The outcome at each position is the parse of the line at that position. |
| `PgPass.OutcomesPointwise` | src/pb_dbhandler/pgpass.py:477-529 | Any list that agrees with the per-line parses at every position is the list of outcomes. |
| `PgPass.OutcomesAppend` | src/pb_dbhandler/pgpass.py:477-529 | No state passes from one line to the next: two runs of lines parse as each run on its own. |
| `PgPass.EntriesOfAppend` | src/pb_dbhandler/pgpass.py:529-531 | The entries of two runs of outcomes are those of the first followed by those of the second. |
| `PgPass.SkippedLine` | src/pb_dbhandler/pgpass.py:480-499 | A line with no entry (blank, comment, too few fields, bad port) drops out. The entries before and after it are kept, and the loop continues. |
| `PgPass.AllParsedEntries` | src/pb_dbhandler/pgpass.py:529 | When every line parses, there is one entry per line, in line order, duplicates included. |
| `PgPass.NoParsedNoEntries` | src/pb_dbhandler/pgpass.py:477-531 | When no line parses, the entry list is empty. |
| `PgPass.ParseTerminated` | src/pb_dbhandler/pgpass.py:477 | Content written line by line, each line ending in `"\n"`, holds the entries of those lines. |
| `PgPass.EntriesOfOne` | src/pb_dbhandler/pgpass.py:529 | One outcome gives its entry if it parsed, and nothing otherwise. |
| `PgPass.TooOpenHasNoEntries` | src/pb_dbhandler/pgpass.py:437-449 | Without `force`, a readable file that the group or others may access has no entries, whatever it contains. |
| `PgPass.TrustedFileEntries` | src/pb_dbhandler/pgpass.py:437-451 | With `force`, or on an owner-only file, the entries are those of the file's content. |
| `PgPass.LookupNoneIffNoMatch` | src/pb_dbhandler/pgpass.py:553-579 | A lookup succeeds exactly when the file exists and is readable. It answers `None` exactly when no entry matches. |
| `Matching.Matches` | src/pb_dbhandler/pgpass.py:248-285 | `match` as its chain of early returns: a set field that differs from the query value rejects, host, database and user after `lower()`, the port as an integer. Its meaning is stated by `MatchesIffAllFieldsAccept`. |
| `Matching.MatchesIffAllFieldsAccept` | src/pb_dbhandler/pgpass.py:248-285 | The early-return chain of `match` accepts exactly when every set field agrees: host, database and user up to case, the port as an integer. |
| `Matching.MatchesIgnoresCase` | src/pb_dbhandler/pgpass.py:269-283 | Queries that agree up to case (and on the port) get the same answer from every entry. |
| `Matching.WildcardEntryMatchesAll` | src/pb_dbhandler/pgpass.py:269-285 | An entry whose four key fields are all wildcards matches every query. |
| `Matching.FirstMatch` | src/pb_dbhandler/pgpass.py:565-569 | The result is `None` exactly when no entry matches. Otherwise it is the password of a matching entry that no earlier entry precedes as a match. |
| `Matching.FirstMatchAt` | src/pb_dbhandler/pgpass.py:565-569 | An entry that matches, with no match before it, supplies the answer, even when a later entry is more specific. |
| `Matching.FirstMatchAppend` | src/pb_dbhandler/pgpass.py:565-569 | Entries after a match are never consulted. |
| `PyText.LStripSplit` | src/pb_dbhandler/pgpass.py:479 | `lstrip` removes a prefix that is all whitespace and keeps the rest. |
| `PyText.RStripSplit` | src/pb_dbhandler/pgpass.py:479 | `rstrip` removes a suffix that is all whitespace and keeps the rest. |
| `PyText.StripEmptyIff` | src/pb_dbhandler/pgpass.py:479-481 | Stripping both ends leaves nothing exactly when the line is all whitespace. |
| `PyText.Strip` | src/pb_dbhandler/pgpass.py:479-481 | The result is no longer than the line, and it is empty exactly when the line is all whitespace. |
| `PyText.StripEnds` | src/pb_dbhandler/pgpass.py:479 | What `strip` leaves neither starts nor ends with whitespace. |
| `PyText.StripUnchanged` | src/pb_dbhandler/pgpass.py:479 | A line with no whitespace at either end is its own strip. |
| `PyText.StripSnocSpace` | src/pb_dbhandler/pgpass.py:479 | Whitespace appended to a line never reaches the result of `strip`. |
| `PyText.SplitLines` | src/pb_dbhandler/pgpass.py:477 | The lines hold no `"\n"` or `"\r"`, and there are none exactly when the text is empty. |
| `PyText.SplitTerminated` | src/pb_dbhandler/pgpass.py:477 | Lines without breaks, each written with `"\n"`, are split back into exactly those lines. |
| `PyText.Lower` | src/pb_dbhandler/pgpass.py:269-283 | `lower()` keeps the length and lower-cases each character. |
| `PyText.LowerIdempotent` | src/pb_dbhandler/pgpass.py:269-283 | Lower-casing twice is lower-casing once. |
| `PyText.LowerNoUpper` | src/pb_dbhandler/pgpass.py:269-283 | A string without upper-case letters is its own lower case. |
| `LineParser.FirstSeparatorFrom` | src/pb_dbhandler/pgpass.py:474 | It returns the first colon not preceded by a backslash, at or after the start: no separator comes before it. |
| `LineParser.SplitFields` | src/pb_dbhandler/pgpass.py:491 | `split(line, 4)` gives between 1 and 5 fields. |
| `LineParser.SplitFieldsJoin` | src/pb_dbhandler/pgpass.py:491 | The fields join back to the line with the colons they were split at. |
| `LineParser.SplitFieldsSplittable` | src/pb_dbhandler/pgpass.py:474-491 | Every field but the last holds no separator and does not end in a backslash. |
| `LineParser.SplitFieldsLast` | src/pb_dbhandler/pgpass.py:474-491 | The last field holds a separator only when four splits were made, so the password keeps its further colons. |
| `LineParser.SplitFieldsOfJoin` | src/pb_dbhandler/pgpass.py:474-491 | Splitting is the only way to get fields that join back to the line: such a field list is recovered from its join. |
| `LineParser.BackslashPairBeforeColon` | src/pb_dbhandler/pgpass.py:474-502 | In `a\\:b` the colon is no separator, and the field unescapes to `a:b`. |
| `LineParser.ResolveField` | src/pb_dbhandler/pgpass.py:501-514 | A field is the wildcard exactly when it is `*`; an empty field is not a wildcard. Any other field is unescaped. |
| `LineParser.CollapseBackslashes` | src/pb_dbhandler/pgpass.py:502 | `replace('\\\\', '\\')`: the result is no longer than the field, and empty exactly when the field is. |
| `LineParser.UnescapeColons` | src/pb_dbhandler/pgpass.py:502 | `replace('\\:', ':')`: the result is no longer than the field, and empty exactly when the field is. |
| `LineParser.Unescape` | src/pb_dbhandler/pgpass.py:502-515 | The two replacements in source order: an empty field stays empty, and every other field keeps at least one character and grows no longer. |
| `LineParser.UnescapeEscape` | src/pb_dbhandler/pgpass.py:502-515 | Both replacements, in order, undo the writer's escaping value by value. |
| `LineParser.UnescapeNotInjective` | src/pb_dbhandler/pgpass.py:502-515 | `\\:`, `\:` and `:` all unescape to `:`, so no escaping is recoverable from unescaped values. |
| `LineParser.UnescapePlain` | src/pb_dbhandler/pgpass.py:515 | A field without backslashes is taken as it is. |
| `LineParser.UnescapeLoneBackslash` | src/pb_dbhandler/pgpass.py:515 | A backslash before neither a backslash nor a colon is kept. |
| `LineParser.UnescapeEscapedColon` | src/pb_dbhandler/pgpass.py:515 | An escaped colon between backslash-free text becomes a colon. |
| `LineParser.EscapeHasNoSeparator` | src/pb_dbhandler/pgpass.py:474 | An escaped value holds no separator. |
| `LineParser.EscapedColonNoSeparator` | src/pb_dbhandler/pgpass.py:474 | A colon right after a backslash is never a separator. |
| `LineParser.ParsePort` | src/pb_dbhandler/pgpass.py:503-510 | What `int()` accepts is, after stripping, an optional sign followed by at least one digit. Without a minus sign the value is non-negative; with one it is non-positive. |
| `LineParser.ParsePortAcceptsExactly` | src/pb_dbhandler/pgpass.py:503-510 | `int()` accepts a field exactly when, stripped, it is an optional sign followed by at least one digit and nothing else. |
| `LineParser.ParsePortSigns` | src/pb_dbhandler/pgpass.py:505 | `+5` is 5 and `-0` is 0; a lone `-` and `- 5` are rejected. |
| `LineParser.ParsePortFormat` | src/pb_dbhandler/pgpass.py:503-510 | Every integer printed in decimal, negative ones included, is read back by `int()`. There is no range check. |
| `LineParser.ParsePortAccepts` | src/pb_dbhandler/pgpass.py:505 | `int("5432")` and `int(" 5432 ")` are 5432. |
| `LineParser.ParsePortRejects` | src/pb_dbhandler/pgpass.py:505-510 | `int()` rejects `5432tt`, the empty field and `*`. |
| `LineParser.ParseLine` | src/pb_dbhandler/pgpass.py:477-529 | The line is blank exactly when it is all whitespace, and a comment exactly when its first visible character is `#`. A wrong field count is too few fields (1 to 4). A rejected port is never `*`. |
| `LineParser.ParseLineIgnoresTrailingSpace` | src/pb_dbhandler/pgpass.py:479 | Appending whitespace to a line changes nothing, even when it would belong to the password. |
| `LineParser.FormatLineFields` | src/pb_dbhandler/pgpass.py:479-491 | The line written for a writable entry is not changed by `strip`, is not a comment, and splits into the fields it was written from. |
| `LineParser.ParseFormatLine` | src/pb_dbhandler/pgpass.py:477-529 | Every writable entry, including one with an empty password, parses back from the line written for it. |
| `PgPassCases.ReadGate` | test/test_pgpass.py:73-109 | An owner-only file reads as `bla\n`. A world-readable one reads as `""` without `force` and as `bla\n` with it. |
| `PgPassCases.ReadMissing` | src/pb_dbhandler/pgpass.py:426-427 | A path that is not in the file system is `NotExists`, whatever else the file system holds. |
| `PgPassCases.ParseEntries1` | test/test_pgpass.py:112-139 | An entry, a comment, an entry and an empty line give the two entries in file order. |
| `PgPassCases.ShortLine` | test/test_pgpass.py:145 | `localhost:5432:` has three fields and is skipped. |
| `PgPassCases.BadPortLine` | test/test_pgpass.py:147 | `app1:5432tt:*:glassfish:ov4Lael3ugoh` is skipped for its port. |
| `PgPassCases.ParseEntries2` | test/test_pgpass.py:142-166 | The corrupt file gives no entries, and the bad lines do not stop the parse. |
| `PgPassCases.EscapedLineFields` | test/test_pgpass.py:172 | The escaped line splits into its five fields. The escaped colon and the password's colons are not split at. |
| `PgPassCases.EscapedLine` | test/test_pgpass.py:172-191 | The escaped line gives host `local\host`, port 5432, any database, user `glass:fish` and password `ov:La:nel3::oh`. |
| `PgPassCases.ParseEntries3` | test/test_pgpass.py:169-195 | The one-line file gives exactly that entry. |
| `LookupCases.ParsePasswdFile` | test/test_pgpass.py:198-209 | The six-line file gives its six entries in file order. |
| `LookupCases.PasswdFileLookup` | test/test_pgpass.py:198-214 | Every lookup on that owner-only file is the first match over those six entries. |
| `LookupCases.ExactLineFirst` | test/test_pgpass.py:216-220 | `app`, 5432, `vdc`, `glassfish` gives `passwd1`. |
| `LookupCases.WildcardDatabase` | test/test_pgpass.py:222-226 | `app`, 5432, `bla`, `glassfish` gives `passwd2`. |
| `LookupCases.UserUhuWithVdc` | test/test_pgpass.py:228-232 | `app`, 5432, `vdc`, `uhu` gives `passwd3`. |
| `LookupCases.UserUhuWithBla` | test/test_pgpass.py:234-238 | `app`, 5432, `bla`, `uhu` gives `passwd3`. |
| `LookupCases.WildcardUser` | test/test_pgpass.py:240-244 | `app`, 5432, `bla`, `itsme` gives `passwd4`. |
| `LookupCases.OtherPort` | test/test_pgpass.py:246-250 | `app`, 5434, `bla`, `glassfish` gives `passwd5`. |
| `LookupCases.OtherPortUnknownUser` | test/test_pgpass.py:252-256 | `app`, 5434, `bla`, `itsme` gives `None`. |
| `LookupCases.OtherHost` | test/test_pgpass.py:258-262 | `localhost`, 5432, `bla`, `glassfish` gives `passwd6`. |
| `LookupCases.OtherHostUnknownUser` | test/test_pgpass.py:264-268 | `localhost`, 5432, `bla`, `itsme` gives `None`. |
| `LookupCases.UnknownHost` | test/test_pgpass.py:270-274 | `somewhere`, 5432, `bla`, `glassfish` gives `None`. |

## Left out

- `os.path.realpath` is not modelled: the object keeps the path as given.
- The default path `~/.pgpass` from `HOME` (src/pb_dbhandler/pgpass.py:45-51) is an input to `Open`, because it depends on the environment.
- `os.path.exists`, `os.access`, `os.stat` and `read_file` are a map from path to mode bits, readability and content. Decoding and I/O errors while reading are not modelled.
- A file that changes between the existence check and the read is not modelled. Each call sees one file-system value.
- Logging, the warnings' texts, row numbers, `verbose` output, `as_dict` and `__repr__` are left out. They only produce text.
- `PgPassEntry`'s constructor coercions are left out. The parser passes it values of the right types already.
- `src/pb_dbhandler/handler.py` (the `psycopg2` wrapper and its password fallback) is not part of this model, nor is `src/pb_dbhandler/helper.py` (command-line options).
- `PyText.Strip`, `PyText.SplitLines` and `PyText.Lower` follow Python 2 byte strings. There is no Unicode whitespace, no Unicode case folding, and no line breaks other than `\n`, `\r` and `\r\n`.
- `LineParser.ParsePort`: Python 2's `int()` is narrowed to surrounding whitespace, an optional sign and ASCII digits. CPython 2.7 also skips whitespace between the sign and the digits, so it reads `- 5` as -5; the model rejects that form (`ParsePortSigns`).
- `Matching.Matches`: query fields are concrete strings and an integer. A `None` query field, which makes `match` raise when compared with a set field, is not modelled. A query port that is not yet an integer is not modelled either.
- `LineParser.FormatLine` cannot write a host, database or user that is exactly `*`, or that ends in a backslash. It cannot write a host starting with whitespace or `#`, nor a password ending in whitespace. The format cannot carry these values through the parser. `ParseFormatLine` is stated for the other entries only.
