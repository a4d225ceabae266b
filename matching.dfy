/** One accepted line of a credential file (`PgPassEntry`) and the ordered
    first-match search that `PgPassFile.get_passwd` runs over a list of them. */
module Matching {
  import opened Wrappers
  import opened PyText

  /** A parsed line.  `None` in hostname, port, database or username is the
      wildcard `*`; the password is never a wildcard and may be empty. */
  datatype PgPassEntry = PgPassEntry(
    hostname: Option<string>,
    port: Option<int>,
    database: Option<string>,
    username: Option<string>,
    password: string)

  /** The connection about to be made.  Every field is concrete: `match`
      lower-cases the query strings, so the caller must supply them. */
  datatype Query = Query(hostname: string, port: int, database: string, username: string)

  /** Python's `a.lower() == b.lower()` on byte strings. */
  predicate EqualIgnoringCase(a: string, b: string) {
    Lower(a) == Lower(b)
  }

  /** A string field of an entry accepts a query value when it is the
      wildcard or equal to the value up to case. */
  predicate FieldAccepts(field: Option<string>, value: string) {
    field.None? || EqualIgnoringCase(field.value, value)
  }

  /** `PgPassEntry.match`: each field that is set rejects a differing query
      value; the port is compared as an integer, the strings up to case. */
  predicate Matches(e: PgPassEntry, q: Query) {
    if e.hostname.Some? && Lower(e.hostname.value) != Lower(q.hostname) then false
    else if e.port.Some? && e.port.value != q.port then false
    else if e.database.Some? && Lower(e.database.value) != Lower(q.database) then false
    else if e.username.Some? && Lower(e.username.value) != Lower(q.username) then false
    else true
  }

  /** The early-return chain of `match` accepts exactly when every field
      accepts its query value, with the port compared by integer equality. */
  lemma MatchesIffAllFieldsAccept(e: PgPassEntry, q: Query)
    ensures Matches(e, q) <==>
              FieldAccepts(e.hostname, q.hostname)
              && (e.port.None? || e.port.value == q.port)
              && FieldAccepts(e.database, q.database)
              && FieldAccepts(e.username, q.username)
  {
  }

  /** Changing the case of letters in the query never changes the answer. */
  lemma MatchesIgnoresCase(e: PgPassEntry, q1: Query, q2: Query)
    requires EqualIgnoringCase(q1.hostname, q2.hostname)
    requires q1.port == q2.port
    requires EqualIgnoringCase(q1.database, q2.database)
    requires EqualIgnoringCase(q1.username, q2.username)
    ensures Matches(e, q1) == Matches(e, q2)
  {
  }

  /** The password of the first entry, in list order, that matches the query. */
  function FirstMatch(entries: seq<PgPassEntry>, q: Query): (r: Option<string>)
    ensures r.None? <==> forall i :: 0 <= i < |entries| ==> !Matches(entries[i], q)
    ensures r.Some? ==> exists i :: 0 <= i < |entries| && Matches(entries[i], q)
                                    && r.value == entries[i].password
                                    && forall j :: 0 <= j < i ==> !Matches(entries[j], q)
  {
    if entries == [] then None
    else if Matches(entries[0], q) then Some(entries[0].password)
    else
      var r := FirstMatch(entries[1..], q);
      assert forall i :: 1 <= i < |entries| ==> entries[i] == entries[1..][i - 1];
      r
  }

  /** Any entry index that matches and is preceded only by non-matching
      entries supplies the answer: earlier lines take precedence over later,
      more specific ones. */
  lemma {:induction false} FirstMatchAt(entries: seq<PgPassEntry>, q: Query, i: nat)
    requires i < |entries| && Matches(entries[i], q)
    requires forall j :: 0 <= j < i ==> !Matches(entries[j], q)
    ensures FirstMatch(entries, q) == Some(entries[i].password)
  {
    if i > 0 {
      assert !Matches(entries[0], q);
      FirstMatchAt(entries[1..], q, i - 1);
    }
  }

  /** Entries after a match are never consulted: appending entries to a list
      that already has a match does not change the answer. */
  lemma {:induction false} FirstMatchAppend(front: seq<PgPassEntry>, back: seq<PgPassEntry>, q: Query)
    ensures FirstMatch(front + back, q) ==
              if FirstMatch(front, q).Some? then FirstMatch(front, q) else FirstMatch(back, q)
  {
    if front != [] {
      assert (front + back)[0] == front[0];
      assert (front + back)[1..] == front[1..] + back;
      FirstMatchAppend(front[1..], back, q);
    } else {
      assert front + back == back;
    }
  }

  /** An entry whose four key fields are all wildcards matches every query,
      so it answers every lookup that earlier lines leave open. */
  lemma WildcardEntryMatchesAll(e: PgPassEntry, q: Query)
    requires e.hostname.None? && e.port.None? && e.database.None? && e.username.None?
    ensures Matches(e, q)
  {
  }
}
