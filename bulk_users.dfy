/**
 * `POST /users/bulk`: every entry of the `users` array is sorted, in order,
 * into the users to insert or the skipped entries, against a growing set of
 * emails seen (those already registered, then those accepted in this batch);
 * the accepted users are then inserted with one multi-row insert. Password
 * hashing is the parameter `hash`.
 */
module BulkUsers {
  import opened Schema
  import opened Api
  import opened Tables
  import opened Store

  /** One entry of the request's `users` array; an absent field is the empty string. */
  datatype UserEntry = UserEntry(email: string, password: string, username: string)

  /** One entry of `skipped`. */
  datatype Skipped = Skipped(email: string, reason: string)

  const MissingFields := "Missing email, password, or username"
  const EmailTaken := "Email already exists"
  const NoEmail := "N/A"

  /** `email && password && username`: every field present and non-empty. */
  predicate Complete(e: UserEntry) {
    e.email != "" && e.password != "" && e.username != ""
  }

  // ----- The loop, as a fold -----

  /** What the loop has built so far: `usersToInsert`, `errors` and `existingEmails`. */
  datatype Sorted = Sorted(toInsert: seq<NewUser>, skipped: seq<Skipped>, seen: set<string>)

  /** One turn of the loop: the two skip checks in order, else the entry is accepted and its email noted. */
  function Sort(s: Sorted, e: UserEntry, hash: string -> string): Sorted {
    if !Complete(e) then s.(skipped := s.skipped + [Skipped(if e.email == "" then NoEmail else e.email, MissingFields)])
    else if e.email in s.seen then s.(skipped := s.skipped + [Skipped(e.email, EmailTaken)])
    else Sorted(s.toInsert + [NewUser(e.email, hash(e.password), e.username)], s.skipped, s.seen + {e.email})
  }

  /** The loop over all the entries, starting from the registered emails. */
  function Partition(entries: seq<UserEntry>, existing: set<string>, hash: string -> string): (r: Sorted)
    ensures |r.toInsert| + |r.skipped| == |entries|
    ensures existing <= r.seen
    decreases |entries|
  {
    if entries == [] then Sorted([], [], existing)
    else Sort(Partition(entries[..|entries| - 1], existing, hash), entries[|entries| - 1], hash)
  }

  // ----- An independent description of the outcome -----

  /** The emails of the complete entries among `entries`. */
  function CompleteEmails(entries: seq<UserEntry>): set<string> {
    set e | e in entries && Complete(e) :: e.email
  }

  /**
   * Entry `i` is created: it is complete, its email is not registered, and no
   * earlier complete entry has the same email.
   */
  predicate FirstNew(entries: seq<UserEntry>, i: nat, existing: set<string>)
    requires i < |entries|
  {
    && Complete(entries[i])
    && entries[i].email !in existing
    && forall j :: 0 <= j < i && Complete(entries[j]) ==> entries[j].email != entries[i].email
  }

  /** The users created, in input order. */
  function Created(entries: seq<UserEntry>, existing: set<string>, hash: string -> string): seq<NewUser>
    decreases |entries|
  {
    if entries == [] then []
    else
      var i := |entries| - 1;
      Created(entries[..i], existing, hash)
      + (if FirstNew(entries, i, existing) then [NewUser(entries[i].email, hash(entries[i].password), entries[i].username)] else [])
  }

  /** The entries skipped, in input order, each with its reason. */
  function Skips(entries: seq<UserEntry>, existing: set<string>): seq<Skipped>
    decreases |entries|
  {
    if entries == [] then []
    else
      var i := |entries| - 1;
      var e := entries[i];
      Skips(entries[..i], existing)
      + (if !Complete(e) then [Skipped(if e.email == "" then NoEmail else e.email, MissingFields)]
         else if !FirstNew(entries, i, existing) then [Skipped(e.email, EmailTaken)]
         else [])
  }

  /** The emails seen after a prefix: the registered ones and those of the complete entries. */
  lemma {:induction false} PartitionSeen(entries: seq<UserEntry>, existing: set<string>, hash: string -> string)
    ensures Partition(entries, existing, hash).seen == existing + CompleteEmails(entries)
    decreases |entries|
  {
    if entries != [] {
      var init, e := entries[..|entries| - 1], entries[|entries| - 1];
      PartitionSeen(init, existing, hash);
      assert entries == init + [e];
      assert CompleteEmails(entries) == CompleteEmails(init) + (if Complete(e) then {e.email} else {});
    }
  }

  /** The loop accepts entry `i` exactly when it is the first new complete entry with its email. */
  lemma AcceptedIffFirstNew(entries: seq<UserEntry>, i: nat, existing: set<string>, hash: string -> string)
    requires i < |entries|
    ensures (Complete(entries[i]) && entries[i].email !in Partition(entries[..i], existing, hash).seen)
        <==> FirstNew(entries, i, existing)
  {
    PartitionSeen(entries[..i], existing, hash);
    var e := entries[i];
    if Complete(e) && e.email in CompleteEmails(entries[..i]) {
      var d :| d in entries[..i] && Complete(d) && d.email == e.email;
      var j :| 0 <= j < i && entries[..i][j] == d;
    }
    if Complete(e) && !FirstNew(entries, i, existing) && e.email !in existing {
      var j :| 0 <= j < i && Complete(entries[j]) && entries[j].email == e.email;
      assert entries[..i][j] == entries[j];
    }
  }

  /** The loop computes exactly the created users and the skipped entries, in input order. */
  lemma {:induction false} PartitionIsCreatedAndSkips(entries: seq<UserEntry>, existing: set<string>, hash: string -> string)
    ensures Partition(entries, existing, hash).toInsert == Created(entries, existing, hash)
    ensures Partition(entries, existing, hash).skipped == Skips(entries, existing)
    decreases |entries|
  {
    if entries != [] {
      var i := |entries| - 1;
      var init := entries[..i];
      PartitionIsCreatedAndSkips(init, existing, hash);
      AcceptedIffFirstNew(entries, i, existing, hash);
    }
  }

  /**
   * The users to insert have pairwise distinct emails, none of them among the
   * registered ones; all of them are among the emails seen.
   */
  lemma {:induction false} PartitionFresh(entries: seq<UserEntry>, existing: set<string>, hash: string -> string)
    ensures var r := Partition(entries, existing, hash);
      && (forall i, j :: 0 <= i < j < |r.toInsert| ==> r.toInsert[i].email != r.toInsert[j].email)
      && (forall i :: 0 <= i < |r.toInsert| ==> r.toInsert[i].email !in existing && r.toInsert[i].email in r.seen)
    decreases |entries|
  {
    if entries != [] {
      var init, e := entries[..|entries| - 1], entries[|entries| - 1];
      PartitionFresh(init, existing, hash);
      var before := Partition(init, existing, hash);
      assert before == Partition(entries[..|entries| - 1], existing, hash);
      if Complete(e) && e.email !in before.seen {
        assert forall i :: 0 <= i < |before.toInsert| ==> before.toInsert[i].email != e.email;
      }
    }
  }

  // ----- The handler -----

  /** A created user as returned: the row without its password. */
  datatype CreatedUser = CreatedUser(id: Id, email: string, username: string, createdAt: Time)

  function Public(u: User): CreatedUser {
    CreatedUser(u.id, u.email, u.username, u.createdAt)
  }

  function Publics(rows: seq<User>): (r: seq<CreatedUser>)
    ensures |r| == |rows|
    ensures forall i :: 0 <= i < |rows| ==> r[i] == Public(rows[i])
  {
    seq(|rows|, i requires 0 <= i < |rows| => Public(rows[i]))
  }

  /** The decimal digits of `n` (JavaScript's number-to-string for a count). */
  function Decimal(n: nat): (s: string)
    ensures |s| > 0 && forall k :: 0 <= k < |s| ==> '0' <= s[k] <= '9'
    decreases n
  {
    if n < 10 then [(48 + n) as char] else Decimal(n / 10) + [(48 + n % 10) as char]
  }

  /** The value of a string of decimal digits. */
  function DigitsValue(s: string): nat
    requires forall k :: 0 <= k < |s| ==> '0' <= s[k] <= '9'
    decreases |s|
  {
    if s == [] then 0 else DigitsValue(s[..|s| - 1]) * 10 + (s[|s| - 1] as int - 48)
  }

  /** The count in the message reads back as the count. */
  lemma {:induction false} DecimalRoundTrip(n: nat)
    ensures DigitsValue(Decimal(n)) == n
    decreases n
  {
    if n >= 10 {
      DecimalRoundTrip(n / 10);
      var s := Decimal(n);
      assert s[..|s| - 1] == Decimal(n / 10);
    }
  }

  function Message(created: nat, skipped: nat): string {
    "Bulk user creation processed. " + Decimal(created) + " users created, " + Decimal(skipped) + " skipped."
  }

  datatype BulkReport = BulkReport(message: string, created: seq<CreatedUser>, skipped: seq<Skipped>)

  /**
   * The handler. A missing or empty `users` array is a validation error;
   * otherwise the accepted users are inserted, when there are any, and the
   * report lists them and the skipped entries.
   */
  method BulkCreate(db: Database, usersData: Option<seq<UserEntry>>, hash: string -> string, now: Time)
    returns (r: Result<BulkReport>)
    requires db.Valid()
    modifies db`users, db`nextId
    ensures db.Valid()
    ensures usersData.None? || |usersData.value| == 0 ==>
      r == Failure(ValidationError) && db.users == old(db.users) && db.nextId == old(db.nextId)
    ensures usersData.Some? && |usersData.value| > 0 ==>
      var p := Partition(usersData.value, EmailsOf(old(db.users)), hash);
      var rows := UserRows(p.toInsert, old(db.nextId), now);
      && db.users == old(db.users) + rows && db.nextId == old(db.nextId) + |p.toInsert|
      && r == Success(BulkReport(Message(|rows|, |p.skipped|), Publics(rows), p.skipped))
  {
    if usersData.None? || |usersData.value| == 0 {
      return Failure(ValidationError);
    }
    var entries := usersData.value;
    var existingEmails := EmailsOf(db.users);
    var usersToInsert: seq<NewUser> := [];
    var errors: seq<Skipped> := [];
    for i := 0 to |entries|
      invariant Sorted(usersToInsert, errors, existingEmails) == Partition(entries[..i], EmailsOf(db.users), hash)
    {
      assert entries[..i + 1][..i] == entries[..i];
      var entry := entries[i];
      if !Complete(entry) {
        errors := errors + [Skipped(if entry.email == "" then NoEmail else entry.email, MissingFields)];
        continue;
      }
      if entry.email in existingEmails {
        errors := errors + [Skipped(entry.email, EmailTaken)];
        continue;
      }
      var hashedPassword := hash(entry.password);
      usersToInsert := usersToInsert + [NewUser(entry.email, hashedPassword, entry.username)];
      existingEmails := existingEmails + {entry.email};
    }
    assert entries[..|entries|] == entries;
    var createdRows: seq<User> := [];
    if |usersToInsert| > 0 {
      PartitionFresh(entries, EmailsOf(db.users), hash);
      createdRows := db.InsertUsers(usersToInsert, now);
    }
    return Success(BulkReport(Message(|createdRows|, |errors|), Publics(createdRows), errors));
  }

  /** Every entry is either created or skipped: the two lists together are as long as the input. */
  lemma CreatedAndSkippedCoverInput(entries: seq<UserEntry>, existing: set<string>, hash: string -> string)
    ensures |Created(entries, existing, hash)| + |Skips(entries, existing)| == |entries|
  {
    PartitionIsCreatedAndSkips(entries, existing, hash);
  }
}
