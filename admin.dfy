/**
 * The administration routes that decide or shape something: the listing of
 * shared readings filtered by status, the CSV export of a reading's
 * annotations, creating, deleting and importing users, and creating a shared
 * reading with its participant list. Every route admits administrators only.
 * Book deletion is the same handler as in the book routes (`Books.DeleteBook`).
 */
module Admin {
  import opened Common
  import opened Store
  import Auth
  import ErrorHandler
  import SharedReadings

  // ---------------------------------------------------------------------------
  // Listing shared readings by status

  /** The `where` object of the listing: each present bound applies to its date. */
  datatype DateFilter = DateFilter(startLte: Option<int>, endGte: Option<int>, endLt: Option<int>, startGt: Option<int>)

  /** How the database applies a date filter to a reading. */
  predicate Admits(f: DateFilter, r: Reading) {
    && (f.startLte.Some? ==> r.startDate <= f.startLte.value)
    && (f.endGte.Some? ==> r.endDate >= f.endGte.value)
    && (f.endLt.Some? ==> r.endDate < f.endLt.value)
    && (f.startGt.Some? ==> r.startDate > f.startGt.value)
  }

  /** What the status parameter asks for: running, finished, not yet started, or anything. */
  predicate HasStatus(status: Option<string>, r: Reading, now: int) {
    if status == Some("active") then r.startDate <= now <= r.endDate
    else if status == Some("ended") then r.endDate < now
    else if status == Some("upcoming") then r.startDate > now
    else true
  }

  /** The filter object, assigned according to the status parameter. */
  method BuildDateFilter(status: Option<string>, now: int) returns (f: DateFilter)
    ensures forall r :: Admits(f, r) <==> HasStatus(status, r, now)
  {
    f := DateFilter(None, None, None, None);
    if status == Some("active") {
      f := DateFilter(Some(now), Some(now), None, None);
    } else if status == Some("ended") {
      f := DateFilter(None, None, Some(now), None);
    } else if status == Some("upcoming") {
      f := DateFilter(None, None, None, Some(now));
    }
  }

  /** For a reading that does not end before it starts, exactly one of the three statuses holds at any time. */
  lemma StatusesPartition(r: Reading, now: int)
    requires r.startDate <= r.endDate
    ensures HasStatus(Some("active"), r, now) || HasStatus(Some("ended"), r, now) || HasStatus(Some("upcoming"), r, now)
    ensures !(HasStatus(Some("active"), r, now) && HasStatus(Some("ended"), r, now))
    ensures !(HasStatus(Some("active"), r, now) && HasStatus(Some("upcoming"), r, now))
    ensures !(HasStatus(Some("ended"), r, now) && HasStatus(Some("upcoming"), r, now))
  {
  }

  /**
   * `GET /shared-readings`: `rows` are all readings with their books, newest
   * first. Page and limit default to 1 and 20; a negative skip is refused by
   * the database client.
   */
  method ListReadings(user: Principal, rows: seq<SharedReadings.ListingRow>, now: int, page: ParsedInt, limit: ParsedInt, status: Option<string>)
    returns (r: Response<SharedReadings.ListingPage>)
    ensures user.status != ADMIN ==> r == Refused(403, "Accès non autorisé")
    ensures user.status == ADMIN ==>
      var p, l := IntOr(page, 1), IntOr(limit, 20);
      && (r.Ok? <==> (p - 1) * l >= 0)
      && (!r.Ok? ==> r == ErrorHandler.Respond(ErrorHandler.InvalidArgument))
      && (r.Ok? ==>
        var matching := Filter(rows, (x: SharedReadings.ListingRow) => HasStatus(status, x.reading, now));
        && r.value.page == p && r.value.limit == l
        && r.value.total == |matching| && r.value.pages == CeilDiv(|matching|, l)
        && Window(matching, (p - 1) * l, l) == Some(r.value.rows))
    ensures r.Ok? ==> forall k :: 0 <= k < |r.value.rows| ==> r.value.rows[k] in rows && HasStatus(status, r.value.rows[k].reading, now)
    ensures r.Ok? && SharedReadings.NewestFirst(rows) ==> SharedReadings.NewestFirst(r.value.rows)
  {
    var gate := Auth.Authorize([ADMIN], Some(user));
    if gate.Reject? {
      return Refused(gate.status, gate.error);
    }
    var p := IntOr(page, 1);
    var l := IntOr(limit, 20);
    var f := BuildDateFilter(status, now);
    var matching := Filter(rows, (x: SharedReadings.ListingRow) => Admits(f, x.reading));
    assert matching == Filter(rows, (x: SharedReadings.ListingRow) => HasStatus(status, x.reading, now)) by {
      FilterSame(rows, (x: SharedReadings.ListingRow) => Admits(f, x.reading), (x: SharedReadings.ListingRow) => HasStatus(status, x.reading, now));
    }
    var window := Window(matching, (p - 1) * l, l);
    if window.None? {
      return ErrorHandler.Respond(ErrorHandler.InvalidArgument);
    }
    SharedReadings.WindowInside(matching, (p - 1) * l, l);
    SharedReadings.SubsequenceKeepsOrderOfWindow(matching, rows, (p - 1) * l, l);
    r := Ok(SharedReadings.ListingPage(window.value, p, l, |matching|, CeilDiv(|matching|, l)));
  }

  /** Filtering by two predicates that agree everywhere keeps the same rows. */
  lemma {:induction false} FilterSame<T>(xs: seq<T>, p: T -> bool, q: T -> bool)
    requires forall x :: p(x) == q(x)
    ensures Filter(xs, p) == Filter(xs, q)
    decreases |xs|
  {
    if xs != [] {
      FilterSame(xs[1..], p, q);
    }
  }

  // ---------------------------------------------------------------------------
  // CSV export

  /** An annotation as the export reads it, joined with its author's name. */
  datatype ExportedAnnotation = ExportedAnnotation(annotation: Annotation, userName: string)

  /** What `GET /shared-readings/:id/export` sends. */
  datatype Export = CsvFile(text: string) | JsonExport(reading: Reading, annotations: seq<ExportedAnnotation>)

  /** The first line, without its line break. */
  const CsvHeaderLine := "Date,Utilisateur,Page," + "Texte sélectionné" + ",Commentaire"

  function Quoted(field: string): string {
    "\"" + field + "\""
  }

  /** One row: date (`iso` formats a time), author, page, selected text and comment, each quoted, with no escaping. */
  function CsvLine(row: ExportedAnnotation, iso: int -> string): string {
    Quoted(iso(row.annotation.createdAt)) + "," + Quoted(row.userName) + "," + Quoted(IntToString(row.annotation.page))
      + "," + Quoted(row.annotation.selectedText) + "," + Quoted(row.annotation.content)
  }

  function CsvLines(rows: seq<ExportedAnnotation>, iso: int -> string): (lines: seq<string>)
    ensures |lines| == |rows|
    ensures forall k :: 0 <= k < |rows| ==> lines[k] == CsvLine(rows[k], iso)
  {
    seq(|rows|, k requires 0 <= k < |rows| => CsvLine(rows[k], iso))
  }

  function Csv(rows: seq<ExportedAnnotation>, iso: int -> string): string {
    CsvHeaderLine + "\n" + Join(CsvLines(rows, iso), '\n')
  }

  /** No field of an exported annotation contains `c`. */
  predicate FieldsFree(row: ExportedAnnotation, iso: int -> string, c: char) {
    c !in iso(row.annotation.createdAt) && c !in row.userName && c !in row.annotation.selectedText
      && c !in row.annotation.content
  }

  lemma SplitLeading(a: string, sep: char, rest: string)
    requires sep !in a
    ensures Split(a + [sep] + rest, sep) == [a] + Split(rest, sep)
  {
    SplitAround(a, sep, rest);
    SplitNoSeparator(a, sep);
  }

  lemma NumberHasNoQuote(n: int)
    ensures '"' !in IntToString(n) && '\n' !in IntToString(n)
  {
    var s := IntToString(n);
    if n >= 0 {
      assert forall k :: 0 <= k < |s| ==> '0' <= s[k] <= '9';
    } else {
      assert s == "-" + NatToString(-n);
      assert forall k :: 1 <= k < |s| ==> s[k] == NatToString(-n)[k - 1];
    }
  }

  /** A comma followed by a quoted field. */
  function NextQuoted(field: string): string {
    "," + Quoted(field)
  }

  lemma QuotedFirst(f: string, rest: string)
    requires '"' !in f
    ensures Split(Quoted(f) + rest, '"') == ["", f] + Split(rest, '"')
  {
    var q := '"';
    assert Quoted(f) + rest == "" + [q] + (f + [q] + rest);
    SplitLeading("", q, f + [q] + rest);
    SplitLeading(f, q, rest);
  }

  lemma QuotedNext(f: string, rest: string)
    requires '"' !in f
    ensures Split(NextQuoted(f) + rest, '"') == [",", f] + Split(rest, '"')
  {
    var q := '"';
    assert NextQuoted(f) + rest == "," + [q] + (f + [q] + rest);
    SplitLeading(",", q, f + [q] + rest);
    SplitLeading(f, q, rest);
  }

  /**
   * A row cut at its quotes gives its five fields back in order, when no
   * field contains a quote: the quotes delimit them.
   */
  lemma CsvLineFields(row: ExportedAnnotation, iso: int -> string)
    requires FieldsFree(row, iso, '"')
    ensures Split(CsvLine(row, iso), '"') ==
      ["", iso(row.annotation.createdAt), ",", row.userName, ",", IntToString(row.annotation.page), ",",
       row.annotation.selectedText, ",", row.annotation.content, ""]
  {
    NumberHasNoQuote(row.annotation.page);
    LineGrouping(iso(row.annotation.createdAt), row.userName, IntToString(row.annotation.page),
      row.annotation.selectedText, row.annotation.content);
    FiveQuoted(iso(row.annotation.createdAt), row.userName, IntToString(row.annotation.page),
      row.annotation.selectedText, row.annotation.content);
  }

  /** A line is its first quoted field followed by four comma-and-quoted fields. */
  lemma LineGrouping(d: string, u: string, p: string, t: string, c: string)
    ensures Quoted(d) + "," + Quoted(u) + "," + Quoted(p) + "," + Quoted(t) + "," + Quoted(c)
            == Quoted(d) + (NextQuoted(u) + (NextQuoted(p) + (NextQuoted(t) + (NextQuoted(c) + ""))))
  {
  }

  lemma FiveQuoted(d: string, u: string, p: string, t: string, c: string)
    requires '"' !in d && '"' !in u && '"' !in p && '"' !in t && '"' !in c
    ensures Split(Quoted(d) + (NextQuoted(u) + (NextQuoted(p) + (NextQuoted(t) + (NextQuoted(c) + "")))), '"')
            == ["", d, ",", u, ",", p, ",", t, ",", c, ""]
  {
    var x4 := NextQuoted(c) + "";
    var x3 := NextQuoted(t) + x4;
    var x2 := NextQuoted(p) + x3;
    var x1 := NextQuoted(u) + x2;
    QuotedNext(c, "");
    QuotedNext(t, x4);
    QuotedNext(p, x3);
    QuotedNext(u, x2);
    QuotedFirst(d, x1);
  }

  lemma LineHasNoBreak(row: ExportedAnnotation, iso: int -> string)
    requires FieldsFree(row, iso, '\n')
    ensures '\n' !in CsvLine(row, iso)
  {
    NumberHasNoQuote(row.annotation.page);
  }

  /**
   * The file is the header line followed by one line per annotation, in the
   * order given, when no field contains a line break.
   */
  lemma CsvShape(rows: seq<ExportedAnnotation>, iso: int -> string)
    requires forall k :: 0 <= k < |rows| ==> FieldsFree(rows[k], iso, '\n')
    ensures rows != [] ==> Split(Csv(rows, iso), '\n') == [CsvHeaderLine] + CsvLines(rows, iso)
    ensures rows == [] ==> Split(Csv(rows, iso), '\n') == [CsvHeaderLine, ""]
  {
    var lines := CsvLines(rows, iso);
    assert '\n' !in "Date,Utilisateur,Page," && '\n' !in "Texte sélectionné" && '\n' !in ",Commentaire";
    SplitLeading(CsvHeaderLine, '\n', Join(lines, '\n'));
    if rows != [] {
      forall k | 0 <= k < |lines| ensures '\n' !in lines[k] {
        LineHasNoBreak(rows[k], iso);
      }
      SplitJoin(lines, '\n');
    }
  }

  /**
   * `GET /shared-readings/:id/export`: `annotations` are the reading's
   * annotations joined with their authors. The format defaults to JSON and
   * only "csv" selects the file.
   */
  function ExportReading(user: Principal, readings: map<Id, Reading>, id: Id, annotations: seq<ExportedAnnotation>,
                         format: Option<string>, iso: int -> string): (r: Response<Export>)
    ensures user.status != ADMIN ==> r == Refused(403, "Accès non autorisé")
    ensures user.status == ADMIN && id !in readings ==> r == Refused(404, SharedReadings.NotFound)
    ensures r.Ok? <==> user.status == ADMIN && id in readings
    ensures r.Ok? ==> (r.value.CsvFile? <==> format == Some("csv"))
    ensures r.Ok? && r.value.CsvFile? ==> r.value.text == Csv(annotations, iso)
    ensures r.Ok? && r.value.JsonExport? ==> r.value == JsonExport(readings[id], annotations)
  {
    var gate := Auth.Authorize([ADMIN], Some(user));
    if gate.Reject? then Refused(gate.status, gate.error)
    else if id !in readings then Refused(404, SharedReadings.NotFound)
    else if OrElse(format, "json") == "csv" then Ok(CsvFile(Csv(annotations, iso)))
    else Ok(JsonExport(readings[id], annotations))
  }

  // ---------------------------------------------------------------------------
  // Users

  /** The body of `POST /users`. */
  datatype NewUserRequest = NewUserRequest(name: Option<string>, email: Option<string>, password: Option<string>, status: Option<string>)

  /** The statuses an administrator may give a new account: every one but GUEST. */
  predicate AssignableStatus(s: string) {
    s == "USER" || s == "AUTHOR" || s == "TRANSLATOR" || s == "ADMIN"
  }

  /** The first key of the schema the body breaks: a name of 2 to 50 characters, an address, a password of at least 6, an assignable status. */
  function NewUserViolation(req: NewUserRequest): (key: Option<string>)
    ensures key.None? <==>
      && req.name.Some? && 2 <= |req.name.value| <= 50 && req.email.Some? && EmailLike(req.email.value)
      && req.password.Some? && |req.password.value| >= 6
      && ParseRole(req.status.GetOr("USER")).Some? && ParseRole(req.status.GetOr("USER")) != Some(GUEST)
    ensures key == Some("name") <==> req.name.None? || !(2 <= |req.name.value| <= 50)
  {
    if req.name.None? || !(2 <= |req.name.value| <= 50) then Some("name")
    else if req.email.None? || !EmailLike(req.email.value) then Some("email")
    else if req.password.None? || |req.password.value| < 6 then Some("password")
    else if req.status.Some? && !AssignableStatus(req.status.value) then Some("status")
    else None
  }

  const EmailExists := "Un utilisateur avec cet email existe déjà"

  /** The answer of `POST /users` to a request, given the users before it. */
  function CreateUserReply(users: map<Id, User>, user: Principal, req: NewUserRequest, hash: string -> string): (r: Response<User>)
    ensures user.status != ADMIN ==> r == Refused(403, "Accès non autorisé")
    ensures user.status == ADMIN && NewUserViolation(req).Some? ==> r == Refused(400, NewUserViolation(req).value)
    ensures user.status == ADMIN && NewUserViolation(req).None? && EmailTaken(users, req.email.value) ==>
      r == Refused(400, EmailExists)
    ensures r.Ok? <==> user.status == ADMIN && NewUserViolation(req).None? && !EmailTaken(users, req.email.value)
    ensures r.Ok? ==>
      r.value == User(req.name.value, req.email.value, hash(req.password.value), ParseRole(req.status.GetOr("USER")).value, None)
  {
    var gate := Auth.Authorize([ADMIN], Some(user));
    if gate.Reject? then Refused(gate.status, gate.error)
    else if NewUserViolation(req).Some? then Refused(400, NewUserViolation(req).value)
    else if EmailTaken(users, req.email.value) then Refused(400, EmailExists)
    else Ok(User(req.name.value, req.email.value, hash(req.password.value), ParseRole(req.status.GetOr("USER")).value, None))
  }

  /** `POST /users`: `id` is the new row's id and `hash` the password hashing. */
  method CreateUser(db: Database, user: Principal, req: NewUserRequest, id: Id, hash: string -> string) returns (r: Response<User>)
    requires id !in db.users
    modifies db`users
    ensures r == CreateUserReply(old(db.users), user, req, hash)
    ensures r.Ok? ==> db.users == old(db.users)[id := r.value]
    ensures !r.Ok? ==> db.users == old(db.users)
  {
    var gate := Auth.Authorize([ADMIN], Some(user));
    if gate.Reject? {
      return Refused(gate.status, gate.error);
    }
    var violation := NewUserViolation(req);
    if violation.Some? {
      return Refused(400, violation.value);
    }
    if EmailTaken(db.users, req.email.value) {
      return Refused(400, EmailExists);
    }
    var created := User(req.name.value, req.email.value, hash(req.password.value), ParseRole(req.status.GetOr("USER")).value, None);
    db.users := db.users[id := created];
    r := Ok(created);
  }

  /** Once a user is created, any valid request with the same address is refused with 400, whoever sends it. */
  lemma CreateUserOnce(users: map<Id, User>, admin: Principal, req: NewUserRequest, id: Id, hash: string -> string,
                       other: Principal, again: NewUserRequest, hash2: string -> string)
    requires CreateUserReply(users, admin, req, hash).Ok?
    requires other.status == ADMIN && NewUserViolation(again).None? && again.email == req.email
    ensures CreateUserReply(users[id := CreateUserReply(users, admin, req, hash).value], other, again, hash2)
            == Refused(400, EmailExists)
  {
    var created := CreateUserReply(users, admin, req, hash).value;
    assert id in users[id := created] && users[id := created][id].email == again.email.value;
  }

  /** `DELETE /users/:id`: an unknown id is reported before the request to delete oneself. */
  method DeleteUser(db: Database, user: Principal, id: Id) returns (r: Response<()>)
    modifies db`users
    ensures user.status != ADMIN ==> r == Refused(403, "Accès non autorisé")
    ensures user.status == ADMIN && id !in old(db.users) ==> r == Refused(404, "Utilisateur non trouvé")
    ensures user.status == ADMIN && id in old(db.users) && id == user.id ==>
      r == Refused(400, "Vous ne pouvez pas supprimer votre propre compte")
    ensures r.Ok? <==> user.status == ADMIN && id in old(db.users) && id != user.id
    ensures r.Ok? ==> db.users == old(db.users) - {id}
    ensures !r.Ok? ==> db.users == old(db.users)
  {
    var gate := Auth.Authorize([ADMIN], Some(user));
    if gate.Reject? {
      return Refused(gate.status, gate.error);
    }
    if id !in db.users {
      return Refused(404, "Utilisateur non trouvé");
    }
    if id == user.id {
      return Refused(400, "Vous ne pouvez pas supprimer votre propre compte");
    }
    db.users := db.users - {id};
    r := Ok(());
  }

  // ---------------------------------------------------------------------------
  // Importing users

  /** One entry of the imported list. */
  datatype ImportRow = ImportRow(name: Option<string>, email: Option<string>, status: Option<string>)

  /** What the database and the hashing give the row at that position: the new id and the hashed temporary password. */
  datatype Slot = Slot(id: Id, password: string)

  datatype ImportTally = ImportTally(created: nat, skipped: nat, errors: seq<string>)

  datatype ImportState = ImportState(users: map<Id, User>, tally: ImportTally)

  const MissingField := "Ligne ignorée: nom ou email manquant"

  /** The recorded error of a row the database refuses: a status outside the enum. */
  function FailureText(email: string): string {
    "Erreur pour " + email + ": " + ErrorHandler.InvalidArgument.name + ": " + ErrorHandler.InvalidArgument.message
  }

  /** One turn of the loop. */
  function ImportStep(st: ImportState, row: ImportRow, slot: Slot): (next: ImportState)
    ensures next.tally.created + next.tally.skipped == st.tally.created + st.tally.skipped + 1
    ensures next.tally.created == st.tally.created ==> next.users == st.users
    ensures next.tally.created != st.tally.created <==>
      Truthy(row.name) && Truthy(row.email) && !EmailTaken(st.users, row.email.value) && ParseRole(row.status.GetOr("USER")).Some?
    ensures next.tally.created != st.tally.created ==>
      && slot.id in next.users && next.users == st.users[slot.id := next.users[slot.id]]
      && next.users[slot.id] == User(row.name.value, row.email.value, slot.password, ParseRole(row.status.GetOr("USER")).value, None)
    ensures !Truthy(row.name) || !Truthy(row.email) ==>
      next == st.(tally := st.tally.(skipped := st.tally.skipped + 1, errors := st.tally.errors + [MissingField]))
    ensures |st.tally.errors| <= |next.tally.errors| <= |st.tally.errors| + 1
    ensures next.tally.errors[..|st.tally.errors|] == st.tally.errors
    ensures Truthy(row.name) && Truthy(row.email) && EmailTaken(st.users, row.email.value) ==>
      next == st.(tally := st.tally.(skipped := st.tally.skipped + 1))
  {
    if !Truthy(row.name) || !Truthy(row.email) then
      st.(tally := st.tally.(skipped := st.tally.skipped + 1, errors := st.tally.errors + [MissingField]))
    else if EmailTaken(st.users, row.email.value) then
      st.(tally := st.tally.(skipped := st.tally.skipped + 1))
    else
      var role := ParseRole(row.status.GetOr("USER"));
      if role.None? then
        st.(tally := st.tally.(skipped := st.tally.skipped + 1, errors := st.tally.errors + [FailureText(row.email.value)]))
      else
        ImportState(st.users[slot.id := User(row.name.value, row.email.value, slot.password, role.value, None)],
                    st.tally.(created := st.tally.created + 1))
  }

  /** A new row without a status is created as a `USER`. */
  lemma ImportDefaultsToUser(st: ImportState, row: ImportRow, slot: Slot)
    requires Truthy(row.name) && Truthy(row.email) && !EmailTaken(st.users, row.email.value) && row.status.None?
    ensures ImportStep(st, row, slot).users[slot.id].status == USER
  {
    assert ParseRole("USER") == Some(USER);
  }

  /** The loop over the whole list. */
  function ImportFold(st: ImportState, rows: seq<ImportRow>, slots: seq<Slot>): ImportState
    requires |rows| == |slots|
    decreases |rows|
  {
    if rows == [] then st else ImportFold(ImportStep(st, rows[0], slots[0]), rows[1..], slots[1..])
  }

  /** `POST /users/import`. */
  method ImportUsers(db: Database, user: Principal, rows: Option<seq<ImportRow>>, slots: seq<Slot>) returns (r: Response<ImportTally>)
    requires rows.Some? ==> |slots| == |rows.value|
    modifies db`users
    ensures user.status != ADMIN ==> r == Refused(403, "Accès non autorisé") && db.users == old(db.users)
    ensures user.status == ADMIN && (rows.None? || rows.value == []) ==>
      r == Refused(400, "Aucun utilisateur fourni") && db.users == old(db.users)
    ensures user.status == ADMIN && rows.Some? && rows.value != [] ==>
      var fin := ImportFold(ImportState(old(db.users), ImportTally(0, 0, [])), rows.value, slots);
      r == Ok(fin.tally) && db.users == fin.users
  {
    var gate := Auth.Authorize([ADMIN], Some(user));
    if gate.Reject? {
      return Refused(gate.status, gate.error);
    }
    if rows.None? || |rows.value| == 0 {
      return Refused(400, "Aucun utilisateur fourni");
    }
    var list := rows.value;
    ghost var start := ImportState(db.users, ImportTally(0, 0, []));
    var created, skipped, errors := 0, 0, [];
    var i := 0;
    while i < |list|
      invariant 0 <= i <= |list|
      invariant ImportFold(ImportState(db.users, ImportTally(created, skipped, errors)), list[i..], slots[i..])
        == ImportFold(start, list, slots)
    {
      ghost var before := ImportState(db.users, ImportTally(created, skipped, errors));
      assert list[i..][0] == list[i] && list[i..][1..] == list[i + 1..];
      assert slots[i..][0] == slots[i] && slots[i..][1..] == slots[i + 1..];
      var row := list[i];
      if !Truthy(row.name) || !Truthy(row.email) {
        errors := errors + [MissingField];
        skipped := skipped + 1;
      } else if EmailTaken(db.users, row.email.value) {
        skipped := skipped + 1;
      } else {
        var role := ParseRole(row.status.GetOr("USER"));
        if role.None? {
          errors := errors + [FailureText(row.email.value)];
          skipped := skipped + 1;
        } else {
          db.users := db.users[slots[i].id := User(row.name.value, row.email.value, slots[i].password, role.value, None)];
          created := created + 1;
        }
      }
      assert ImportState(db.users, ImportTally(created, skipped, errors)) == ImportStep(before, row, slots[i]);
      i := i + 1;
    }
    r := Ok(ImportTally(created, skipped, errors));
  }

  /** Every row counts once: as created or as skipped. */
  lemma {:induction false} ImportAccounting(st: ImportState, rows: seq<ImportRow>, slots: seq<Slot>)
    requires |rows| == |slots|
    ensures var fin := ImportFold(st, rows, slots);
      && fin.tally.created + fin.tally.skipped == st.tally.created + st.tally.skipped + |rows|
      && |st.tally.errors| <= |fin.tally.errors| <= |st.tally.errors| + |rows|
      && fin.tally.errors[..|st.tally.errors|] == st.tally.errors
    decreases |rows|
  {
    if rows != [] {
      var next := ImportStep(st, rows[0], slots[0]);
      ImportAccounting(next, rows[1..], slots[1..]);
      var fin := ImportFold(next, rows[1..], slots[1..]);
      assert fin.tally.errors[..|st.tally.errors|] == fin.tally.errors[..|next.tally.errors|][..|st.tally.errors|];
    }
  }

  /** A row is well formed: it has a name and an address, and its status, if any, is a value of the enum. */
  predicate WellFormed(row: ImportRow) {
    Truthy(row.name) && Truthy(row.email) && ParseRole(row.status.GetOr("USER")).Some?
  }

  /** Errors are recorded only for a missing name or address and for a refused status: a list of well-formed rows records none, whichever addresses already exist. */
  lemma {:induction false} ImportNoErrors(st: ImportState, rows: seq<ImportRow>, slots: seq<Slot>)
    requires |rows| == |slots|
    requires forall k :: 0 <= k < |rows| ==> WellFormed(rows[k])
    ensures ImportFold(st, rows, slots).tally.errors == st.tally.errors
    decreases |rows|
  {
    if rows != [] {
      assert WellFormed(rows[0]);
      assert forall k :: 0 <= k < |rows[1..]| ==> WellFormed(rows[1..][k]) by {
        forall k | 0 <= k < |rows[1..]| ensures WellFormed(rows[1..][k]) {
          assert rows[1..][k] == rows[k + 1];
        }
      }
      ImportNoErrors(ImportStep(st, rows[0], slots[0]), rows[1..], slots[1..]);
    }
  }

  /** The ids the database gives the rows are new and pairwise different. */
  predicate FreshSlots(users: map<Id, User>, slots: seq<Slot>) {
    && (forall k :: 0 <= k < |slots| ==> slots[k].id !in users)
    && (forall a, b :: 0 <= a < b < |slots| ==> slots[a].id != slots[b].id)
  }

  lemma FreshTail(st: ImportState, row: ImportRow, slots: seq<Slot>)
    requires |slots| >= 1 && FreshSlots(st.users, slots)
    ensures FreshSlots(ImportStep(st, row, slots[0]).users, slots[1..])
  {
    var next := ImportStep(st, row, slots[0]);
    assert next.users.Keys <= st.users.Keys + {slots[0].id};
    forall k | 0 <= k < |slots[1..]| ensures slots[1..][k].id !in next.users {
      assert slots[1..][k] == slots[k + 1];
    }
    forall a, b | 0 <= a < b < |slots[1..]| ensures slots[1..][a].id != slots[1..][b].id {
      assert slots[1..][a] == slots[a + 1] && slots[1..][b] == slots[b + 1];
    }
  }

  /** Existing users are never changed, and each creation adds one user. */
  lemma {:induction false} ImportKeepsUsers(st: ImportState, rows: seq<ImportRow>, slots: seq<Slot>)
    requires |rows| == |slots| && FreshSlots(st.users, slots)
    ensures var fin := ImportFold(st, rows, slots);
      && (forall id :: id in st.users ==> id in fin.users && fin.users[id] == st.users[id])
      && fin.tally.created >= st.tally.created
      && |fin.users| == |st.users| + (fin.tally.created - st.tally.created)
    decreases |rows|
  {
    if rows != [] {
      var next := ImportStep(st, rows[0], slots[0]);
      FreshTail(st, rows[0], slots);
      ImportKeepsUsers(next, rows[1..], slots[1..]);
      if next.tally.created == st.tally.created + 1 {
        assert next.users.Keys == st.users.Keys + {slots[0].id};
      } else {
        assert next.users == st.users;
      }
    }
  }

  /** A well-formed row leaves its address taken, whether it was created or already there. */
  lemma StepTakesEmail(st: ImportState, row: ImportRow, slot: Slot)
    requires WellFormed(row)
    ensures EmailTaken(ImportStep(st, row, slot).users, row.email.value)
  {
    var next := ImportStep(st, row, slot);
    if !EmailTaken(st.users, row.email.value) {
      assert next.users[slot.id].email == row.email.value;
    }
  }

  lemma {:induction false} FoldKeepsEmail(st: ImportState, rows: seq<ImportRow>, slots: seq<Slot>, email: string)
    requires |rows| == |slots| && FreshSlots(st.users, slots) && EmailTaken(st.users, email)
    ensures EmailTaken(ImportFold(st, rows, slots).users, email)
  {
    ImportKeepsUsers(st, rows, slots);
    var id :| id in st.users && st.users[id].email == email;
    assert ImportFold(st, rows, slots).users[id] == st.users[id];
  }

  /** After the row at position `i`, its address is taken for the rest of the list. */
  lemma {:induction false} TakenAfter(st: ImportState, rows: seq<ImportRow>, slots: seq<Slot>, i: nat, j: nat)
    requires |rows| == |slots| && FreshSlots(st.users, slots)
    requires i < j <= |rows| && WellFormed(rows[i])
    ensures EmailTaken(ImportFold(st, rows[..j], slots[..j]).users, rows[i].email.value)
    decreases i
  {
    var next := ImportStep(st, rows[0], slots[0]);
    FreshTail(st, rows[0], slots);
    assert rows[..j][0] == rows[0] && slots[..j][0] == slots[0];
    assert rows[..j][1..] == rows[1..][..j - 1] && slots[..j][1..] == slots[1..][..j - 1];
    if i == 0 {
      StepTakesEmail(st, rows[0], slots[0]);
      assert FreshSlots(next.users, slots[1..][..j - 1]);
      FoldKeepsEmail(next, rows[1..][..j - 1], slots[1..][..j - 1], rows[0].email.value);
    } else {
      assert rows[1..][i - 1] == rows[i];
      TakenAfter(next, rows[1..], slots[1..], i - 1, j - 1);
    }
  }

  /** A row whose address an earlier row of the batch brought in is skipped, with no error and no change to the users. */
  lemma DuplicateInBatchSkipped(st: ImportState, rows: seq<ImportRow>, slots: seq<Slot>, i: nat, j: nat)
    requires |rows| == |slots| && FreshSlots(st.users, slots)
    requires i < j < |rows| && WellFormed(rows[i]) && Truthy(rows[j].name) && rows[j].email == rows[i].email
    ensures var before := ImportFold(st, rows[..j], slots[..j]);
      ImportStep(before, rows[j], slots[j]) == before.(tally := before.tally.(skipped := before.tally.skipped + 1))
  {
    TakenAfter(st, rows, slots, i, j);
  }

  // ---------------------------------------------------------------------------
  // Creating a shared reading with participants

  /** The participant rows of a new reading: the creator and each listed id, all at progress 0. */
  function Members(ps: map<(Id, Id), real>, id: Id, creator: Id, ids: seq<Id>): (r: map<(Id, Id), real>)
    ensures forall k: (Id, Id) :: k in r <==> k in ps || (k.0 == id && (k.1 == creator || k.1 in ids))
    ensures forall k :: k in r && k.0 == id && (k.1 == creator || k.1 in ids) ==> r[k] == 0.0
    ensures forall k :: k in ps && !(k.0 == id && (k.1 == creator || k.1 in ids)) ==> r[k] == ps[k]
  {
    ps + map u | u in [creator] + ids :: (id, u) := 0.0
  }

  /**
   * `POST /shared-readings`: the validated body, so `isPublic` defaults to
   * true and `participantIds` to the empty list. Listing the creator again
   * makes the insertion break the unique key of the participant table.
   */
  method CreateReading(db: Database, user: Principal, req: SharedReadings.CreateRequest, participantIds: Option<seq<Id>>,
                       id: Id, code: string, now: int) returns (r: Response<Reading>)
    requires db.Valid() && id !in db.readings
    modifies db`readings, db`participants
    ensures db.Valid()
    ensures user.status != ADMIN ==> r == Refused(403, "Accès non autorisé")
    ensures user.status == ADMIN && SharedReadings.CreateViolation(req).Some? ==>
      r == Refused(400, SharedReadings.CreateViolation(req).value)
    ensures user.status == ADMIN && SharedReadings.CreateViolation(req).None? && req.bookId.value !in db.books ==>
      r == Refused(404, "Livre non trouvé")
    ensures user.status == ADMIN && SharedReadings.CreateViolation(req).None? && req.bookId.value in db.books ==>
      var ids := participantIds.GetOr([]);
      && (!(Distinct(ids) && forall k :: 0 <= k < |ids| ==> ids[k] in db.users) ==>
            r == Refused(400, "Certains utilisateurs n'existent pas"))
      && (Distinct(ids) && (forall k :: 0 <= k < |ids| ==> ids[k] in db.users) && user.id in ids ==>
            r == ErrorHandler.Respond(ErrorHandler.UniqueViolation))
    ensures r.Ok? <==>
      && user.status == ADMIN && SharedReadings.CreateViolation(req).None? && req.bookId.value in db.books
      && var ids := participantIds.GetOr([]);
         Distinct(ids) && (forall k :: 0 <= k < |ids| ==> ids[k] in db.users) && user.id !in ids
    ensures !r.Ok? ==> db.readings == old(db.readings) && db.participants == old(db.participants)
    ensures r.Ok? ==>
      && db.readings == old(db.readings)[id := r.value]
      && db.participants == Members(old(db.participants), id, user.id, participantIds.GetOr([]))
      && r.value.createdBy == user.id && r.value.bookId == req.bookId.value && r.value.title == req.title.value
      && r.value.description == req.description
      && r.value.startDate == req.startDate.value && r.value.endDate == req.endDate.value
      && r.value.isPublic == req.isPublic.GetOr(true)
      && (r.value.inviteCode.Some? <==> !r.value.isPublic)
  {
    var gate := Auth.Authorize([ADMIN], Some(user));
    if gate.Reject? {
      return Refused(gate.status, gate.error);
    }
    var violation := SharedReadings.CreateViolation(req);
    if violation.Some? {
      return Refused(400, violation.value);
    }
    if req.bookId.value !in db.books {
      return Refused(404, "Livre non trouvé");
    }
    var ids := participantIds.GetOr([]);
    FoundAll(ids, db.users.Keys);
    if |ids| > 0 {
      var found := ToSet(ids) * db.users.Keys;
      if |found| != |ids| {
        return Refused(400, "Certains utilisateurs n'existent pas");
      }
    }
    if user.id in ids {
      return ErrorHandler.Respond(ErrorHandler.UniqueViolation);
    }
    var isPublic := req.isPublic.GetOr(true);
    var inviteCode := if !isPublic then Some(code) else None;
    var reading := Reading(
      req.title.value, req.description, req.bookId.value, req.startDate.value, req.endDate.value,
      isPublic, inviteCode, user.id, now);
    InsertReading(db, id, reading, ids);
    r := Ok(reading);
  }

  /** Inserting a reading of an existing book and its members keeps the tables consistent. */
  method InsertReading(db: Database, id: Id, reading: Reading, ids: seq<Id>)
    requires db.Valid() && id !in db.readings && reading.bookId in db.books
    modifies db`readings, db`participants
    ensures db.Valid()
    ensures db.readings == old(db.readings)[id := reading]
    ensures db.participants == Members(old(db.participants), id, reading.createdBy, ids)
  {
    db.readings := db.readings[id := reading];
    db.participants := Members(db.participants, id, reading.createdBy, ids);
  }

  /** The new reading has one member more than the list names: the creator. */
  lemma MembersCount(ps: map<(Id, Id), real>, id: Id, creator: Id, ids: seq<Id>)
    requires Distinct(ids) && creator !in ids
    requires forall k: (Id, Id) :: k in ps ==> k.0 != id
    ensures |set k | k in Members(ps, id, creator, ids) && k.0 == id| == |ids| + 1
  {
    var m := Members(ps, id, creator, ids);
    var s := set k | k in m && k.0 == id;
    var t := [creator] + ids;
    assert Distinct(t) by {
      forall a, b | 0 <= a < b < |t| ensures t[a] != t[b] {
        if a == 0 {
          assert t[b] == ids[b - 1];
        } else {
          assert t[a] == ids[a - 1] && t[b] == ids[b - 1];
        }
      }
    }
    ToSetSize(t);
    assert s == set u | u in ToSet(t) :: (id, u);
    PairSetSize(ToSet(t), id);
  }

  lemma PairSetSize(us: set<Id>, id: Id)
    ensures |set u | u in us :: (id, u)| == |us|
    decreases |us|
  {
    if us != {} {
      var u :| u in us;
      PairSetSize(us - {u}, id);
      assert (set x | x in us :: (id, x)) == (set x | x in us - {u} :: (id, x)) + {(id, u)};
    }
  }
}
