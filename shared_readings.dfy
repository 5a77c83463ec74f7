/**
 * The shared-reading routes: the public listing, reading one shared reading,
 * creating one, joining it, editing it, replacing its participants and
 * recording a reader's progress.
 */
module SharedReadings {
  import opened Common
  import opened Store
  import Auth
  import ErrorHandler

  const NotFound := "Lecture partagée non trouvée"
  const Forbidden := "Permissions insuffisantes"

  // ---------------------------------------------------------------------------
  // Access

  /** Who may see a reading: anyone when it is public, else its creator and its participants. */
  predicate CanView(reading: Reading, participants: map<(Id, Id), real>, readingId: Id, userId: Id) {
    reading.isPublic || reading.createdBy == userId || IsParticipant(participants, readingId, userId)
  }

  /** Who may edit a reading or its participants: an administrator or its creator. */
  predicate CanEdit(user: Principal, reading: Reading) {
    user.status == ADMIN || reading.createdBy == user.id
  }

  /** `GET /:id`. */
  function GetReading(readings: map<Id, Reading>, participants: map<(Id, Id), real>, id: Id, userId: Id): (r: Response<Reading>)
    ensures id !in readings ==> r == Refused(404, NotFound)
    ensures id in readings && !CanView(readings[id], participants, id, userId) ==> r == Refused(403, "Accès non autorisé")
    ensures r.Ok? <==> id in readings && CanView(readings[id], participants, id, userId)
    ensures r.Ok? ==> r.value == readings[id]
  {
    if id !in readings then Refused(404, NotFound)
    else if !CanView(readings[id], participants, id, userId) then Refused(403, "Accès non autorisé")
    else Ok(readings[id])
  }

  // ---------------------------------------------------------------------------
  // Public listing

  /** A reading as the listing query joins it with its book. */
  datatype ListingRow = ListingRow(id: Id, reading: Reading, book: Book)

  /** The query string: `page` and `limit` as `parseInt` reads them, and the optional search term. */
  datatype ListingQuery = ListingQuery(page: ParsedInt, limit: ParsedInt, search: Option<string>)

  datatype ListingPage = ListingPage(rows: seq<ListingRow>, page: int, limit: int, total: nat, pages: int)

  /** Case-insensitive `contains`. */
  predicate ContainsInsensitive(s: string, term: string) {
    Contains(Lower(s), Lower(term))
  }

  predicate MatchesSearch(row: ListingRow, term: string) {
    ContainsInsensitive(row.reading.title, term) || ContainsInsensitive(row.book.title, term)
      || ContainsInsensitive(row.book.author, term)
  }

  /** The listing's `where`: public, not yet ended, and matching the search term when there is one. */
  predicate Listed(row: ListingRow, now: int, search: Option<string>) {
    row.reading.isPublic && row.reading.endDate >= now && (!Truthy(search) || MatchesSearch(row, search.value))
  }

  predicate NewestFirst(rows: seq<ListingRow>) {
    forall i, j :: 0 <= i < j < |rows| ==> rows[i].reading.createdAt >= rows[j].reading.createdAt
  }

  lemma {:induction false} SubsequenceKeepsOrder(xs: seq<ListingRow>, ys: seq<ListingRow>)
    requires IsSubsequence(xs, ys) && NewestFirst(ys)
    ensures NewestFirst(xs)
    decreases |ys|
  {
    if xs != [] && ys != [] {
      if xs[0] == ys[0] {
        SubsequenceKeepsOrder(xs[1..], ys[1..]);
        SubsequenceMembers(xs[1..], ys[1..]);
        forall j | 0 < j < |xs| ensures xs[0].reading.createdAt >= xs[j].reading.createdAt {
          assert xs[j] == xs[1..][j - 1];
          assert xs[j] in ys[1..];
          var k :| 0 <= k < |ys[1..]| && ys[1..][k] == xs[j];
          assert ys[k + 1] == xs[j];
        }
        forall i, j | 0 < i < j < |xs| ensures xs[i].reading.createdAt >= xs[j].reading.createdAt {
          assert xs[i] == xs[1..][i - 1] && xs[j] == xs[1..][j - 1];
        }
      } else {
        assert NewestFirst(ys[1..]) by {
          forall i, j | 0 <= i < j < |ys[1..]| ensures ys[1..][i].reading.createdAt >= ys[1..][j].reading.createdAt {
            assert ys[1..][i] == ys[i + 1] && ys[1..][j] == ys[j + 1];
          }
        }
        SubsequenceKeepsOrder(xs, ys[1..]);
      }
    }
  }

  /**
   * `GET /public`: `rows` are the readings joined with their books in the
   * order of the query (`createdAt` descending). Page and limit default to 1
   * and 10 when missing, unparsable or 0; a negative skip is refused by the
   * database client.
   */
  function PublicListing(rows: seq<ListingRow>, now: int, q: ListingQuery): (r: Response<ListingPage>)
    ensures var page, limit := IntOr(q.page, 1), IntOr(q.limit, 10);
      && (r.Ok? <==> (page - 1) * limit >= 0)
      && (!r.Ok? ==> r == ErrorHandler.Respond(ErrorHandler.InvalidArgument))
      && (r.Ok? ==>
        var matching := Filter(rows, (x: ListingRow) => Listed(x, now, q.search));
        && r.value.page == page && r.value.limit == limit
        && r.value.total == |matching| && r.value.pages == CeilDiv(|matching|, limit)
        && Window(matching, (page - 1) * limit, limit) == Some(r.value.rows))
    ensures r.Ok? ==> forall k :: 0 <= k < |r.value.rows| ==> r.value.rows[k] in rows && Listed(r.value.rows[k], now, q.search)
    ensures r.Ok? && NewestFirst(rows) ==> NewestFirst(r.value.rows)
  {
    var page, limit := IntOr(q.page, 1), IntOr(q.limit, 10);
    var matching := Filter(rows, (x: ListingRow) => Listed(x, now, q.search));
    var window := Window(matching, (page - 1) * limit, limit);
    if window.None? then ErrorHandler.Respond(ErrorHandler.InvalidArgument)
    else
      WindowInside(matching, (page - 1) * limit, limit);
      SubsequenceKeepsOrderOfWindow(matching, rows, (page - 1) * limit, limit);
      Ok(ListingPage(window.value, page, limit, |matching|, CeilDiv(|matching|, limit)))
  }

  /** A window's rows are rows of the sequence. */
  lemma WindowInside<T>(xs: seq<T>, skip: int, take: int)
    requires Window(xs, skip, take).Some?
    ensures forall k :: 0 <= k < |Window(xs, skip, take).value| ==> Window(xs, skip, take).value[k] in xs
  {
    var w := Window(xs, skip, take).value;
    var lo, hi :| 0 <= lo <= hi <= |xs| && w == xs[lo..hi];
    forall k | 0 <= k < |w| ensures w[k] in xs {
      assert w[k] == xs[lo + k];
    }
  }

  lemma SubsequenceKeepsOrderOfWindow(matching: seq<ListingRow>, rows: seq<ListingRow>, skip: int, take: int)
    requires IsSubsequence(matching, rows) && Window(matching, skip, take).Some?
    ensures NewestFirst(rows) ==> NewestFirst(Window(matching, skip, take).value)
  {
    if NewestFirst(rows) {
      SubsequenceKeepsOrder(matching, rows);
      var w := Window(matching, skip, take).value;
      var lo, hi :| 0 <= lo <= hi <= |matching| && w == matching[lo..hi];
      forall i, j | 0 <= i < j < |w| ensures w[i].reading.createdAt >= w[j].reading.createdAt {
        assert w[i] == matching[lo + i] && w[j] == matching[lo + j];
      }
    }
  }

  /** Without paging parameters the listing is the first ten matching readings, and the page count covers them all. */
  lemma DefaultListing(rows: seq<ListingRow>, now: int, search: Option<string>)
    ensures var r := PublicListing(rows, now, ListingQuery(NotANumber, NotANumber, search));
      var matching := Filter(rows, (x: ListingRow) => Listed(x, now, search));
      && r.Ok? && r.value.page == 1 && r.value.limit == 10
      && r.value.rows == matching[..if |matching| < 10 then |matching| else 10]
      && (r.value.pages - 1) * 10 < |matching| <= r.value.pages * 10
  {
  }

  // ---------------------------------------------------------------------------
  // Creation

  /** The request body of `POST /`; dates are numbers of milliseconds. */
  datatype CreateRequest = CreateRequest(
    title: Option<string>, description: Option<string>, bookId: Option<string>,
    startDate: Option<int>, endDate: Option<int>, isPublic: Option<bool>)

  /**
   * The first key of the creation schema whose rule the body breaks: title of
   * 3 to 200 characters, description of at most 1000, a book id, a start date
   * and an end date after it. Empty strings are refused.
   */
  function CreateViolation(req: CreateRequest): (key: Option<string>)
    ensures key.None? <==>
      && req.title.Some? && 3 <= |req.title.value| <= 200
      && (req.description.None? || 1 <= |req.description.value| <= 1000)
      && Truthy(req.bookId) && req.startDate.Some? && req.endDate.Some? && req.startDate.value < req.endDate.value
    ensures key == Some("title") <==> req.title.None? || !(3 <= |req.title.value| <= 200)
  {
    if req.title.None? || !(3 <= |req.title.value| <= 200) then Some("title")
    else if req.description.Some? && !(1 <= |req.description.value| <= 1000) then Some("description")
    else if !Truthy(req.bookId) then Some("bookId")
    else if req.startDate.None? then Some("startDate")
    else if req.endDate.None? || req.endDate.value <= req.startDate.value then Some("endDate")
    else None
  }

  /**
   * `POST /`: `id` is the new row's id, `code` the random invite code and
   * `columnDefault` the column default of `isPublic`. The handler reads the
   * raw body after validating it, so an omitted `isPublic` stores the column
   * default yet still generates an invite code.
   */
  method Create(db: Database, user: Principal, req: CreateRequest, id: Id, code: string, columnDefault: bool, now: int)
    returns (r: Response<Reading>)
    requires db.Valid() && id !in db.readings
    modifies db`readings, db`participants
    ensures db.Valid()
    ensures Auth.Authorize(Auth.Creators, Some(user)).Reject? ==>
      r == Refused(Auth.Authorize(Auth.Creators, Some(user)).status, Auth.Authorize(Auth.Creators, Some(user)).error)
    ensures user.status in Auth.Creators && CreateViolation(req).Some? ==> r == Refused(400, CreateViolation(req).value)
    ensures user.status in Auth.Creators && CreateViolation(req).None? && req.bookId.value !in db.books ==>
      r == Refused(404, "Livre non trouvé")
    ensures r.Ok? <==> user.status in Auth.Creators && CreateViolation(req).None? && req.bookId.value in db.books
    ensures !r.Ok? ==> db.readings == old(db.readings) && db.participants == old(db.participants)
    ensures r.Ok? ==>
      && db.readings == old(db.readings)[id := r.value]
      && db.participants == old(db.participants)[(id, user.id) := 0.0]
      && r.value.createdBy == user.id && r.value.bookId == req.bookId.value && r.value.title == req.title.value
      && r.value.description == req.description
      && r.value.startDate == req.startDate.value && r.value.endDate == req.endDate.value
      && r.value.isPublic == req.isPublic.GetOr(columnDefault)
      && (r.value.inviteCode.Some? <==> req.isPublic != Some(true))
      && (forall u :: IsParticipant(db.participants, id, u) <==> u == user.id)
  {
    var gate := Auth.Authorize(Auth.Creators, Some(user));
    if gate.Reject? {
      return Refused(gate.status, gate.error);
    }
    var violation := CreateViolation(req);
    if violation.Some? {
      return Refused(400, violation.value);
    }
    if req.bookId.value !in db.books {
      return Refused(404, "Livre non trouvé");
    }
    var inviteCode := if req.isPublic != Some(true) then Some(code) else None;
    var reading := Reading(
      req.title.value, req.description, req.bookId.value, req.startDate.value, req.endDate.value,
      req.isPublic.GetOr(columnDefault), inviteCode, user.id, now);
    db.readings := db.readings[id := reading];
    db.participants := db.participants[(id, user.id) := 0.0];
    r := Ok(reading);
  }

  // ---------------------------------------------------------------------------
  // Joining

  /** `reading.inviteCode !== inviteCode`, negated: a null stored code equals no given code. */
  predicate CodeMatches(stored: Option<string>, given: Option<string>) {
    stored.Some? && given == stored
  }

  /** The guards of `POST /:id/join`, in their order. */
  function JoinGate(reading: Option<Reading>, joined: bool, code: Option<string>, now: int): (g: Gate)
    ensures reading.None? ==> g == Reject(404, NotFound)
    ensures reading.Some? && joined ==> g == Reject(400, "Vous participez déjà à cette lecture")
    ensures reading.Some? && !joined && !reading.value.isPublic && !CodeMatches(reading.value.inviteCode, code) ==>
      g == Reject(403, "Code d'invitation invalide")
    ensures g == Proceed <==>
      reading.Some? && !joined && (reading.value.isPublic || CodeMatches(reading.value.inviteCode, code)) && now <= reading.value.endDate
    ensures (reading.Some? && !joined && (reading.value.isPublic || CodeMatches(reading.value.inviteCode, code))
             && now > reading.value.endDate) ==> g == Reject(400, "Cette lecture est terminée")
  {
    if reading.None? then Reject(404, NotFound)
    else if joined then Reject(400, "Vous participez déjà à cette lecture")
    else if !reading.value.isPublic && !CodeMatches(reading.value.inviteCode, code) then Reject(403, "Code d'invitation invalide")
    else if now > reading.value.endDate then Reject(400, "Cette lecture est terminée")
    else Proceed
  }

  function Lookup(readings: map<Id, Reading>, id: Id): Option<Reading> {
    if id in readings then Some(readings[id]) else None
  }

  /** `POST /:id/join`: one participant row, at progress 0, when the guards pass; nothing otherwise. */
  method Join(db: Database, user: Principal, id: Id, code: Option<string>, now: int) returns (r: Response<()>)
    requires db.Valid()
    modifies db`participants
    ensures db.Valid()
    ensures var g := JoinGate(Lookup(db.readings, id), IsParticipant(old(db.participants), id, user.id), code, now);
      && (g.Reject? ==> r == Refused(g.status, g.error) && db.participants == old(db.participants))
      && (g == Proceed ==> r == Ok(()) && db.participants == old(db.participants)[(id, user.id) := 0.0])
  {
    var g := JoinGate(Lookup(db.readings, id), IsParticipant(db.participants, id, user.id), code, now);
    if g.Reject? {
      return Refused(g.status, g.error);
    }
    db.participants := db.participants[(id, user.id) := 0.0];
    r := Ok(());
  }

  /** A join that went through adds exactly one row, and any later join of the same user is refused with 400. */
  lemma JoinOnce(ps: map<(Id, Id), real>, readings: map<Id, Reading>, id: Id, userId: Id, code: Option<string>, now: int, code2: Option<string>, later: int)
    requires JoinGate(Lookup(readings, id), IsParticipant(ps, id, userId), code, now) == Proceed
    ensures |ps[(id, userId) := 0.0].Keys| == |ps.Keys| + 1
    ensures JoinGate(Lookup(readings, id), IsParticipant(ps[(id, userId) := 0.0], id, userId), code2, later)
      == Reject(400, "Vous participez déjà à cette lecture")
  {
    assert ps[(id, userId) := 0.0].Keys == ps.Keys + {(id, userId)};
  }

  // ---------------------------------------------------------------------------
  // Editing

  /** The body of `PUT /:id`; `description` is `Some(None)` for an explicit null. Dates are numbers, falsy when 0. */
  datatype UpdateRequest = UpdateRequest(
    title: Option<string>, description: Option<Option<string>>, bookId: Option<string>,
    startDate: Option<int>, endDate: Option<int>)

  predicate TruthyTime(t: Option<int>) {
    t.Some? && t.value != 0
  }

  /** The row after the update: a truthy title, book id or date replaces the old one, a defined description replaces it, nothing else changes. */
  predicate Updated(before: Reading, req: UpdateRequest, after: Reading) {
    && after.title == (if Truthy(req.title) then req.title.value else before.title)
    && after.description == (if req.description.Some? then req.description.value else before.description)
    && after.bookId == (if Truthy(req.bookId) then req.bookId.value else before.bookId)
    && after.startDate == (if TruthyTime(req.startDate) then req.startDate.value else before.startDate)
    && after.endDate == (if TruthyTime(req.endDate) then req.endDate.value else before.endDate)
    && after.isPublic == before.isPublic && after.inviteCode == before.inviteCode
    && after.createdBy == before.createdBy && after.createdAt == before.createdAt
  }

  /** The same edit sent twice changes nothing the second time. */
  lemma UpdateIdempotent(a: Reading, req: UpdateRequest, b: Reading, c: Reading)
    requires Updated(a, req, b) && Updated(b, req, c)
    ensures b == c
  {
  }

  /**
   * `PUT /:id`: the update object is assembled field by field. A new book id
   * that names no book breaks the foreign key, which the error handler answers.
   */
  method UpdateReading(db: Database, user: Principal, id: Id, req: UpdateRequest) returns (r: Response<Reading>)
    requires db.Valid()
    modifies db`readings
    ensures db.Valid()
    ensures id !in old(db.readings) ==> r == Refused(404, NotFound)
    ensures id in old(db.readings) && !CanEdit(user, old(db.readings)[id]) ==> r == Refused(403, Forbidden)
    ensures id in old(db.readings) && CanEdit(user, old(db.readings)[id]) && Truthy(req.bookId) && req.bookId.value !in db.books ==>
      r == ErrorHandler.Respond(ErrorHandler.ForeignKeyViolation)
    ensures r.Ok? <==>
      id in old(db.readings) && CanEdit(user, old(db.readings)[id]) && (!Truthy(req.bookId) || req.bookId.value in db.books)
    ensures r.Ok? ==> Updated(old(db.readings)[id], req, r.value) && db.readings == old(db.readings)[id := r.value]
    ensures !r.Ok? ==> db.readings == old(db.readings)
  {
    if id !in db.readings {
      return Refused(404, NotFound);
    }
    var before := db.readings[id];
    if !CanEdit(user, before) {
      return Refused(403, Forbidden);
    }
    var title, description, bookId, startDate, endDate := None, None, None, None, None;
    if Truthy(req.title) { title := req.title; }
    if req.description.Some? { description := req.description; }
    if Truthy(req.bookId) { bookId := req.bookId; }
    if TruthyTime(req.startDate) { startDate := req.startDate; }
    if TruthyTime(req.endDate) { endDate := req.endDate; }
    if bookId.Some? && bookId.value !in db.books {
      return ErrorHandler.Respond(ErrorHandler.ForeignKeyViolation);
    }
    var after := before.(
      title := title.GetOr(before.title),
      description := description.GetOr(before.description),
      bookId := bookId.GetOr(before.bookId),
      startDate := startDate.GetOr(before.startDate),
      endDate := endDate.GetOr(before.endDate));
    db.readings := db.readings[id := after];
    r := Ok(after);
  }

  // ---------------------------------------------------------------------------
  // Replacing the participants

  /** `deleteMany`: the reading's rows other than the creator's go. */
  function WithoutOthers(ps: map<(Id, Id), real>, id: Id, creator: Id): (r: map<(Id, Id), real>)
    ensures forall k: (Id, Id) :: k in r <==> k in ps && (k.0 != id || k.1 == creator)
    ensures forall k :: k in r ==> r[k] == ps[k]
  {
    map k | k in ps && (k.0 != id || k.1 == creator) :: ps[k]
  }

  /** `createMany` with `skipDuplicates`: a row at progress 0 for each listed id other than the creator's. */
  function WithNew(ps: map<(Id, Id), real>, id: Id, creator: Id, ids: seq<Id>): (r: map<(Id, Id), real>)
    ensures forall k: (Id, Id) :: k in r <==> k in ps || (k.0 == id && k.1 in ids && k.1 != creator)
    ensures forall k :: k in ps ==> r[k] == ps[k]
  {
    var added := map u | u in ids && u != creator && (id, u) !in ps :: (id, u) := 0.0;
    ps + added
  }

  /**
   * The participant table after a replacement: the reading's members are the
   * creator, if it had a row, and every listed id; the creator keeps its
   * progress, the others start at 0, and other readings are untouched.
   */
  lemma ReplacedRows(ps: map<(Id, Id), real>, id: Id, creator: Id, ids: seq<Id>)
    ensures var r := WithNew(WithoutOthers(ps, id, creator), id, creator, ids);
      && (forall u :: (id, u) in r <==> ((id, u) in ps && u == creator) || (u in ids && u != creator))
      && (forall u :: u in ids && u != creator ==> r[(id, u)] == 0.0)
      && ((id, creator) in ps ==> r[(id, creator)] == ps[(id, creator)])
      && (forall k: (Id, Id) :: k.0 != id ==> (k in r <==> k in ps))
      && (forall k: (Id, Id) :: k.0 != id && k in ps ==> r[k] == ps[k])
  {
    var kept := WithoutOthers(ps, id, creator);
    var r := WithNew(kept, id, creator, ids);
    forall u | u in ids && u != creator ensures r[(id, u)] == 0.0 {
      assert (id, u) !in kept;
    }
  }

  /**
   * `PUT /:id/participants`. The removal runs before the insertion, so when a
   * listed id names no user the insertion fails and the error handler answers,
   * with the reading's other members already gone.
   */
  method ReplaceParticipants(db: Database, user: Principal, id: Id, userIds: Option<seq<Id>>) returns (r: Response<()>)
    requires db.Valid()
    modifies db`participants
    ensures db.Valid()
    ensures userIds.None? ==> r == Refused(400, "userIds doit être un tableau")
    ensures userIds.Some? && id !in db.readings ==> r == Refused(404, NotFound)
    ensures userIds.Some? && id in db.readings && !CanEdit(user, db.readings[id]) ==> r == Refused(403, Forbidden)
    ensures userIds.None? || id !in db.readings || !CanEdit(user, db.readings[id]) ==> db.participants == old(db.participants)
    ensures userIds.Some? && id in db.readings && CanEdit(user, db.readings[id]) ==>
      var creator := db.readings[id].createdBy;
      var kept := WithoutOthers(old(db.participants), id, creator);
      if forall u :: u in userIds.value && u != creator ==> u in db.users then
        r == Ok(()) && db.participants == WithNew(kept, id, creator, userIds.value)
      else
        r == ErrorHandler.Respond(ErrorHandler.ForeignKeyViolation) && db.participants == kept
  {
    if userIds.None? {
      return Refused(400, "userIds doit être un tableau");
    }
    if id !in db.readings {
      return Refused(404, NotFound);
    }
    var reading := db.readings[id];
    if !CanEdit(user, reading) {
      return Refused(403, Forbidden);
    }
    var creator := reading.createdBy;
    db.participants := WithoutOthers(db.participants, id, creator);
    var ids := userIds.value;
    if |ids| > 0 {
      if !(forall u :: u in ids && u != creator ==> u in db.users) {
        return ErrorHandler.Respond(ErrorHandler.ForeignKeyViolation);
      }
      db.participants := WithNew(db.participants, id, creator, ids);
    } else {
      assert WithNew(db.participants, id, creator, ids) == db.participants;
    }
    r := Ok(());
  }

  // ---------------------------------------------------------------------------
  // Progress

  /** `Math.min(1, Math.max(0, progress))`. */
  function Clamp(x: real): (c: real)
    ensures 0.0 <= c <= 1.0
    ensures 0.0 <= x <= 1.0 ==> c == x
    ensures x < 0.0 ==> c == 0.0
    ensures x > 1.0 ==> c == 1.0
  {
    if x < 0.0 then 0.0 else if x > 1.0 then 1.0 else x
  }

  /**
   * `PUT /:id/progress`: the participant row keeps the clamped progress, the
   * reading session the raw one, with `cfi || ''` and the time of the call.
   */
  method UpdateProgress(db: Database, user: Principal, id: Id, progress: real, cfi: Option<string>, now: int)
    returns (r: Response<()>)
    requires db.Valid()
    modifies db`participants, db`sessions
    ensures db.Valid()
    ensures !IsParticipant(old(db.participants), id, user.id) ==>
      r == Refused(403, "Vous ne participez pas à cette lecture")
      && db.participants == old(db.participants) && db.sessions == old(db.sessions)
    ensures IsParticipant(old(db.participants), id, user.id) ==>
      && r == Ok(())
      && db.participants == old(db.participants)[(id, user.id) := Clamp(progress)]
      && db.sessions == old(db.sessions)[(id, user.id) := Session(OrElse(cfi, ""), progress, now)]
  {
    if !IsParticipant(db.participants, id, user.id) {
      return Refused(403, "Vous ne participez pas à cette lecture");
    }
    db.participants := db.participants[(id, user.id) := Clamp(progress)];
    db.sessions := db.sessions[(id, user.id) := Session(OrElse(cfi, ""), progress, now)];
    r := Ok(());
  }
}
