/**
 * The annotation routes: listing a reading's annotations, creating, editing
 * and deleting an annotation, turning one into a citation, and the
 * per-reader counts of a reading's annotations.
 */
module Annotations {
  import opened Common
  import opened Store
  import SharedReadings

  const AnnotationNotFound := "Annotation non trouvée"
  const NotParticipant := "Vous devez participer à cette lecture pour ajouter des annotations"
  const NotAuthorEdit := "Vous ne pouvez modifier que vos propres annotations"
  const NotAuthorDelete := "Vous ne pouvez supprimer que vos propres annotations"

  /** A row of the annotation table, in the table's storage order. */
  datatype AnnotationRow = AnnotationRow(id: Id, annotation: Annotation)

  // ---------------------------------------------------------------------------
  // Listing

  /** The listing's `where`: the reading's annotations that are public or the requester's own. */
  predicate Visible(row: AnnotationRow, readingId: Id, userId: Id) {
    row.annotation.readingId == readingId && (row.annotation.isPublic || row.annotation.userId == userId)
  }

  /** `orderBy: [{ page: 'asc' }, { createdAt: 'asc' }]`: `a` may come before `b`. */
  predicate Before(a: AnnotationRow, b: AnnotationRow) {
    a.annotation.page < b.annotation.page
    || (a.annotation.page == b.annotation.page && a.annotation.createdAt <= b.annotation.createdAt)
  }

  predicate Ordered(rows: seq<AnnotationRow>) {
    forall i, j :: 0 <= i < j < |rows| ==> Before(rows[i], rows[j])
  }

  function Insert(x: AnnotationRow, rows: seq<AnnotationRow>): seq<AnnotationRow>
    decreases |rows|
  {
    if rows == [] then [x]
    else if Before(x, rows[0]) then [x] + rows
    else [rows[0]] + Insert(x, rows[1..])
  }

  /** The database's ordering of the rows, as an insertion sort. */
  function SortRows(rows: seq<AnnotationRow>): seq<AnnotationRow>
    decreases |rows|
  {
    if rows == [] then [] else Insert(rows[0], SortRows(rows[1..]))
  }

  lemma {:induction false} InsertPermutes(x: AnnotationRow, rows: seq<AnnotationRow>)
    ensures multiset(Insert(x, rows)) == multiset(rows) + multiset{x}
    decreases |rows|
  {
    if rows != [] && !Before(x, rows[0]) {
      InsertPermutes(x, rows[1..]);
      assert rows == [rows[0]] + rows[1..];
    }
  }

  /** The first row of an ordered list comes before every row of it. */
  lemma HeadFirst(rows: seq<AnnotationRow>)
    requires Ordered(rows) && rows != []
    ensures forall y :: y in rows ==> Before(rows[0], y)
  {
  }

  lemma OrderedTail(rows: seq<AnnotationRow>)
    requires Ordered(rows) && rows != []
    ensures Ordered(rows[1..])
  {
    var tail := rows[1..];
    forall i, j | 0 <= i < j < |tail| ensures Before(tail[i], tail[j]) {
      assert tail[i] == rows[i + 1] && tail[j] == rows[j + 1];
    }
  }

  lemma OrderedCons(h: AnnotationRow, rest: seq<AnnotationRow>)
    requires Ordered(rest) && forall y :: y in rest ==> Before(h, y)
    ensures Ordered([h] + rest)
  {
    var r := [h] + rest;
    forall i, j | 0 <= i < j < |r| ensures Before(r[i], r[j]) {
      assert r[j] == rest[j - 1];
      if i > 0 {
        assert r[i] == rest[i - 1];
      }
    }
  }

  lemma {:induction false} InsertOrdered(x: AnnotationRow, rows: seq<AnnotationRow>)
    requires Ordered(rows)
    ensures Ordered(Insert(x, rows))
    decreases |rows|
  {
    if rows == [] {
    } else if Before(x, rows[0]) {
      HeadFirst(rows);
      OrderedCons(x, rows);
    } else {
      var tail := rows[1..];
      OrderedTail(rows);
      InsertOrdered(x, tail);
      InsertPermutes(x, tail);
      HeadFirst(rows);
      var rest := Insert(x, tail);
      forall y | y in rest ensures Before(rows[0], y) {
        assert y in multiset(rest);
        if y != x {
          assert y in tail;
        }
      }
      OrderedCons(rows[0], rest);
    }
  }


  /** The sorted rows are the same rows, in the listing's order. */
  lemma {:induction false} SortRowsCorrect(rows: seq<AnnotationRow>)
    ensures Ordered(SortRows(rows))
    ensures multiset(SortRows(rows)) == multiset(rows)
    decreases |rows|
  {
    if rows != [] {
      SortRowsCorrect(rows[1..]);
      InsertOrdered(rows[0], SortRows(rows[1..]));
      InsertPermutes(rows[0], SortRows(rows[1..]));
      assert rows == [rows[0]] + rows[1..];
    }
  }

  /**
   * `GET /shared-reading/:sharedReadingId`: the same access rule as reading
   * the shared reading itself; then the visible annotations, by page and then
   * by creation time.
   */
  function ListAnnotations(readings: map<Id, Reading>, participants: map<(Id, Id), real>, table: seq<AnnotationRow>,
                           readingId: Id, userId: Id): (r: Response<seq<AnnotationRow>>)
    ensures readingId !in readings ==> r == Refused(404, SharedReadings.NotFound)
    ensures readingId in readings && !SharedReadings.CanView(readings[readingId], participants, readingId, userId) ==>
      r == Refused(403, "Accès non autorisé")
    ensures r.Ok? <==> SharedReadings.GetReading(readings, participants, readingId, userId).Ok?
    ensures r.Ok? ==> Ordered(r.value)
    ensures r.Ok? ==> multiset(r.value) == multiset(Filter(table, (x: AnnotationRow) => Visible(x, readingId, userId)))
    ensures r.Ok? ==> forall x :: x in r.value <==> x in table && Visible(x, readingId, userId)
  {
    if readingId !in readings then Refused(404, SharedReadings.NotFound)
    else if !SharedReadings.CanView(readings[readingId], participants, readingId, userId) then Refused(403, "Accès non autorisé")
    else
      var visible := Filter(table, (x: AnnotationRow) => Visible(x, readingId, userId));
      SortRowsCorrect(visible);
      assert forall x :: x in SortRows(visible) <==> x in multiset(visible);
      Ok(SortRows(visible))
  }

  // ---------------------------------------------------------------------------
  // Creating, editing and deleting

  /** The body of `POST /`. */
  datatype AnnotationRequest = AnnotationRequest(
    readingId: Option<string>, content: Option<string>, cfi: Option<string>, selectedText: Option<string>,
    page: Option<int>, isPublic: Option<bool>)

  /** The first key the body breaks: a reading, a comment of 1 to 1000 characters, a position, a selection of 1 to 500, a page of at least 1. */
  function AnnotationViolation(req: AnnotationRequest): (key: Option<string>)
    ensures key.None? <==>
      && Truthy(req.readingId) && req.content.Some? && 1 <= |req.content.value| <= 1000
      && Truthy(req.cfi) && req.selectedText.Some? && 1 <= |req.selectedText.value| <= 500
      && req.page.Some? && req.page.value >= 1
    ensures key == Some("sharedReadingId") <==> !Truthy(req.readingId)
  {
    if !Truthy(req.readingId) then Some("sharedReadingId")
    else if req.content.None? || !(1 <= |req.content.value| <= 1000) then Some("content")
    else if !Truthy(req.cfi) then Some("cfi")
    else if req.selectedText.None? || !(1 <= |req.selectedText.value| <= 500) then Some("selectedText")
    else if req.page.None? || req.page.value < 1 then Some("page")
    else None
  }

  /**
   * `POST /`: only a participant of the reading may annotate it. The raw body
   * is stored, so an omitted `isPublic` takes the column default
   * `columnDefault`.
   */
  method CreateAnnotation(db: Database, user: Principal, req: AnnotationRequest, id: Id, columnDefault: bool, now: int)
    returns (r: Response<Annotation>)
    requires db.Valid() && id !in db.annotations
    modifies db`annotations
    ensures db.Valid()
    ensures AnnotationViolation(req).Some? ==> r == Refused(400, AnnotationViolation(req).value)
    ensures AnnotationViolation(req).None? && !IsParticipant(db.participants, req.readingId.value, user.id) ==>
      r == Refused(403, NotParticipant)
    ensures r.Ok? <==> AnnotationViolation(req).None? && IsParticipant(db.participants, req.readingId.value, user.id)
    ensures r.Ok? ==>
      && db.annotations == old(db.annotations)[id := r.value]
      && r.value == Annotation(req.readingId.value, user.id, req.content.value, req.cfi.value, req.selectedText.value,
                               req.page.value, req.isPublic.GetOr(columnDefault), now)
    ensures !r.Ok? ==> db.annotations == old(db.annotations)
  {
    var violation := AnnotationViolation(req);
    if violation.Some? {
      return Refused(400, violation.value);
    }
    if !IsParticipant(db.participants, req.readingId.value, user.id) {
      return Refused(403, NotParticipant);
    }
    var a := Annotation(req.readingId.value, user.id, req.content.value, req.cfi.value, req.selectedText.value,
                        req.page.value, req.isPublic.GetOr(columnDefault), now);
    db.annotations := db.annotations[id := a];
    r := Ok(a);
  }

  /** `PUT /:id`: only the author may edit, administrators included, and only the comment changes. */
  /** Who may edit an annotation: its author only, administrators included. */
  predicate MayEdit(user: Principal, a: Annotation) {
    a.userId == user.id
  }

  method UpdateAnnotation(db: Database, user: Principal, id: Id, content: Option<string>) returns (r: Response<Annotation>)
    requires db.Valid()
    modifies db`annotations
    ensures db.Valid()
    ensures !(content.Some? && 1 <= |content.value| <= 1000) ==> r == Refused(400, "content")
    ensures content.Some? && 1 <= |content.value| <= 1000 && id !in old(db.annotations) ==> r == Refused(404, AnnotationNotFound)
    ensures content.Some? && 1 <= |content.value| <= 1000 && id in old(db.annotations) && !MayEdit(user, old(db.annotations)[id]) ==>
      r == Refused(403, NotAuthorEdit)
    ensures r.Ok? <==>
      content.Some? && 1 <= |content.value| <= 1000 && id in old(db.annotations) && MayEdit(user, old(db.annotations)[id])
    ensures r.Ok? ==> r.value == old(db.annotations)[id].(content := content.value) && db.annotations == old(db.annotations)[id := r.value]
    ensures !r.Ok? ==> db.annotations == old(db.annotations)
  {
    if content.None? || !(1 <= |content.value| <= 1000) {
      return Refused(400, "content");
    }
    if id !in db.annotations {
      return Refused(404, AnnotationNotFound);
    }
    if !MayEdit(user, db.annotations[id]) {
      return Refused(403, NotAuthorEdit);
    }
    var a := db.annotations[id].(content := content.value);
    db.annotations := db.annotations[id := a];
    r := Ok(a);
  }

  /** Who may delete an annotation: its author or an administrator. */
  predicate MayDelete(user: Principal, a: Annotation) {
    a.userId == user.id || user.status == ADMIN
  }

  /** `DELETE /:id`. */
  method DeleteAnnotation(db: Database, user: Principal, id: Id) returns (r: Response<()>)
    requires db.Valid()
    modifies db`annotations
    ensures db.Valid()
    ensures id !in old(db.annotations) ==> r == Refused(404, AnnotationNotFound)
    ensures id in old(db.annotations) && !MayDelete(user, old(db.annotations)[id]) ==> r == Refused(403, NotAuthorDelete)
    ensures r.Ok? <==> id in old(db.annotations) && MayDelete(user, old(db.annotations)[id])
    ensures r.Ok? ==> db.annotations == old(db.annotations) - {id}
    ensures !r.Ok? ==> db.annotations == old(db.annotations)
  {
    if id !in db.annotations {
      return Refused(404, AnnotationNotFound);
    }
    if !MayDelete(user, db.annotations[id]) {
      return Refused(403, NotAuthorDelete);
    }
    db.annotations := db.annotations - {id};
    r := Ok(());
  }

  /**
   * An administrator may delete another reader's annotation but not edit it;
   * for anyone else the two permissions coincide.
   */
  lemma AdminDeletesNotEdits(user: Principal, a: Annotation)
    ensures user.status == ADMIN && a.userId != user.id ==> MayDelete(user, a) && !MayEdit(user, a)
    ensures user.status != ADMIN ==> (MayDelete(user, a) <==> MayEdit(user, a))
    ensures MayEdit(user, a) ==> MayDelete(user, a)
  {
  }

  // ---------------------------------------------------------------------------
  // Citations

  /**
   * `POST /:id/cite`: any authenticated user may cite any annotation; the
   * citation copies the selected text and the book's author and title, and
   * the platforms default to none.
   */
  method CiteAnnotation(db: Database, user: Principal, id: Id, platforms: Option<seq<string>>, citationId: Id)
    returns (r: Response<Citation>)
    requires db.Valid() && citationId !in db.citations
    modifies db`citations
    ensures id !in db.annotations ==> r == Refused(404, AnnotationNotFound) && db.citations == old(db.citations)
    ensures id in db.annotations ==>
      var a := db.annotations[id];
      var book := db.books[db.readings[a.readingId].bookId];
      && r == Ok(Citation(id, user.id, a.selectedText, book.author, book.title, platforms.GetOr([])))
      && db.citations == old(db.citations)[citationId := r.value]
  {
    if id !in db.annotations {
      return Refused(404, AnnotationNotFound);
    }
    var a := db.annotations[id];
    var book := db.books[db.readings[a.readingId].bookId];
    var c := Citation(id, user.id, a.selectedText, book.author, book.title, platforms.GetOr([]));
    db.citations := db.citations[citationId := c];
    r := Ok(c);
  }

  // ---------------------------------------------------------------------------
  // Statistics per reader

  datatype UserCount = UserCount(userId: Id, count: nat)

  /** A reader's count with the reader's row, when the user table has it. */
  datatype UserStats = UserStats(userId: Id, count: nat, user: Option<User>)

  /** How many of the rows the user wrote. */
  function CountOf(rows: seq<AnnotationRow>, u: Id): nat
    decreases |rows|
  {
    if rows == [] then 0 else (if rows[0].annotation.userId == u then 1 else 0) + CountOf(rows[1..], u)
  }

  function Ids(groups: seq<UserCount>): (ids: seq<Id>)
    ensures |ids| == |groups|
    ensures forall k :: 0 <= k < |groups| ==> ids[k] == groups[k].userId
  {
    seq(|groups|, k requires 0 <= k < |groups| => groups[k].userId)
  }

  /** The count a list of groups gives a user: its group's, or 0. */
  function CountIn(groups: seq<UserCount>, u: Id): nat
    decreases |groups|
  {
    if groups == [] then 0 else if groups[0].userId == u then groups[0].count else CountIn(groups[1..], u)
  }

  /** One more annotation by `u`. */
  function Bump(groups: seq<UserCount>, u: Id): seq<UserCount>
    decreases |groups|
  {
    if groups == [] then [UserCount(u, 1)]
    else if groups[0].userId == u then [groups[0].(count := groups[0].count + 1)] + groups[1..]
    else [groups[0]] + Bump(groups[1..], u)
  }

  /** `groupBy({ by: ['userId'], _count })`, in some order. */
  function GroupByUser(rows: seq<AnnotationRow>): seq<UserCount>
    decreases |rows|
  {
    if rows == [] then [] else Bump(GroupByUser(rows[1..]), rows[0].annotation.userId)
  }

  /** Bumping adds one to `u`'s count and leaves every other count alone. */
  lemma {:induction false} BumpCount(groups: seq<UserCount>, u: Id, v: Id)
    ensures CountIn(Bump(groups, u), v) == CountIn(groups, v) + (if v == u then 1 else 0)
    decreases |groups|
  {
    if groups != [] && groups[0].userId != u {
      BumpCount(groups[1..], u, v);
    }
  }

  /** Bumping keeps the users in place and appends `u` when it had no group. */
  lemma {:induction false} BumpIds(groups: seq<UserCount>, u: Id)
    ensures Ids(Bump(groups, u)) == if u in Ids(groups) then Ids(groups) else Ids(groups) + [u]
    decreases |groups|
  {
    if groups != [] {
      var tail := groups[1..];
      assert Ids(groups) == [groups[0].userId] + Ids(tail);
      if groups[0].userId != u {
        BumpIds(tail, u);
        assert Ids(Bump(groups, u)) == [groups[0].userId] + Ids(Bump(tail, u));
      } else {
        assert Ids(Bump(groups, u)) == [u] + Ids(tail);
      }
    }
  }

  lemma {:induction false} BumpPositive(groups: seq<UserCount>, u: Id)
    requires forall k :: 0 <= k < |groups| ==> groups[k].count >= 1
    ensures forall k :: 0 <= k < |Bump(groups, u)| ==> Bump(groups, u)[k].count >= 1
    decreases |groups|
  {
    if groups != [] && groups[0].userId != u {
      BumpPositive(groups[1..], u);
      assert Bump(groups, u) == [groups[0]] + Bump(groups[1..], u);
    }
  }

  lemma DistinctAppend<T>(xs: seq<T>, x: T)
    requires Distinct(xs) && x !in xs
    ensures Distinct(xs + [x])
  {
    var ys := xs + [x];
    forall i, j | 0 <= i < j < |ys| ensures ys[i] != ys[j] {
      if j == |xs| { assert ys[i] == xs[i]; }
    }
  }

  /** One group per writer, none repeated, each with the number of rows that writer has. */
  lemma {:induction false} GroupByUserCounts(rows: seq<AnnotationRow>)
    ensures Distinct(Ids(GroupByUser(rows)))
    ensures forall v :: CountIn(GroupByUser(rows), v) == CountOf(rows, v)
    ensures forall v :: v in Ids(GroupByUser(rows)) <==> CountOf(rows, v) > 0
    ensures forall k :: 0 <= k < |GroupByUser(rows)| ==> GroupByUser(rows)[k].count >= 1
    decreases |rows|
  {
    if rows != [] {
      var before := GroupByUser(rows[1..]);
      var u := rows[0].annotation.userId;
      GroupByUserCounts(rows[1..]);
      BumpIds(before, u);
      BumpPositive(before, u);
      if u !in Ids(before) {
        DistinctAppend(Ids(before), u);
      }
      forall v ensures CountIn(GroupByUser(rows), v) == CountOf(rows, v) {
        BumpCount(before, u, v);
      }
    }
  }

  /** In groups with distinct users, the group at position `k` holds that user's count. */
  lemma {:induction false} CountInAt(groups: seq<UserCount>, k: nat)
    requires Distinct(Ids(groups)) && k < |groups|
    ensures CountIn(groups, groups[k].userId) == groups[k].count
    decreases k
  {
    if k > 0 {
      var tail := groups[1..];
      assert Ids(tail) == Ids(groups)[1..];
      assert groups[0].userId != groups[k].userId by {
        assert Ids(groups)[0] != Ids(groups)[k];
      }
      assert Distinct(Ids(tail)) by {
        forall i, j | 0 <= i < j < |Ids(tail)| ensures Ids(tail)[i] != Ids(tail)[j] {
          assert Ids(tail)[i] == Ids(groups)[i + 1] && Ids(tail)[j] == Ids(groups)[j + 1];
        }
      }
      CountInAt(tail, k - 1);
    }
  }

  /** The groups of `rows`, position by position: every writer once, with their count. */
  lemma GroupsOfRows(rows: seq<AnnotationRow>)
    ensures forall k :: 0 <= k < |GroupByUser(rows)| ==> GroupByUser(rows)[k].count == CountOf(rows, GroupByUser(rows)[k].userId) >= 1
    ensures forall i, j :: 0 <= i < j < |GroupByUser(rows)| ==> GroupByUser(rows)[i].userId != GroupByUser(rows)[j].userId
    ensures forall v :: CountOf(rows, v) > 0 <==> exists k :: 0 <= k < |GroupByUser(rows)| && GroupByUser(rows)[k].userId == v
  {
    var groups := GroupByUser(rows);
    GroupByUserCounts(rows);
    forall k | 0 <= k < |groups| ensures groups[k].count == CountOf(rows, groups[k].userId) {
      CountInAt(groups, k);
    }
    forall i, j | 0 <= i < j < |groups| ensures groups[i].userId != groups[j].userId {
      assert Ids(groups)[i] != Ids(groups)[j];
    }
    forall v ensures CountOf(rows, v) > 0 <==> exists k :: 0 <= k < |groups| && groups[k].userId == v {
      if v in Ids(groups) {
        var k :| 0 <= k < |Ids(groups)| && Ids(groups)[k] == v;
        assert groups[k].userId == v;
      } else {
        assert forall k :: 0 <= k < |groups| ==> Ids(groups)[k] != v;
      }
    }
  }

  function Enrich(groups: seq<UserCount>, users: map<Id, User>): (stats: seq<UserStats>)
    ensures |stats| == |groups|
    ensures forall k :: 0 <= k < |groups| ==> stats[k].userId == groups[k].userId && stats[k].count == groups[k].count
    ensures forall k :: 0 <= k < |groups| ==> stats[k].user == (if groups[k].userId in users then Some(users[groups[k].userId]) else None)
  {
    seq(|groups|, k requires 0 <= k < |groups| =>
      UserStats(groups[k].userId, groups[k].count, if groups[k].userId in users then Some(users[groups[k].userId]) else None))
  }

  predicate OfReading(row: AnnotationRow, readingId: Id) {
    row.annotation.readingId == readingId
  }

  /**
   * `GET /stats/:sharedReadingId`, per reader: only the reading's creator or
   * an administrator. Each reader of the reading who wrote annotations gets
   * one entry with their count and their user row.
   */
  function ReaderStats(readings: map<Id, Reading>, table: seq<AnnotationRow>, users: map<Id, User>, readingId: Id, user: Principal)
    : (r: Response<seq<UserStats>>)
    ensures readingId !in readings ==> r == Refused(404, SharedReadings.NotFound)
    ensures readingId in readings && readings[readingId].createdBy != user.id && user.status != ADMIN ==>
      r == Refused(403, "Accès non autorisé")
    ensures r.Ok? <==> readingId in readings && (readings[readingId].createdBy == user.id || user.status == ADMIN)
    ensures r.Ok? ==>
      var rows := Filter(table, (x: AnnotationRow) => OfReading(x, readingId));
      && (forall k :: 0 <= k < |r.value| ==> r.value[k].count == CountOf(rows, r.value[k].userId) >= 1)
      && (forall i, j :: 0 <= i < j < |r.value| ==> r.value[i].userId != r.value[j].userId)
      && (forall v :: CountOf(rows, v) > 0 <==> exists k :: 0 <= k < |r.value| && r.value[k].userId == v)
      && (forall k :: 0 <= k < |r.value| ==>
            r.value[k].user == (if r.value[k].userId in users then Some(users[r.value[k].userId]) else None))
  {
    if readingId !in readings then Refused(404, SharedReadings.NotFound)
    else if readings[readingId].createdBy != user.id && user.status != ADMIN then Refused(403, "Accès non autorisé")
    else
      var rows := Filter(table, (x: AnnotationRow) => OfReading(x, readingId));
      var groups := GroupByUser(rows);
      GroupsOfRows(rows);
      Ok(Enrich(groups, users))
  }
}
