/**
 * The book routes: adding a book with its EPUB and cover files, editing it,
 * deleting it while no shared reading uses it, and serving its EPUB to the
 * users who may read it.
 */
module Books {
  import opened Common
  import opened Store
  import Auth
  import ErrorHandler
  import SharedReadings

  const BookNotFound := "Livre non trouvé"
  const BookInUse := "Impossible de supprimer un livre utilisé dans des lectures partagées"

  /** The text fields of the multipart form; `totalPages` as the integer it spells. */
  datatype NewBookRequest = NewBookRequest(
    title: Option<string>, author: Option<string>, description: Option<string>, totalPages: Option<int>)

  /** A file the upload middleware stored: its generated name and its path on disk. */
  datatype StoredFile = StoredFile(filename: string, path: string)

  /** The first key of the creation schema the form breaks: title of 1 to 200 characters, author of 1 to 100, description of at most 1000, a page count of at least 1. */
  function BookViolation(req: NewBookRequest): (key: Option<string>)
    ensures key.None? <==>
      && req.title.Some? && 1 <= |req.title.value| <= 200 && req.author.Some? && 1 <= |req.author.value| <= 100
      && (req.description.None? || 1 <= |req.description.value| <= 1000) && (req.totalPages.None? || req.totalPages.value >= 1)
    ensures key == Some("title") <==> req.title.None? || !(1 <= |req.title.value| <= 200)
  {
    if req.title.None? || !(1 <= |req.title.value| <= 200) then Some("title")
    else if req.author.None? || !(1 <= |req.author.value| <= 100) then Some("author")
    else if req.description.Some? && !(1 <= |req.description.value| <= 1000) then Some("description")
    else if req.totalPages.Some? && req.totalPages.value < 1 then Some("totalPages")
    else None
  }

  /** The row `POST /` inserts: no page count means 0 pages, no cover means no cover URL. */
  function BookData(req: NewBookRequest, epub: StoredFile, cover: Option<StoredFile>): (b: Book)
    requires BookViolation(req).None?
    ensures b.title == req.title.value && b.author == req.author.value && b.description == req.description
    ensures b.totalPages == req.totalPages.GetOr(0) && (b.totalPages == 0 <==> req.totalPages.None?)
    ensures b.epubUrl == "/uploads/books/" + epub.filename && b.epubPath == epub.path
    ensures b.coverUrl.None? <==> cover.None?
    ensures cover.Some? ==> b.coverUrl == Some("/uploads/covers/" + cover.value.filename)
  {
    Book(
      req.title.value, req.author.value, req.description,
      if req.totalPages.Some? then req.totalPages.value else 0,
      "/uploads/books/" + epub.filename, epub.path,
      if cover.Some? then Some("/uploads/covers/" + cover.value.filename) else None)
  }

  /** `POST /`: `id` is the new row's id. */
  method CreateBook(db: Database, user: Principal, req: NewBookRequest, epub: Option<StoredFile>, cover: Option<StoredFile>, id: Id)
    returns (r: Response<Book>)
    requires id !in db.books
    modifies db`books
    ensures Auth.Authorize(Auth.Creators, Some(user)).Reject? ==>
      r == Refused(Auth.Authorize(Auth.Creators, Some(user)).status, Auth.Authorize(Auth.Creators, Some(user)).error)
    ensures user.status in Auth.Creators && BookViolation(req).Some? ==> r == Refused(400, BookViolation(req).value)
    ensures user.status in Auth.Creators && BookViolation(req).None? && epub.None? ==> r == Refused(400, "Le fichier EPUB est requis")
    ensures r.Ok? <==> user.status in Auth.Creators && BookViolation(req).None? && epub.Some?
    ensures r.Ok? ==> r.value == BookData(req, epub.value, cover) && db.books == old(db.books)[id := r.value]
    ensures !r.Ok? ==> db.books == old(db.books)
  {
    var gate := Auth.Authorize(Auth.Creators, Some(user));
    if gate.Reject? {
      return Refused(gate.status, gate.error);
    }
    var violation := BookViolation(req);
    if violation.Some? {
      return Refused(400, violation.value);
    }
    if epub.None? {
      return Refused(400, "Le fichier EPUB est requis");
    }
    var book := BookData(req, epub.value, cover);
    db.books := db.books[id := book];
    r := Ok(book);
  }

  /** The fields of `PUT /:id`: `None` when undefined; `description` is `Some(None)` for an explicit null; `totalPages` as `parseInt` reads it. */
  datatype BookUpdate = BookUpdate(
    title: Option<string>, author: Option<string>, description: Option<Option<string>>, totalPages: Option<ParsedInt>)

  /** Every defined field replaces the old value, a new cover replaces the cover URL, and nothing else changes. */
  predicate BookUpdated(before: Book, req: BookUpdate, cover: Option<StoredFile>, after: Book)
    requires req.totalPages.None? || req.totalPages.value.IntValue?
  {
    && after.title == req.title.GetOr(before.title)
    && after.author == req.author.GetOr(before.author)
    && after.description == req.description.GetOr(before.description)
    && after.totalPages == (if req.totalPages.Some? then req.totalPages.value.n else before.totalPages)
    && after.coverUrl == (if cover.Some? then Some("/uploads/covers/" + cover.value.filename) else before.coverUrl)
    && after.epubUrl == before.epubUrl && after.epubPath == before.epubPath
  }

  /** `PUT /:id`, administrators only. A page count that does not parse is rejected by the database client. */
  method UpdateBook(db: Database, user: Principal, id: Id, req: BookUpdate, cover: Option<StoredFile>) returns (r: Response<Book>)
    modifies db`books
    ensures user.status != ADMIN ==> r == Refused(403, "Accès non autorisé")
    ensures user.status == ADMIN && id !in old(db.books) ==> r == Refused(404, BookNotFound)
    ensures user.status == ADMIN && id in old(db.books) && req.totalPages == Some(NotANumber) ==>
      r == ErrorHandler.Respond(ErrorHandler.InvalidArgument)
    ensures r.Ok? <==> user.status == ADMIN && id in old(db.books) && req.totalPages != Some(NotANumber)
    ensures r.Ok? ==> BookUpdated(old(db.books)[id], req, cover, r.value) && db.books == old(db.books)[id := r.value]
    ensures !r.Ok? ==> db.books == old(db.books)
  {
    var gate := Auth.Authorize([ADMIN], Some(user));
    if gate.Reject? {
      return Refused(gate.status, gate.error);
    }
    if id !in db.books {
      return Refused(404, BookNotFound);
    }
    var before := db.books[id];
    var after := before;
    if req.title.Some? { after := after.(title := req.title.value); }
    if req.author.Some? { after := after.(author := req.author.value); }
    if req.description.Some? { after := after.(description := req.description.value); }
    if req.totalPages.Some? {
      if req.totalPages.value.NotANumber? {
        return ErrorHandler.Respond(ErrorHandler.InvalidArgument);
      }
      after := after.(totalPages := req.totalPages.value.n);
    }
    if cover.Some? { after := after.(coverUrl := Some("/uploads/covers/" + cover.value.filename)); }
    db.books := db.books[id := after];
    r := Ok(after);
  }

  predicate UsesBook(id: Id, reading: Reading) {
    reading.bookId == id
  }

  /** `DELETE /:id` here and `DELETE /books/:id` of the administration routes: refused while a shared reading uses the book. */
  method DeleteBook(db: Database, user: Principal, id: Id) returns (r: Response<()>)
    requires db.Valid()
    modifies db`books
    ensures db.Valid()
    ensures user.status != ADMIN ==> r == Refused(403, "Accès non autorisé")
    ensures user.status == ADMIN && id !in old(db.books) ==> r == Refused(404, BookNotFound)
    ensures user.status == ADMIN && id in old(db.books) && (exists rid :: rid in db.readings && db.readings[rid].bookId == id) ==>
      r == Refused(400, BookInUse)
    ensures r.Ok? <==>
      user.status == ADMIN && id in old(db.books) && forall rid :: rid in db.readings ==> db.readings[rid].bookId != id
    ensures r.Ok? ==> db.books == old(db.books) - {id}
    ensures !r.Ok? ==> db.books == old(db.books)
  {
    var gate := Auth.Authorize([ADMIN], Some(user));
    if gate.Reject? {
      return Refused(gate.status, gate.error);
    }
    if id !in db.books {
      return Refused(404, BookNotFound);
    }
    CountReadingsZero(db.readings, (x: Reading) => UsesBook(id, x));
    if CountReadings(db.readings, (x: Reading) => UsesBook(id, x)) > 0 {
      return Refused(400, BookInUse);
    }
    db.books := db.books - {id};
    r := Ok(());
  }

  /** Some reading of the book is public, created by the user or joined by the user. */
  predicate ReaderOfBook(readings: map<Id, Reading>, participants: map<(Id, Id), real>, bookId: Id, userId: Id) {
    exists rid :: rid in readings && readings[rid].bookId == bookId && SharedReadings.CanView(readings[rid], participants, rid, userId)
  }

  /** `GET /:id/epub`: the path of the file to send. */
  function DownloadEpub(books: map<Id, Book>, readings: map<Id, Reading>, participants: map<(Id, Id), real>, id: Id, user: Principal)
    : (r: Response<string>)
    ensures id !in books ==> r == Refused(404, BookNotFound)
    ensures id in books && user.status != ADMIN && !ReaderOfBook(readings, participants, id, user.id) ==> r == Refused(403, "Accès non autorisé")
    ensures r.Ok? <==> id in books && (user.status == ADMIN || ReaderOfBook(readings, participants, id, user.id))
    ensures r.Ok? ==> r.value == books[id].epubPath
  {
    if id !in books then Refused(404, BookNotFound)
    else if !ReaderOfBook(readings, participants, id, user.id) && user.status != ADMIN then Refused(403, "Accès non autorisé")
    else Ok(books[id].epubPath)
  }

  /** Whoever may open a shared reading may download its book. */
  lemma ViewerMayDownload(books: map<Id, Book>, readings: map<Id, Reading>, participants: map<(Id, Id), real>, rid: Id, user: Principal)
    requires SharedReadings.GetReading(readings, participants, rid, user.id).Ok?
    requires readings[rid].bookId in books
    ensures DownloadEpub(books, readings, participants, readings[rid].bookId, user) == Ok(books[readings[rid].bookId].epubPath)
  {
    assert readings[rid].bookId == readings[rid].bookId && SharedReadings.CanView(readings[rid], participants, rid, user.id);
  }
}
