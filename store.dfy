/**
 * The database the route handlers read and write, as tables keyed by id.
 * Ids, clocks and generated codes are chosen by the caller; every time is
 * an integer number of milliseconds.
 */
module Store {
  import opened Common

  type Id = string

  datatype User = User(name: string, email: string, password: string, status: Role, avatar: Option<string>)

  datatype Book = Book(
    title: string, author: string, description: Option<string>, totalPages: int,
    epubUrl: string, epubPath: string, coverUrl: Option<string>)

  datatype Reading = Reading(
    title: string, description: Option<string>, bookId: Id, startDate: int, endDate: int,
    isPublic: bool, inviteCode: Option<string>, createdBy: Id, createdAt: int)

  datatype Annotation = Annotation(
    readingId: Id, userId: Id, content: string, cfi: string, selectedText: string,
    page: int, isPublic: bool, createdAt: int)

  /** A reader's place in a shared reading. */
  datatype Session = Session(currentCfi: string, progress: real, lastReadAt: int)

  datatype Citation = Citation(
    annotationId: Id, userId: Id, text: string, author: string, bookTitle: string, sharedOnPlatforms: seq<string>)

  /** The authenticated user of a request (`req.user`). */
  datatype Principal = Principal(id: Id, status: Role)

  /**
   * The tables. Participants and sessions are keyed by (reading id, user id),
   * the compound unique key of those tables; a participant row holds its progress.
   */
  class Database {
    var users: map<Id, User>
    var books: map<Id, Book>
    var readings: map<Id, Reading>
    var participants: map<(Id, Id), real>
    var sessions: map<(Id, Id), Session>
    var annotations: map<Id, Annotation>
    var citations: map<Id, Citation>

    /**
     * Rows of the participant, session and annotation tables belong to an
     * existing reading, and every reading's book exists.
     */
    ghost predicate Valid()
      reads this
    {
      && (forall id :: id in readings ==> readings[id].bookId in books)
      && (forall k :: k in participants ==> k.0 in readings)
      && (forall k :: k in sessions ==> k.0 in readings)
      && (forall a :: a in annotations ==> annotations[a].readingId in readings)
    }

    constructor ()
      ensures Valid()
      ensures users == map[] && books == map[] && readings == map[] && participants == map[]
      ensures sessions == map[] && annotations == map[] && citations == map[]
    {
      users, books, readings, participants := map[], map[], map[], map[];
      sessions, annotations, citations := map[], map[], map[];
    }
  }

  /** `participants.some(p => p.userId === userId)` for the reading `readingId`. */
  predicate IsParticipant(participants: map<(Id, Id), real>, readingId: Id, userId: Id) {
    (readingId, userId) in participants
  }

  /** The number of readings that satisfy `p` (a `_count` or `count` query). */
  function CountReadings(readings: map<Id, Reading>, p: Reading -> bool): nat {
    |set id | id in readings && p(readings[id])|
  }

  lemma CountReadingsZero(readings: map<Id, Reading>, p: Reading -> bool)
    ensures CountReadings(readings, p) == 0 <==> forall id :: id in readings ==> !p(readings[id])
  {
    var s := set id | id in readings && p(readings[id]);
    if !(forall id :: id in readings ==> !p(readings[id])) {
      var id :| id in readings && p(readings[id]);
      assert id in s;
    }
  }

  /** Some user has the address (`findUnique({ where: { email } })` finds a row). */
  predicate EmailTaken(users: map<Id, User>, email: string) {
    exists id :: id in users && users[id].email == email
  }
}
