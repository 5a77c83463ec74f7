/**
 * The public readings page: the search box and the status selector narrow
 * the list of readings, and each reading is labelled upcoming, active or
 * ended, with the time left while it is active. The clock is a parameter.
 */
module PublicReadings {
  import opened Common
  import Utils

  /** The fields of a listed reading the page filters and labels on; dates in milliseconds. */
  datatype ListedReading = ListedReading(title: string, bookTitle: string, bookAuthor: string, startDate: int, endDate: int)

  /** The search keeps a reading whose title, book title or author contains the term, ignoring case. */
  predicate MatchesSearch(r: ListedReading, term: string) {
    var t := Lower(term);
    Contains(Lower(r.title), t) || Contains(Lower(r.bookTitle), t) || Contains(Lower(r.bookAuthor), t)
  }

  predicate IsActive(r: ListedReading, now: int) {
    r.startDate <= now && r.endDate >= now
  }

  predicate IsUpcoming(r: ListedReading, now: int) {
    r.startDate > now
  }

  predicate IsEnded(r: ListedReading, now: int) {
    r.endDate < now
  }

  /** The status selector: "active", "upcoming" and "ended" each keep their readings; any other value, "all" among them, keeps every reading. */
  predicate MatchesStatus(r: ListedReading, filterStatus: string, now: int) {
    if filterStatus == "active" then IsActive(r, now)
    else if filterStatus == "upcoming" then IsUpcoming(r, now)
    else if filterStatus == "ended" then IsEnded(r, now)
    else true
  }

  /** A reading the page shows: it passes the search, when there is a term, and the status selector. */
  predicate Shown(r: ListedReading, searchTerm: string, filterStatus: string, now: int) {
    (searchTerm == "" || MatchesSearch(r, searchTerm)) && MatchesStatus(r, filterStatus, now)
  }

  /** Filtering by `p` and then by `q` is filtering once by their conjunction `pq`. */
  lemma {:induction false} FilterTwice<T>(xs: seq<T>, p: T -> bool, q: T -> bool, pq: T -> bool)
    requires forall k :: 0 <= k < |xs| ==> pq(xs[k]) == (p(xs[k]) && q(xs[k]))
    ensures Filter(Filter(xs, p), q) == Filter(xs, pq)
    decreases |xs|
  {
    if xs != [] {
      FilterTwice(xs[1..], p, q, pq);
    }
  }

  /**
   * The filtering of `loadReadings`: the search narrows the list when the
   * term is non-empty, then the status selector narrows it again. The page
   * shows the readings it keeps, in their original order.
   */
  method LoadReadings(readings: seq<ListedReading>, searchTerm: string, filterStatus: string, now: int)
    returns (shown: seq<ListedReading>)
    ensures shown == Filter(readings, (r: ListedReading) => Shown(r, searchTerm, filterStatus, now))
    ensures IsSubsequence(shown, readings)
    ensures forall r :: r in shown <==> r in readings && Shown(r, searchTerm, filterStatus, now)
  {
    var selective := filterStatus == "active" || filterStatus == "upcoming" || filterStatus == "ended";
    shown := readings;
    if searchTerm != "" {
      shown := Filter(shown, (r: ListedReading) => MatchesSearch(r, searchTerm));
    }
    if selective {
      shown := Filter(shown, (r: ListedReading) => MatchesStatus(r, filterStatus, now));
    }
    if searchTerm != "" && selective {
      FilterTwice(readings, (r: ListedReading) => MatchesSearch(r, searchTerm),
                  (r: ListedReading) => MatchesStatus(r, filterStatus, now),
                  (r: ListedReading) => Shown(r, searchTerm, filterStatus, now));
    } else if searchTerm != "" {
      FilterSamePredicate(readings, (r: ListedReading) => MatchesSearch(r, searchTerm),
                          (r: ListedReading) => Shown(r, searchTerm, filterStatus, now));
    } else if selective {
      FilterSamePredicate(readings, (r: ListedReading) => MatchesStatus(r, filterStatus, now),
                          (r: ListedReading) => Shown(r, searchTerm, filterStatus, now));
    } else {
      FilterAll(readings, (r: ListedReading) => Shown(r, searchTerm, filterStatus, now));
    }
  }

  /** A filter that keeps every element keeps the sequence. */
  lemma {:induction false} FilterAll<T>(xs: seq<T>, p: T -> bool)
    requires forall k :: 0 <= k < |xs| ==> p(xs[k])
    ensures Filter(xs, p) == xs
    decreases |xs|
  {
    if xs != [] {
      FilterAll(xs[1..], p);
    }
  }

  /** Filters by predicates that agree on every element give the same result. */
  lemma {:induction false} FilterSamePredicate<T>(xs: seq<T>, p: T -> bool, q: T -> bool)
    requires forall k :: 0 <= k < |xs| ==> p(xs[k]) == q(xs[k])
    ensures Filter(xs, p) == Filter(xs, q)
    decreases |xs|
  {
    if xs != [] {
      FilterSamePredicate(xs[1..], p, q);
    }
  }

  /** An empty search term would keep every reading even if it were applied. */
  lemma EmptySearchKeepsAll(r: ListedReading)
    ensures MatchesSearch(r, "")
  {
    ContainsEmptyAndSelf(Lower(r.title));
  }

  // ---------------------------------------------------------------------------
  // Status labels

  datatype Status = Upcoming | Active | Ended

  /** The name the page compares with the selector's value. */
  function StatusName(s: Status): string {
    match s
    case Upcoming => "upcoming"
    case Active => "active"
    case Ended => "ended"
  }

  /** The date line of a label: the start or end date, which the page formats for display, or the time left. */
  datatype TimeInfo = StartsOn(date: int) | EndedOn(date: int) | Remaining(text: string)

  datatype StatusInfo = StatusInfo(status: Status, caption: string, color: string, timeInfo: TimeInfo)

  /** The countdown line: the days when there is at least one, then the hours and minutes. */
  function RemainingText(t: Utils.TimeRemaining): string {
    if t.total > 0 then
      (if t.days > 0 then IntToString(t.days) + "j " else "") + IntToString(t.hours) + "h " + IntToString(t.minutes) + "m restantes"
    else "Se termine bientôt"
  }

  /**
   * `getStatusInfo`: upcoming before the start, ended after the end, active
   * otherwise; an active reading shows the time left, or that it ends now.
   */
  function GetStatusInfo(r: ListedReading, now: int): (info: StatusInfo)
    ensures info.status == Upcoming <==> now < r.startDate
    ensures info.status == Ended <==> r.startDate <= now && r.endDate < now
    ensures info.status == Active <==> r.startDate <= now <= r.endDate
    ensures info.status == Upcoming ==> info.timeInfo == StartsOn(r.startDate)
    ensures info.status == Ended ==> info.timeInfo == EndedOn(r.endDate)
    ensures info.status == Active ==>
      info.timeInfo == Remaining(RemainingText(Utils.CalculateTimeRemaining(r.endDate, now)))
      && (info.timeInfo == Remaining("Se termine bientôt") <==> now == r.endDate)
  {
    if now < r.startDate then StatusInfo(Upcoming, "À venir", "text-blue-600 bg-blue-100", StartsOn(r.startDate))
    else if now > r.endDate then StatusInfo(Ended, "Terminée", "text-gray-600 bg-gray-100", EndedOn(r.endDate))
    else
      var t := Utils.CalculateTimeRemaining(r.endDate, now);
      assert now < r.endDate ==> RemainingText(t) != "Se termine bientôt" by {
        if now < r.endDate {
          assert RemainingText(t)[|RemainingText(t)| - 1] == 's';
        }
      }
      StatusInfo(Active, "En cours", "text-green-600 bg-green-100", Remaining(RemainingText(t)))
  }

  /**
   * When a reading starts no later than it ends, the status selector keeps
   * exactly the readings whose label has the selected status.
   */
  lemma StatusFilterAgrees(r: ListedReading, now: int, s: Status)
    requires r.startDate <= r.endDate
    ensures MatchesStatus(r, StatusName(s), now) <==> GetStatusInfo(r, now).status == s
  {
  }

  /** Without that condition the two disagree: a reading that ends before it starts is both kept as ended and labelled upcoming. */
  lemma StatusFilterNeedsOrderedDates()
    ensures var r := ListedReading("", "", "", 10, 0);
      MatchesStatus(r, "ended", 5) && GetStatusInfo(r, 5).status == Upcoming
  {
  }
}
