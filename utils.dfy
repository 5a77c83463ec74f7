/**
 * The front end's pure helpers: the countdown to a reading's end, split into
 * days, hours, minutes and seconds, and the text a reader shares for a
 * quotation. The clock is a parameter: `now` and `end` are milliseconds.
 */
module Utils {
  import opened Common

  const MsPerSecond := 1000
  const MsPerMinute := 60 * MsPerSecond
  const MsPerHour := 60 * MsPerMinute
  const MsPerDay := 24 * MsPerHour

  /** What `calculateTimeRemaining` returns. */
  datatype TimeRemaining = TimeRemaining(days: int, hours: int, minutes: int, seconds: int, total: int)

  /**
   * The countdown from `now` to `end`: all zero once the end has passed;
   * otherwise whole days and the hours, minutes and seconds left over, each
   * below its unit, which add up to the time left to within a second.
   */
  function CalculateTimeRemaining(end: int, now: int): (t: TimeRemaining)
    ensures end - now <= 0 ==> t == TimeRemaining(0, 0, 0, 0, 0)
    ensures end - now > 0 ==> t.total == end - now && t.days >= 0
    ensures end - now > 0 ==> 0 <= t.hours < 24 && 0 <= t.minutes < 60 && 0 <= t.seconds < 60
    ensures end - now > 0 ==>
      var sum := t.days * MsPerDay + t.hours * MsPerHour + t.minutes * MsPerMinute + t.seconds * MsPerSecond;
      sum <= t.total < sum + MsPerSecond
  {
    var total := end - now;
    if total <= 0 then TimeRemaining(0, 0, 0, 0, 0)
    else
      var days := total / MsPerDay;
      var hours := (total % MsPerDay) / MsPerHour;
      var minutes := (total % MsPerHour) / MsPerMinute;
      var seconds := (total % MsPerMinute) / MsPerSecond;
      Decompose(total);
      TimeRemaining(days, hours, minutes, seconds, total)
  }

  lemma MulAtLeast(a: int, m: int)
    requires a >= 1 && m > 0
    ensures a * m >= m
  {
  }

  /** The quotient and remainder are the only pair that rebuilds the dividend. */
  lemma DivModUnique(x: int, m: int, q: int, r: int)
    requires m > 0 && x == q * m + r && 0 <= r < m
    ensures x % m == r && x / m == q
  {
    var q', r' := x / m, x % m;
    assert x == q' * m + r' && 0 <= r' < m;
    assert (q' - q) * m == r - r';
    if q' > q {
      MulAtLeast(q' - q, m);
    } else if q' < q {
      MulAtLeast(q - q', m);
    }
  }

  /**
   * The decomposition behind `CalculateTimeRemaining`: the remainder by an
   * hour is the remainder, by an hour, of the remainder by a day, and so on
   * down to the second.
   */
  lemma Decompose(total: int)
    requires total > 0
    ensures 0 <= (total % MsPerDay) / MsPerHour < 24
    ensures 0 <= (total % MsPerHour) / MsPerMinute < 60
    ensures 0 <= (total % MsPerMinute) / MsPerSecond < 60
    ensures
      var sum := (total / MsPerDay) * MsPerDay + ((total % MsPerDay) / MsPerHour) * MsPerHour
                 + ((total % MsPerHour) / MsPerMinute) * MsPerMinute + ((total % MsPerMinute) / MsPerSecond) * MsPerSecond;
      sum <= total < sum + MsPerSecond
  {
    var d, r1 := total / MsPerDay, total % MsPerDay;
    var h, r2 := r1 / MsPerHour, r1 % MsPerHour;
    assert 0 <= h < 24;
    DivModUnique(total, MsPerHour, d * 24 + h, r2);
    var mi, r3 := r2 / MsPerMinute, r2 % MsPerMinute;
    assert 0 <= mi < 60;
    DivModUnique(total, MsPerMinute, (d * 24 + h) * 60 + mi, r3);
    assert 0 <= r3 / MsPerSecond < 60;
  }

  // ---------------------------------------------------------------------------
  // Sharing a quotation

  const Hashtag := "#LectureSociale"

  /** The quotation line: the selected text in double quotes. */
  function QuoteLine(selectedText: string): string {
    "\"" + selectedText + "\""
  }

  /** The attribution line: an em dash, the book's author and its title. */
  function AttributionLine(author: string, title: string): string {
    "— " + author + ", " + title
  }

  /** The reader's comment followed by their name in parentheses. */
  function CommentLine(content: string, userName: string): string {
    content + " (" + userName + ")"
  }

  /**
   * `generateShareText`: the quotation, the attribution, the comment when
   * there is one, and the hashtag, separated by line breaks, with a blank
   * line before the comment and before the hashtag.
   */
  function GenerateShareText(selectedText: string, content: Option<string>, userName: string, bookTitle: string, bookAuthor: string)
    : (text: string)
    ensures IsPrefix(QuoteLine(selectedText) + "\n" + AttributionLine(bookAuthor, bookTitle), text)
    ensures |text| >= |Hashtag| + 2 && text[|text| - |Hashtag| - 2..] == "\n\n" + Hashtag
  {
    var comment := if Truthy(content) then "\n\n" + CommentLine(content.value, userName) else "";
    var text := QuoteLine(selectedText) + "\n" + AttributionLine(bookAuthor, bookTitle) + comment + "\n\n" + Hashtag;
    assert text[|text| - |Hashtag| - 2..] == "\n\n" + Hashtag;
    text
  }

  /** The lines of a shared text. */
  function ShareLines(selectedText: string, content: Option<string>, userName: string, bookTitle: string, bookAuthor: string)
    : seq<string>
  {
    [QuoteLine(selectedText), AttributionLine(bookAuthor, bookTitle)]
    + (if Truthy(content) then ["", CommentLine(content.value, userName)] else [])
    + ["", Hashtag]
  }

  lemma JoinCons(x: string, rest: seq<string>, sep: char)
    requires rest != []
    ensures Join([x] + rest, sep) == x + [sep] + Join(rest, sep)
  {
    assert ([x] + rest)[1..] == rest;
  }

  /** The lines after the attribution, joined: the comment's blank line and comment when there is one, then the hashtag's. */
  lemma TailJoin(comment: Option<string>)
    ensures Join((if comment.Some? then ["", comment.value] else []) + ["", Hashtag], '\n')
            == (if comment.Some? then "\n" + comment.value + "\n" else "") + "\n" + Hashtag
  {
    JoinCons("", [Hashtag], '\n');
    if comment.Some? {
      var c := comment.value;
      JoinCons(c, ["", Hashtag], '\n');
      JoinCons("", [c] + ["", Hashtag], '\n');
      assert ["", c] + ["", Hashtag] == [""] + ([c] + ["", Hashtag]);
    }
  }

  lemma JoinTwoCons(q: string, a: string, rest: seq<string>)
    requires rest != []
    ensures Join([q] + ([a] + rest), '\n') == q + "\n" + a + "\n" + Join(rest, '\n')
  {
    JoinCons(a, rest, '\n');
    JoinCons(q, [a] + rest, '\n');
  }

  /** The shared text regrouped: the two first lines, then what follows the attribution's line break. */
  lemma ShareTextShape(selectedText: string, content: Option<string>, userName: string, bookTitle: string, bookAuthor: string)
    ensures var q, a := QuoteLine(selectedText), AttributionLine(bookAuthor, bookTitle);
      var c := if Truthy(content) then "\n" + CommentLine(content.value, userName) + "\n" else "";
      GenerateShareText(selectedText, content, userName, bookTitle, bookAuthor) == q + "\n" + a + "\n" + (c + "\n" + Hashtag)
  {
  }

  /** The shared text is its lines joined by line breaks. */
  lemma ShareTextJoin(selectedText: string, content: Option<string>, userName: string, bookTitle: string, bookAuthor: string)
    ensures GenerateShareText(selectedText, content, userName, bookTitle, bookAuthor)
            == Join(ShareLines(selectedText, content, userName, bookTitle, bookAuthor), '\n')
  {
    var q := QuoteLine(selectedText);
    var a := AttributionLine(bookAuthor, bookTitle);
    var comment := if Truthy(content) then Some(CommentLine(content.value, userName)) else None;
    var rest := (if comment.Some? then ["", comment.value] else []) + ["", Hashtag];
    ShareTextShape(selectedText, content, userName, bookTitle, bookAuthor);
    TailJoin(comment);
    JoinTwoCons(q, a, rest);
    assert ShareLines(selectedText, content, userName, bookTitle, bookAuthor) == [q] + ([a] + rest);
  }

  /**
   * Read line by line, the shared text gives back its parts: the quotation,
   * the attribution, then a blank line and the comment exactly when the
   * comment is non-empty, then a blank line and the hashtag. `Split` is
   * `split('\n')`; no part may hold a line break of its own.
   */
  lemma ShareTextLines(selectedText: string, content: Option<string>, userName: string, bookTitle: string, bookAuthor: string)
    requires '\n' !in selectedText && '\n' !in userName && '\n' !in bookTitle && '\n' !in bookAuthor
    requires content.Some? ==> '\n' !in content.value
    ensures Split(GenerateShareText(selectedText, content, userName, bookTitle, bookAuthor), '\n') ==
      [QuoteLine(selectedText), AttributionLine(bookAuthor, bookTitle)]
      + (if Truthy(content) then ["", CommentLine(content.value, userName)] else [])
      + ["", Hashtag]
  {
    var lines := ShareLines(selectedText, content, userName, bookTitle, bookAuthor);
    assert '\n' !in QuoteLine(selectedText);
    assert '\n' !in AttributionLine(bookAuthor, bookTitle);
    assert '\n' !in Hashtag by {
      assert Hashtag == "#Lecture" + "Sociale";
    }
    assert content.Some? ==> '\n' !in CommentLine(content.value, userName);
    ShareTextJoin(selectedText, content, userName, bookTitle, bookAuthor);
    SplitJoin(lines, '\n');
  }

  /** The comment changes the text exactly when it is non-empty. */
  lemma ShareCommentIff(selectedText: string, content: Option<string>, userName: string, bookTitle: string, bookAuthor: string)
    ensures (GenerateShareText(selectedText, content, userName, bookTitle, bookAuthor)
             == GenerateShareText(selectedText, None, userName, bookTitle, bookAuthor)) <==> !Truthy(content)
  {
    if Truthy(content) {
      assert |GenerateShareText(selectedText, content, userName, bookTitle, bookAuthor)|
             > |GenerateShareText(selectedText, None, userName, bookTitle, bookAuthor)|;
    }
  }
}
