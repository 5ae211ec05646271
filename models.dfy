/**
 * The two records of the photo-sharing data model (a post and a comment on
 * it) and their shared "time since" rendering.
 *
 * Timestamps are whole seconds on one clock; the clock reading `now` that the
 * source takes from the system is a parameter here.
 */
module Models {
  import opened Wrappers
  import Decimal

  /** A row of the `posts` table. */
  datatype Post = Post(
    id: int,
    imageFilename: string,
    caption: Option<string>,  // the caption column is nullable
    timestamp: int,
    likes: int)
  {
    /** How long ago the post was made, as shown in the feed. */
    function TimeSince(now: int): (r: string)
      ensures r == "just now" <==> now - timestamp < MinuteSeconds
    {
      Describe(now - timestamp)
    }
  }

  /** A row of the `comments` table; `postId` is the owning post's id. */
  datatype Comment = Comment(
    id: int,
    username: string,
    content: string,
    timestamp: int,
    postId: int)
  {
    /** How long ago the comment was made; the same rendering as a post's. */
    function TimeSince(now: int): (r: string)
      ensures r == "just now" <==> now - timestamp < MinuteSeconds
    {
      Describe(now - timestamp)
    }
  }

  /**
   * A post as first stored: the database assigns the id, the timestamp
   * defaults to the current time and the like count to 0.
   */
  function NewPost(id: int, imageFilename: string, caption: Option<string>, now: int): (p: Post)
    ensures p.id == id && p.imageFilename == imageFilename && p.caption == caption
    ensures p.timestamp == now && p.likes == 0
    ensures p.TimeSince(now) == "just now"
  {
    Post(id, imageFilename, caption, now, 0)
  }

  /**
   * A comment as first stored: author, content and owning post are given
   * (none of those columns is nullable), the timestamp defaults to now.
   */
  function NewComment(id: int, username: string, content: string, postId: int, now: int): (c: Comment)
    ensures c.id == id && c.username == username && c.content == content && c.postId == postId
    ensures c.timestamp == now
    ensures c.TimeSince(now) == "just now"
  {
    Comment(id, username, content, now, postId)
  }

  const MinuteSeconds: nat := 60
  const HourSeconds: nat := 3600
  const DaySeconds: nat := 86400

  datatype Unit = Minute | Hour | Day

  /** The bucket an elapsed time falls into: "just now", or a count of units. */
  datatype Age = JustNow | Ago(count: nat, unit: Unit)

  function UnitSeconds(u: Unit): nat {
    match u
    case Minute => MinuteSeconds
    case Hour => HourSeconds
    case Day => DaySeconds
  }

  function UnitName(u: Unit): string {
    match u
    case Minute => "minute"
    case Hour => "hour"
    case Day => "day"
  }

  /**
   * Sorts an elapsed time in seconds into its bucket. Anything under a minute,
   * a negative time (a timestamp in the future) included, is "just now";
   * otherwise the count is the number of whole units elapsed, using the
   * largest unit that fits, so minutes stay below 60 and hours below 24.
   */
  function Classify(seconds: int): (a: Age)
    ensures a == JustNow <==> seconds < MinuteSeconds
    ensures a.Ago? && a.unit == Minute <==> MinuteSeconds <= seconds < HourSeconds
    ensures a.Ago? && a.unit == Hour <==> HourSeconds <= seconds < DaySeconds
    ensures a.Ago? && a.unit == Day <==> DaySeconds <= seconds
    ensures a.Ago? ==> 1 <= a.count
    ensures a.Ago? && a.unit == Minute ==> a.count <= 59
    ensures a.Ago? && a.unit == Hour ==> a.count <= 23
  {
    if seconds < MinuteSeconds then JustNow
    else if seconds < HourSeconds then Ago(seconds / MinuteSeconds, Minute)
    else if seconds < DaySeconds then Ago(seconds / HourSeconds, Hour)
    else Ago(seconds / DaySeconds, Day)
  }

  /** The count is the number of whole units elapsed: floor division of the elapsed seconds. */
  lemma ClassifyCountsWholeUnits(seconds: int)
    requires MinuteSeconds <= seconds
    ensures var a := Classify(seconds);
      a.count * UnitSeconds(a.unit) <= seconds < (a.count + 1) * UnitSeconds(a.unit)
  {
  }

  /** What follows the count: the unit, plural unless the count is 1, and "ago". */
  function Suffix(count: nat, u: Unit): (r: string)
    ensures |r| >= 5 && r[0] == ' ' && r[|r| - 4..] == " ago"
    ensures r[|r| - 5] == 's' <==> count != 1
  {
    " " + UnitName(u) + (if count != 1 then "s" else "") + " ago"
  }

  /** The words after the count, spelled out for each unit. */
  lemma SuffixSpelled(count: nat, u: Unit)
    ensures u == Minute ==> Suffix(count, u) == if count == 1 then " minute ago" else " minutes ago"
    ensures u == Hour ==> Suffix(count, u) == if count == 1 then " hour ago" else " hours ago"
    ensures u == Day ==> Suffix(count, u) == if count == 1 then " day ago" else " days ago"
  {
    var plural := if count != 1 then "s" else "";
    match u
    case Minute => assert " " + "minute" + plural + " ago" == if count == 1 then " minute ago" else " minutes ago";
    case Hour => assert " " + "hour" + plural + " ago" == if count == 1 then " hour ago" else " hours ago";
    case Day => assert " " + "day" + plural + " ago" == if count == 1 then " day ago" else " days ago";
  }

  /** The f-string of `time_since`: "just now", or the count, the unit and "ago". */
  function Render(a: Age): (r: string)
    ensures r == "just now" <==> a == JustNow
    ensures a.Ago? ==> |r| > 5 && Decimal.IsDigit(r[0]) && r[|r| - 4..] == " ago"
  {
    match a
    case JustNow => "just now"
    case Ago(n, u) =>
      var digits := Decimal.Show(n);
      var r := digits + Suffix(n, u);
      assert r[0] == digits[0];
      assert r[|r| - 4..] == Suffix(n, u)[|Suffix(n, u)| - 4..];
      r
  }

  /** The text `time_since` shows for an elapsed time in seconds. */
  function Describe(seconds: int): (r: string)
    ensures r == "just now" <==> seconds < MinuteSeconds
  {
    Render(Classify(seconds))
  }

  /**
   * Reads the words after a count of `n`: the unit, in the singular exactly
   * when `n` is 1, then "ago".
   */
  function ParseUnit(rest: string, n: nat): Option<Unit> {
    if n == 1 then
      if rest == " minute ago" then Some(Minute)
      else if rest == " hour ago" then Some(Hour)
      else if rest == " day ago" then Some(Day)
      else None
    else
      if rest == " minutes ago" then Some(Minute)
      else if rest == " hours ago" then Some(Hour)
      else if rest == " days ago" then Some(Day)
      else None
  }

  /** Reads a rendered age back: the inverse of `Render`. */
  function ParseAge(s: string): Option<Age> {
    if s == "just now" then Some(JustNow)
    else
      var k := Decimal.DigitPrefixLength(s);
      if k == 0 then None
      else
        var n := Decimal.Value(s[..k]);
        match ParseUnit(s[k..], n)
        case None => None
        case Some(u) => Some(Ago(n, u))
  }

  /** The rendered text determines the bucket and the count: nothing is lost. */
  lemma {:induction false} RenderRoundTrip(a: Age)
    ensures ParseAge(Render(a)) == Some(a)
  {
    match a
    case JustNow =>
    case Ago(n, u) =>
      var digits := Decimal.Show(n);
      var s := digits + Suffix(n, u);
      assert s[0] == digits[0];
      Decimal.DigitPrefixOfConcat(digits, Suffix(n, u));
      SuffixSpelled(n, u);
  }

  /** The text `time_since` shows names exactly the bucket and count of the elapsed time. */
  lemma DescribeReadsBack(seconds: int)
    ensures ParseAge(Describe(seconds)) == Some(Classify(seconds))
  {
    RenderRoundTrip(Classify(seconds));
  }

  /**
   * The exact text for each bucket: the count of whole units, then the unit
   * word ("minute", "hour" or "day", with an "s" unless the count is 1), then
   * "ago".
   */
  lemma DescribeSpellsTheUnit(seconds: int)
    ensures MinuteSeconds <= seconds < HourSeconds ==>
      var n := seconds / 60;
      Describe(seconds) == Decimal.Show(n) + (if n == 1 then " minute ago" else " minutes ago")
    ensures HourSeconds <= seconds < DaySeconds ==>
      var n := seconds / 3600;
      Describe(seconds) == Decimal.Show(n) + (if n == 1 then " hour ago" else " hours ago")
    ensures DaySeconds <= seconds ==>
      var n := seconds / 86400;
      Describe(seconds) == Decimal.Show(n) + (if n == 1 then " day ago" else " days ago")
  {
    var a := Classify(seconds);
    if a.Ago? {
      SuffixSpelled(a.count, a.unit);
    }
  }

  /** The unit word ends in "s" exactly when the count is not 1. */
  lemma PluralUnlessOne(seconds: int)
    requires MinuteSeconds <= seconds
    ensures var r := Describe(seconds);
      |r| >= 5 && (r[|r| - 5] == 's' <==> Classify(seconds).count != 1)
  {
  }

  /** The comment and post renderings agree on equal timestamps. */
  lemma CommentTimeSinceMatchesPost(p: Post, c: Comment, now: int)
    requires p.timestamp == c.timestamp
    ensures c.TimeSince(now) == p.TimeSince(now)
  {
  }
}
