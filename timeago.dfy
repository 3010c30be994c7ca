/** The `timeago` template filter: how long ago a moment was, as "Just
    now", minutes, hours or days, and as the moment's own date after a
    week. Time is counted in whole seconds: the moment is held as its
    instant on a seconds clock (already normalised to UTC), and the
    current instant is a parameter. */
module TimeAgo {
  import opened Common
  import opened Text
  import opened Lists

  type Year = y: int | 1 <= y <= 9999 witness 1
  type Month = m: int | 1 <= m <= 12 witness 1
  type Day = d: int | 1 <= d <= 31 witness 1

  /** A `datetime`: its calendar date and its instant in seconds. */
  datatype DateTime = DateTime(year: Year, month: Month, day: Day, instant: int)

  /** The value handed to the filter: a `datetime`, a string, or anything
      else, held as the text `str` gives it. */
  datatype Value = DateTimeValue(dt: DateTime) | StrValue(s: string) | OtherValue(text: string)

  /** The bucket the elapsed time falls in. */
  datatype Ago = JustNow | Minutes(n: int) | Hours(n: int) | Days(n: int) | OnDate(day: nat, month: nat, yy: nat)

  /** The buckets in order of elapsed time. */
  function Rank(a: Ago): nat
  {
    match a
    case JustNow => 0
    case Minutes(_) => 1
    case Hours(_) => 2
    case Days(_) => 3
    case OnDate(_, _, _) => 4
  }

  /** The bucket of `elapsed` seconds for a moment on date `dt`: the whole
      number of minutes, hours or days, each in its range, or the date once
      a week has passed. A moment in the future is "just now". */
  function Classify(elapsed: int, dt: DateTime): (a: Ago)
    ensures a.JustNow? <==> elapsed < 60
    ensures a.Minutes? <==> 60 <= elapsed < 3600
    ensures a.Minutes? ==> 1 <= a.n <= 59 && a.n * 60 <= elapsed < (a.n + 1) * 60
    ensures a.Hours? <==> 3600 <= elapsed < 86400
    ensures a.Hours? ==> 1 <= a.n <= 23 && a.n * 3600 <= elapsed < (a.n + 1) * 3600
    ensures a.Days? <==> 86400 <= elapsed < 604800
    ensures a.Days? ==> 1 <= a.n <= 6 && a.n * 86400 <= elapsed < (a.n + 1) * 86400
    ensures a.OnDate? ==> a == OnDate(dt.day, dt.month, dt.year % 100)
  {
    if elapsed < 60 then JustNow
    else if elapsed / 60 < 60 then Minutes(elapsed / 60)
    else if elapsed / 3600 < 24 then Hours(elapsed / 3600)
    else if elapsed / 86400 < 7 then Days(elapsed / 86400)
    else OnDate(dt.day, dt.month, dt.year % 100)
  }

  /** More time elapsed never moves a moment to an earlier bucket, nor to a
      smaller count within the same bucket. */
  lemma ClassifyMonotone(e1: int, e2: int, dt: DateTime)
    requires e1 <= e2
    ensures Rank(Classify(e1, dt)) <= Rank(Classify(e2, dt))
    ensures Rank(Classify(e1, dt)) == Rank(Classify(e2, dt)) && 1 <= Rank(Classify(e1, dt)) <= 3
            ==> Classify(e1, dt).n <= Classify(e2, dt).n
  {
  }

  /** A number below 100 as two digits, as `%d`, `%m` and `%y` write it. */
  function Pad2(n: nat): (r: string)
    requires n < 100
    ensures |r| == 2 && AllDigits(r) && DigitsValue(r) == n
  {
    DigitsValueOfNat(n);
    if n < 10 then
      assert DigitsValue("0") == 0;
      "0" + NatToString(n)
    else NatToString(n)
  }

  /** The text of a bucket: `strftime("%d/%m/%y")` for a date. */
  function Render(a: Ago): string
  {
    match a
    case JustNow => "Just now"
    case Minutes(n) => IntToString(n) + "m"
    case Hours(n) => IntToString(n) + "h"
    case Days(n) => IntToString(n) + "d"
    case OnDate(d, m, y) => if d < 100 && m < 100 && y < 100 then Pad2(d) + "/" + Pad2(m) + "/" + Pad2(y) else ""
  }

  /** The buckets `Classify` can give. */
  predicate WellFormed(a: Ago)
  {
    match a
    case JustNow => true
    case Minutes(n) => 1 <= n <= 59
    case Hours(n) => 1 <= n <= 23
    case Days(n) => 1 <= n <= 6
    case OnDate(d, m, y) => 1 <= d <= 31 && 1 <= m <= 12 && y < 100
  }

  /** Every bucket `Classify` gives is well formed. */
  lemma ClassifyWellFormed(elapsed: int, dt: DateTime)
    ensures WellFormed(Classify(elapsed, dt))
  {
  }

  /** The unit letter, or the last digit of a date. */
  lemma RenderLast(a: Ago)
    requires WellFormed(a)
    ensures |Render(a)| > 0
    ensures a.JustNow? ==> Render(a)[|Render(a)| - 1] == 'w'
    ensures a.Minutes? ==> Render(a)[|Render(a)| - 1] == 'm'
    ensures a.Hours? ==> Render(a)[|Render(a)| - 1] == 'h'
    ensures a.Days? ==> Render(a)[|Render(a)| - 1] == 'd'
    ensures a.OnDate? ==> IsDigit(Render(a)[|Render(a)| - 1])
  {
    if a.OnDate? {
      var r := Render(a);
      assert r == Pad2(a.day) + "/" + Pad2(a.month) + "/" + Pad2(a.yy);
      assert r[|r| - 1] == Pad2(a.yy)[1];
    }
  }

  /** A count with its unit letter gives the count back. */
  lemma CountText(n: int, m: int, unit: char)
    requires IntToString(n) + [unit] == IntToString(m) + [unit]
    ensures n == m
  {
    var x, y := IntToString(n) + [unit], IntToString(m) + [unit];
    assert x[..|x| - 1] == IntToString(n);
    assert y[..|y| - 1] == IntToString(m);
    if n != m {
      IntToStringInjective(n, m);
    }
  }

  /** Two well-formed numbers below 100 with the same two digits are equal. */
  lemma Pad2Injective(a: nat, b: nat)
    requires a < 100 && b < 100 && Pad2(a) == Pad2(b)
    ensures a == b
  {
  }

  /** Where the day, the month and the year sit in a date text. */
  lemma DateSlices(a: Ago)
    requires a.OnDate? && WellFormed(a)
    ensures |Render(a)| == 8
    ensures Render(a)[0..2] == Pad2(a.day) && Render(a)[3..5] == Pad2(a.month) && Render(a)[6..8] == Pad2(a.yy)
  {
    var d, m, y := Pad2(a.day), Pad2(a.month), Pad2(a.yy);
    assert Render(a) == d + "/" + m + "/" + y;
  }

  /** A date text gives its three numbers back. */
  lemma DateText(a: Ago, b: Ago)
    requires a.OnDate? && b.OnDate? && WellFormed(a) && WellFormed(b) && Render(a) == Render(b)
    ensures a == b
  {
    DateSlices(a);
    DateSlices(b);
    Pad2Injective(a.day, b.day);
    Pad2Injective(a.month, b.month);
    Pad2Injective(a.yy, b.yy);
  }

  /** The text of a bucket determines the bucket: no two buckets the filter
      can give are shown alike. */
  lemma RenderDeterminesBucket(a: Ago, b: Ago)
    requires WellFormed(a) && WellFormed(b) && Render(a) == Render(b)
    ensures a == b
  {
    RenderLast(a);
    RenderLast(b);
    if a.Minutes? && b.Minutes? {
      CountText(a.n, b.n, 'm');
    } else if a.Hours? && b.Hours? {
      CountText(a.n, b.n, 'h');
    } else if a.Days? && b.Days? {
      CountText(a.n, b.n, 'd');
    } else if a.OnDate? && b.OnDate? {
      DateText(a, b);
    }
  }

  /** `value.replace('Z', '')`: every `Z` removed. */
  function RemoveZ(s: string): (r: string)
    ensures 'Z' !in r && |r| <= |s|
  {
    Filter(s, (c: char) => c != 'Z')
  }

  /** `timeago`: a string is read as an ISO moment once its `Z`s are
      removed, and comes back unchanged when it is not one; a value that is
      neither a string nor a `datetime` comes back as its text; a moment is
      shown by the bucket of the seconds elapsed until `now`. */
  function TimeAgo(v: Value, now: int, parse: string -> Option<DateTime>): (r: string)
    ensures v.StrValue? && parse(RemoveZ(v.s)).None? ==> r == v.s
    ensures v.OtherValue? ==> r == v.text
    ensures v.DateTimeValue? ==> r == Render(Classify(now - v.dt.instant, v.dt))
    ensures v.StrValue? && parse(RemoveZ(v.s)).Some? ==>
              var dt := parse(RemoveZ(v.s)).value; r == Render(Classify(now - dt.instant, dt))
  {
    match v
    case StrValue(s) =>
      (match parse(RemoveZ(s))
       case None => s
       case Some(dt) => Render(Classify(now - dt.instant, dt)))
    case DateTimeValue(dt) => Render(Classify(now - dt.instant, dt))
    case OtherValue(text) => text
  }

  /** A string with a trailing `Z` reads as the same moment as without it. */
  lemma TrailingZIgnored(s: string, now: int, parse: string -> Option<DateTime>)
    requires parse(RemoveZ(s)).Some?
    ensures TimeAgo(StrValue(s + "Z"), now, parse) == TimeAgo(StrValue(s), now, parse)
  {
    FilterSnoc(s, 'Z', (c: char) => c != 'Z');
    assert RemoveZ(s + "Z") == RemoveZ(s);
  }

  /** A string and the moment it names are shown alike. */
  lemma StringAndMomentAgree(s: string, now: int, parse: string -> Option<DateTime>)
    requires parse(RemoveZ(s)).Some?
    ensures TimeAgo(StrValue(s), now, parse) == TimeAgo(DateTimeValue(parse(RemoveZ(s)).value), now, parse)
  {
  }
}
