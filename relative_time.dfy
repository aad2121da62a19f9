/** `timeSince`: the relative age shown under each post and comment. The
    clock and `new Date(...)` are left to the caller, which passes the elapsed
    milliseconds `now - past` and whether `past` was an invalid date. */
module RelativeTime {
  import opened Js

  const SecondMs: nat := 1000
  const MinuteMs: nat := 60 * SecondMs
  const HourMs: nat := 60 * MinuteMs
  const DayMs: nat := 24 * HourMs

  /** The bucket `timeSince` picks. */
  datatype Age = JustNow | MinutesAgo(n: nat) | HoursAgo(n: nat) | DaysAgo(n: nat) {
    /** Buckets in order of growing age. */
    function Rank(): nat {
      match this
      case JustNow => 0
      case MinutesAgo(_) => 1
      case HoursAgo(_) => 2
      case DaysAgo(_) => 3
    }

    function Count(): nat {
      match this
      case JustNow => 0
      case MinutesAgo(n) => n
      case HoursAgo(n) => n
      case DaysAgo(n) => n
    }
  }

  /** `Math.floor(a / d)` for a positive divisor. */
  function FloorDiv(a: int, d: int): (q: int)
    requires d > 0
    ensures q * d <= a < q * d + d
  {
    a / d
  }

  /** The steps of `timeSince` as written: floor to seconds, stop below a
      minute, then floor to minutes, hours and days in turn. */
  function AgeOf(elapsedMs: int, invalidDate: bool): (a: Age)
    ensures a == JustNow <==> invalidDate || elapsedMs < MinuteMs
    ensures a.MinutesAgo? ==> 1 <= a.n < 60
    ensures a.HoursAgo? ==> 1 <= a.n < 24
    ensures a.DaysAgo? ==> 1 <= a.n
  {
    if invalidDate then JustNow
    else
      var seconds := FloorDiv(elapsedMs, 1000);
      if seconds < 60 then JustNow
      else
        var minutes := FloorDiv(seconds, 60);
        if minutes < 60 then MinutesAgo(minutes)
        else
          var hours := FloorDiv(minutes, 60);
          if hours < 24 then HoursAgo(hours)
          else DaysAgo(FloorDiv(hours, 24))
  }

  /** The fixed words of a bucket's text. */
  function Suffix(a: Age): (r: string)
    ensures |r| >= 3
  {
    match a
    case JustNow => "방금 전"
    case MinutesAgo(_) => "분 전"
    case HoursAgo(_) => "시간 전"
    case DaysAgo(_) => "일 전"
  }

  /** The text of a bucket: the bucket's words, after the count in decimal
      unless it is "just now"; the count reads back from the text. */
  function Label(a: Age): (r: string)
    ensures |r| >= |Suffix(a)| && r[|r| - |Suffix(a)|..] == Suffix(a)
    ensures a.JustNow? <==> |r| == |Suffix(a)|
    ensures !a.JustNow? ==> var k := |r| - |Suffix(a)|;
      AllDigits(r[..k]) && ParseDecimal(r[..k]) == a.n
  {
    if a.JustNow? then Suffix(a)
    else
      var d := NatToString(a.n);
      ParseNatToString(a.n);
      assert (d + Suffix(a))[..|d|] == d;
      d + Suffix(a)
  }

  /** `timeSince(timestamp)`: `방금 전` exactly for an invalid date or less
      than a minute elapsed. */
  function TimeSince(elapsedMs: int, invalidDate: bool): (r: string)
    ensures r == "방금 전" <==> invalidDate || elapsedMs < MinuteMs
  {
    LabelInjective(AgeOf(elapsedMs, invalidDate), JustNow);
    Label(AgeOf(elapsedMs, invalidDate))
  }

  /** Floors taken one after another are the floor by the product: the
      nested divisions of `timeSince` lose nothing. */
  lemma NestedFloor(a: int, b: nat, c: nat)
    requires b > 0 && c > 0
    ensures FloorDiv(FloorDiv(a, b), c) == a / (b * c)
  {
    var q1, r1 := a / b, a % b;
    var q2, r2 := q1 / c, q1 % c;
    assert a == q1 * b + r1 && 0 <= r1 < b;
    assert q1 == q2 * c + r2 && 0 <= r2 < c;
    Regroup(q2, c, r2, b);
    RemainderBound(r2, c, b);
    FloorUnique(a, b * c, q2, r2 * b + r1);
  }

  lemma Regroup(q: int, c: int, r: int, b: int)
    ensures (q * c + r) * b == q * (b * c) + r * b
  {
  }

  lemma RemainderBound(r: int, c: int, b: int)
    requires 0 <= r < c && b > 0
    ensures 0 <= r * b <= b * c - b
  {
    assert r * b <= (c - 1) * b;
  }

  lemma FloorUnique(a: int, d: int, q: int, r: int)
    requires d > 0 && a == q * d + r && 0 <= r < d
    ensures a / d == q
  {
    var q' := a / d;
    var r' := a % d;
    assert a == q' * d + r' && 0 <= r' < d;
    assert (q - q') * d == r' - r;
    MulAwayFromZero(q - q', d);
  }

  lemma MulAwayFromZero(k: int, d: int)
    requires d > 0
    ensures k >= 1 ==> k * d >= d
    ensures k <= -1 ==> k * d <= -d
  {
  }

  /** The buckets and their numbers: below a minute (or an invalid date,
      or a time in the future) it is "just now"; then whole minutes 1 to 59,
      whole hours 1 to 23, and whole days from 1, each the floor of the
      elapsed time over its unit. */
  lemma AgeBuckets(e: int, invalidDate: bool)
    ensures AgeOf(e, invalidDate) == JustNow <==> invalidDate || e < MinuteMs
    ensures AgeOf(e, invalidDate).MinutesAgo? <==> !invalidDate && MinuteMs <= e < HourMs
    ensures AgeOf(e, invalidDate).HoursAgo? <==> !invalidDate && HourMs <= e < DayMs
    ensures AgeOf(e, invalidDate).DaysAgo? <==> !invalidDate && DayMs <= e
    ensures AgeOf(e, invalidDate).MinutesAgo? ==> AgeOf(e, invalidDate).n == e / MinuteMs && 1 <= e / MinuteMs <= 59
    ensures AgeOf(e, invalidDate).HoursAgo? ==> AgeOf(e, invalidDate).n == e / HourMs && 1 <= e / HourMs <= 23
    ensures AgeOf(e, invalidDate).DaysAgo? ==> AgeOf(e, invalidDate).n == e / DayMs && 1 <= e / DayMs
  {
    NestedFloor(e, 1000, 60);
    NestedFloor(e, 60000, 60);
    NestedFloor(e, 3600000, 24);
    assert FloorDiv(FloorDiv(FloorDiv(e, 1000), 60), 60) == e / 3600000;
    assert FloorDiv(FloorDiv(FloorDiv(FloorDiv(e, 1000), 60), 60), 24) == e / 86400000;
  }

  /** An older timestamp never gets a younger label: the bucket rank grows
      with the elapsed time, and within a bucket so does the number. */
  lemma AgeMonotone(e1: int, e2: int)
    requires e1 <= e2
    ensures AgeOf(e1, false).Rank() <= AgeOf(e2, false).Rank()
    ensures AgeOf(e1, false).Rank() == AgeOf(e2, false).Rank() ==>
      AgeOf(e1, false).Count() <= AgeOf(e2, false).Count()
  {
    AgeBuckets(e1, false);
    AgeBuckets(e2, false);
    DivMonotone(e1, e2, MinuteMs);
    DivMonotone(e1, e2, HourMs);
    DivMonotone(e1, e2, DayMs);
  }

  lemma DivMonotone(a: int, b: int, d: int)
    requires a <= b && d > 0
    ensures a / d <= b / d
  {
    var qa, qb := a / d, b / d;
    assert qa * d <= a && b < qb * d + d;
    assert (qa - qb) * d < d;
    MulAwayFromZero(qa - qb, d);
  }

  /** Different buckets, or different numbers, never share a label: the text
      shown determines the age it stands for. */
  lemma LabelInjective(a: Age, b: Age)
    ensures Label(a) == Label(b) <==> a == b
  {
    if Label(a) == Label(b) {
      var s := Label(a);
      SuffixDetermines(s, a, b);
      if !a.JustNow? {
        var k := |s| - |Suffix(a)|;
        assert ParseDecimal(s[..k]) == a.n == b.n;
      }
    }
  }

  /** A text ends with the words of at most one bucket: the third character
      from the end tells them apart. */
  lemma SuffixDetermines(s: string, a: Age, b: Age)
    requires |s| >= |Suffix(a)| && s[|s| - |Suffix(a)|..] == Suffix(a)
    requires |s| >= |Suffix(b)| && s[|s| - |Suffix(b)|..] == Suffix(b)
    ensures a.Rank() == b.Rank()
  {
    assert s[|s| - 3] == Suffix(a)[|Suffix(a)| - 3];
    assert s[|s| - 3] == Suffix(b)[|Suffix(b)| - 3];
  }
}
