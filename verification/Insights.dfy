/** Persisting findings (backend/app/services/insights.py): the dedupe keys that identify them and
    the insert that may lose a race. */
module Insights {
  import opened Wrappers

  const MAX_SAMPLE_IDS: nat := 20
  const MAX_CORRELATION_KEY: nat := 160
  const MAX_DEDUPE_KEY: nat := 255

  // ---- Dedupe keys --------------------------------------------------------------------------------

  datatype Date = Date(year: nat, month: nat, day: nat) {
    predicate Valid() { year < 10000 && month < 100 && day < 100 }
  }

  /** A UTC time in microseconds. */
  datatype Instant = Instant(date: Date, hour: nat, minute: nat, second: nat, micro: nat) {
    predicate Valid() { date.Valid() && hour < 100 && minute < 100 && second < 100 && micro < 1000000 }
  }

  /** What a finding is about: one ban under one rule; one event; a pair of events; a rule's threshold
      reached at a time, under a correlation key; or a trend of one series on one day. */
  datatype Subject =
    | OfBan(rule: string, ban: nat)
    | OfEvent(insightType: string, event: nat)
    | OfPair(insightType: string, low: nat, high: nat)
    | OfWindow(rule: string, correlation: string, at: Instant)
    | OfTrend(insightType: string, value: string, date: Date)

  // ---- Numbers and times as text -----------------------------------------------------------------

  function Digit(d: nat): (c: char)
    requires d < 10
    ensures '0' <= c <= '9' && c as int == 48 + d
  {
    (48 + d) as char
  }

  predicate AllDigits(s: string) {
    forall i :: 0 <= i < |s| ==> '0' <= s[i] <= '9'
  }

  /** Decimal notation. */
  function Decimal(n: nat): (s: string)
    ensures s != "" && AllDigits(s)
    ensures |s| == 1 <==> n < 10
  {
    if n < 10 then [Digit(n)] else Decimal(n / 10) + [Digit(n % 10)]
  }

  function Pow10(width: nat): nat {
    if width == 0 then 1 else 10 * Pow10(width - 1)
  }

  /** Decimal notation in a fixed width. */
  function Padded(n: nat, width: nat): (s: string)
    ensures |s| == width && AllDigits(s)
  {
    if width == 0 then "" else Padded(n / 10, width - 1) + [Digit(n % 10)]
  }

  function DateText(d: Date): string {
    Padded(d.year, 4) + ("-" + (Padded(d.month, 2) + ("-" + Padded(d.day, 2))))
  }

  /** Hours and minutes behind the date. */
  function MinuteText(t: Instant): string {
    DateText(t.date) + ("T" + (Padded(t.hour, 2) + (":" + Padded(t.minute, 2))))
  }

  /** Seconds, the fraction where there is one, and the hours of the zero offset. */
  function SecondText(t: Instant): string {
    Padded(t.second, 2) + ((if t.micro == 0 then "" else "." + Padded(t.micro, 6)) + "+00")
  }

  /** `utc_iso`. */
  function IsoText(t: Instant): string {
    MinuteText(t) + (":" + (SecondText(t) + ":00"))
  }

  lemma {:induction false} DecimalInjective(m: nat, n: nat)
    requires Decimal(m) == Decimal(n)
    ensures m == n
  {
    var s, t := Decimal(m), Decimal(n);
    assert s[|s| - 1] == Digit(m % 10) && t[|t| - 1] == Digit(n % 10);
    if m >= 10 && n >= 10 {
      assert s[..|s| - 1] == Decimal(m / 10) && t[..|t| - 1] == Decimal(n / 10);
      DecimalInjective(m / 10, n / 10);
    }
  }

  lemma {:induction false} PaddedInjective(m: nat, n: nat, width: nat)
    requires m < Pow10(width) && n < Pow10(width) && Padded(m, width) == Padded(n, width)
    ensures m == n
  {
    if width > 0 {
      var s, t := Padded(m, width), Padded(n, width);
      assert s[width - 1] == Digit(m % 10) && t[width - 1] == Digit(n % 10);
      assert s[..width - 1] == Padded(m / 10, width - 1) && t[..width - 1] == Padded(n / 10, width - 1);
      PaddedInjective(m / 10, n / 10, width - 1);
    }
  }

  lemma Widths()
    ensures Pow10(2) == 100 && Pow10(4) == 10000 && Pow10(6) == 1000000
  {
    assert Pow10(0) == 1 && Pow10(1) == 10 && Pow10(3) == 1000 && Pow10(5) == 100000;
  }

  /** Texts of equal length are compared part by part. */
  lemma Cancel(a: string, b: string, c: string, d: string)
    requires a + b == c + d && |a| == |c|
    ensures a == c && b == d
  {
    assert a == (a + b)[..|a|] && b == (a + b)[|a|..];
    assert c == (c + d)[..|c|] && d == (c + d)[|c|..];
  }

  lemma {:induction false} DateInjective(d: Date, e: Date)
    requires d.Valid() && e.Valid() && DateText(d) == DateText(e)
    ensures d == e
  {
    Widths();
    var days, days' := "-" + Padded(d.day, 2), "-" + Padded(e.day, 2);
    var months, months' := Padded(d.month, 2) + days, Padded(e.month, 2) + days';
    Cancel(Padded(d.year, 4), "-" + months, Padded(e.year, 4), "-" + months');
    Cancel("-", months, "-", months');
    Cancel(Padded(d.month, 2), days, Padded(e.month, 2), days');
    Cancel("-", Padded(d.day, 2), "-", Padded(e.day, 2));
    PaddedInjective(d.year, e.year, 4);
    PaddedInjective(d.month, e.month, 2);
    PaddedInjective(d.day, e.day, 2);
  }

  lemma {:induction false} MinuteInjective(t: Instant, u: Instant)
    requires t.Valid() && u.Valid() && MinuteText(t) == MinuteText(u)
    ensures t.date == u.date && t.hour == u.hour && t.minute == u.minute
  {
    Widths();
    var minutes, minutes' := ":" + Padded(t.minute, 2), ":" + Padded(u.minute, 2);
    var hours, hours' := Padded(t.hour, 2) + minutes, Padded(u.hour, 2) + minutes';
    Cancel(DateText(t.date), "T" + hours, DateText(u.date), "T" + hours');
    Cancel("T", hours, "T", hours');
    Cancel(Padded(t.hour, 2), minutes, Padded(u.hour, 2), minutes');
    Cancel(":", Padded(t.minute, 2), ":", Padded(u.minute, 2));
    DateInjective(t.date, u.date);
    PaddedInjective(t.hour, u.hour, 2);
    PaddedInjective(t.minute, u.minute, 2);
  }

  lemma {:induction false} SecondInjective(t: Instant, u: Instant)
    requires t.Valid() && u.Valid() && SecondText(t) == SecondText(u)
    ensures t.second == u.second && t.micro == u.micro
  {
    Widths();
    var part, part' := if t.micro == 0 then "" else "." + Padded(t.micro, 6), if u.micro == 0 then "" else "." + Padded(u.micro, 6);
    Cancel(Padded(t.second, 2), part + "+00", Padded(u.second, 2), part' + "+00");
    PaddedInjective(t.second, u.second, 2);
    assert |part + "+00"| == |part| + 3 && |part' + "+00"| == |part'| + 3;
    if t.micro != 0 && u.micro != 0 {
      Cancel(part, "+00", part', "+00");
      Cancel(".", Padded(t.micro, 6), ".", Padded(u.micro, 6));
      PaddedInjective(t.micro, u.micro, 6);
    }
  }

  /** A time is 25 characters long, 32 with a fraction; the seventh is a digit. */
  lemma IsoShape(t: Instant)
    ensures |DateText(t.date)| == 10 && |MinuteText(t)| == 16
    ensures |IsoText(t)| == (if t.micro == 0 then 25 else 32) && IsoText(t)[6] != ':'
  {
    var date := DateText(t.date);
    assert date[6] == (Padded(t.date.month, 2) + ("-" + Padded(t.date.day, 2)))[1] == Padded(t.date.month, 2)[1];
    assert MinuteText(t)[6] == date[6];
    assert IsoText(t)[6] == MinuteText(t)[6];
  }

  predicate Without(s: string, c: char) {
    forall i :: 0 <= i < |s| ==> s[i] != c
  }

  lemma WithoutConcat(a: string, b: string, c: char)
    requires Without(a, c) && Without(b, c)
    ensures Without(a + b, c)
  {
  }

  lemma DateWithout(d: Date, c: char)
    requires c == ':' || c == 'w'
    ensures Without(DateText(d), c)
  {
    WithoutConcat("-", Padded(d.day, 2), c);
    WithoutConcat(Padded(d.month, 2), "-" + Padded(d.day, 2), c);
    WithoutConcat("-", Padded(d.month, 2) + ("-" + Padded(d.day, 2)), c);
    WithoutConcat(Padded(d.year, 4), "-" + (Padded(d.month, 2) + ("-" + Padded(d.day, 2))), c);
  }

  lemma SecondWithout(t: Instant, c: char)
    requires c == ':' || c == 'w'
    ensures Without(SecondText(t), c) && '+' in SecondText(t)
  {
    var part := if t.micro == 0 then "" else "." + Padded(t.micro, 6);
    WithoutConcat(".", Padded(t.micro, 6), c);
    WithoutConcat(part, "+00", c);
    WithoutConcat(Padded(t.second, 2), part + "+00", c);
    assert (part + "+00")[|part|] == '+';
    assert SecondText(t)[2 + |part|] == '+';
  }

  lemma IsoWithoutW(t: Instant)
    ensures Without(IsoText(t), 'w')
  {
    DateWithout(t.date, 'w');
    SecondWithout(t, 'w');
    WithoutConcat(":", Padded(t.minute, 2), 'w');
    WithoutConcat(Padded(t.hour, 2), ":" + Padded(t.minute, 2), 'w');
    WithoutConcat("T", Padded(t.hour, 2) + (":" + Padded(t.minute, 2)), 'w');
    WithoutConcat(DateText(t.date), "T" + (Padded(t.hour, 2) + (":" + Padded(t.minute, 2))), 'w');
    WithoutConcat(SecondText(t), ":00", 'w');
    WithoutConcat(":", SecondText(t) + ":00", 'w');
    WithoutConcat(MinuteText(t), ":" + (SecondText(t) + ":00"), 'w');
  }

  // ---- The keys ----------------------------------------------------------------------------------

  const MARK: string := ":window:"

  function DedupeKey(subject: Subject): string {
    match subject
    case OfBan(rule, ban) => (rule + ":ban") + ":" + Decimal(ban)
    case OfEvent(insightType, event) => (insightType + ":event") + ":" + Decimal(event)
    case OfPair(insightType, low, high) => ((insightType + ":pair") + ":" + Decimal(low)) + ":" + Decimal(high)
    case OfWindow(rule, correlation, at) => rule + (MARK + (correlation + (":" + IsoText(at))))
    case OfTrend(insightType, value, date) => (insightType + ":" + value) + ":" + DateText(date)
  }

  /** The number that digits read as. */
  function Value(s: string): int {
    if s == "" then 0 else 10 * Value(s[..|s| - 1]) + (s[|s| - 1] as int - 48)
  }

  /** Decimal notation reads back, and has no leading zero. */
  lemma {:induction false} DecimalReads(n: nat)
    ensures Value(Decimal(n)) == n && (n > 0 ==> Decimal(n)[0] != '0')
  {
    var s := Decimal(n);
    if n < 10 {
      assert s[..0] == "";
    } else {
      DecimalReads(n / 10);
      assert s[..|s| - 1] == Decimal(n / 10);
    }
  }

  /** So does padded notation, of what fits. */
  lemma {:induction false} PaddedReads(n: nat, width: nat)
    requires n < Pow10(width)
    ensures Value(Padded(n, width)) == n
  {
    if width > 0 {
      PaddedReads(n / 10, width - 1);
      assert Padded(n, width)[..width - 1] == Padded(n / 10, width - 1);
    }
  }

  /** The parts of a time: the date, hour and minute in fixed width; then the second, six more digits where
      there are microseconds, and the zero offset. */
  lemma {:induction false} IsoForm(t: Instant)
    ensures IsoText(t)[..10] == DateText(t.date) && IsoText(t)[10] == 'T' && IsoText(t)[11..13] == Padded(t.hour, 2)
    ensures IsoText(t)[13] == ':' && IsoText(t)[14..16] == Padded(t.minute, 2) && IsoText(t)[16] == ':'
    ensures IsoText(t)[17..] ==
            Padded(t.second, 2) + (if t.micro == 0 then "" else "." + Padded(t.micro, 6)) + "+00:00"
  {
    IsoShape(t);
    var m := MinuteText(t);
    assert m[..10] == DateText(t.date) && m[11..13] == Padded(t.hour, 2) && m[14..16] == Padded(t.minute, 2);
    assert IsoText(t)[..16] == m && IsoText(t)[17..] == SecondText(t) + ":00";
    assert "+00" + ":00" == "+00:00";
  }

  lemma DateForm(d: Date)
    ensures DateText(d) == Padded(d.year, 4) + "-" + Padded(d.month, 2) + "-" + Padded(d.day, 2)
  {
  }

  /** The five shapes of a key. */
  lemma {:induction false} KeyForms(rule: string, ban: nat, low: nat, correlation: string, at: Instant, date: Date)
    ensures DedupeKey(OfBan(rule, ban)) == rule + ":ban:" + Decimal(ban)
    ensures DedupeKey(OfEvent(rule, ban)) == rule + ":event:" + Decimal(ban)
    ensures DedupeKey(OfPair(rule, low, ban)) == rule + ":pair:" + Decimal(low) + ":" + Decimal(ban)
    ensures DedupeKey(OfWindow(rule, correlation, at)) == rule + ":window:" + correlation + ":" + IsoText(at)
    ensures DedupeKey(OfTrend(rule, correlation, date)) == rule + ":" + correlation + ":" + DateText(date)
  {
    assert rule + ":ban" + ":" == rule + ":ban:" && rule + ":event" + ":" == rule + ":event:";
    assert rule + ":pair" + ":" == rule + ":pair:";
  }

  predicate PartAt(s: string, j: nat, part: string) {
    j + |part| <= |s| && s[j..j + |part|] == part
  }

  /** The correlation key does not contain ":window", at its start not even without the colon. */
  ghost predicate Unmarked(correlation: string) {
    forall j: nat :: !PartAt(":" + correlation, j, ":window")
  }

  /** Times are times; a series is named without a colon; and a correlation key is unmarked. */
  ghost predicate Proper(subject: Subject) {
    match subject
    case OfWindow(_, correlation, at) => Unmarked(correlation) && at.Valid()
    case OfTrend(_, value, date) => Without(value, ':') && date.Valid()
    case _ => true
  }

  lemma WindowHasW(s: string, j: nat)
    requires PartAt(s, j, ":window")
    ensures j + 1 < |s| && s[j + 1] == 'w'
  {
    assert s[j..j + 7][1] == s[j + 1];
  }

  lemma UnmarkedWithoutW(correlation: string)
    requires Without(correlation, 'w')
    ensures Unmarked(correlation)
  {
    assert Without(":" + correlation, 'w');
    forall j: nat ensures !PartAt(":" + correlation, j, ":window") {
      if PartAt(":" + correlation, j, ":window") {
        WindowHasW(":" + correlation, j);
      }
    }
  }

  /** The two kinds of correlation key the rules use are unmarked: "rule", and "ip:" with an address,
      which has no "w" unless in the name of a zone. */
  lemma CorrelationIsUnmarked(address: string)
    requires Without(address, 'w')
    ensures Unmarked("rule") && Unmarked("ip:" + address)
  {
    UnmarkedWithoutW("rule");
    UnmarkedWithoutW("ip:" + address);
  }

  /** The text before and after the last colon. */
  lemma LastColon(x: string, d: string, y: string, e: string)
    requires Without(d, ':') && Without(e, ':')
    requires x + ":" + d == y + ":" + e
    ensures x == y && d == e
  {
    var s := x + ":" + d;
    assert s[|x|] == ':' && s[|y|] == ':';
    assert forall i :: |x| < i < |s| ==> s[i] == d[i - |x| - 1];
    assert forall i :: |y| < i < |s| ==> s[i] == e[i - |y| - 1];
    assert |x| == |y|;
    assert x == s[..|x|] && y == s[..|y|] && d == s[|x| + 1..] && e == s[|y| + 1..];
  }

  ghost predicate NoMark(rest: string) {
    forall j: nat :: !PartAt(":" + rest, j, MARK)
  }

  /** The text before and after the last mark. */
  lemma LastMark(x: string, r: string, y: string, q: string)
    requires NoMark(r) && |x| <= |y| && x + (MARK + r) == y + (MARK + q)
    ensures x == y && r == q
  {
    MarkIsNotInside(x, r, y, q);
    Cancel(x, MARK + r, y, MARK + q);
    Cancel(MARK, r, MARK, q);
  }

  lemma MarkIsNotInside(x: string, r: string, y: string, q: string)
    requires NoMark(r) && x + (MARK + r) == y + (MARK + q)
    ensures |x| >= |y|
  {
    var s, k := x + (MARK + r), |y| - |x|;
    if k > 0 {
      MarkMoves(r, (MARK + r)[k..], q, k) by {
        assert y + (MARK + q) == s;
        assert s[|y|..] == MARK + q && s[|y|..] == (MARK + r)[k..];
      }
    }
  }

  /** A mark that begins behind the first character of a mark begins behind its last one. */
  lemma MarkMoves(r: string, rest: string, q: string, k: nat)
    requires 0 < k <= 8 + |r| && rest == (MARK + r)[k..] == MARK + q
    ensures !NoMark(r)
  {
    var all := MARK + r;
    assert MARK == [':', 'w', 'i', 'n', 'd', 'o', 'w', ':'];
    assert all[k] == rest[0] == ':';
    assert k < 8 ==> all[k] == MARK[k];
    assert k >= 7;
    var tail := ":" + r;
    assert all[7..] == tail && all[k..] == tail[k - 7..];
    assert tail[k - 7..k + 1] == rest[..8] == MARK;
    assert PartAt(tail, k - 7, MARK);
  }

  lemma RestHasNoMark(correlation: string, at: Instant)
    requires Unmarked(correlation)
    ensures NoMark(correlation + (":" + IsoText(at)))
  {
    IsoWithoutW(at);
    var tail := ":" + IsoText(at);
    var rest, head := correlation + tail, ":" + correlation;
    var all := ":" + rest;
    assert all == head + tail;
    forall j: nat ensures !PartAt(all, j, MARK) {
      if PartAt(all, j, MARK) {
        NoWindowIn(head, tail, j);
      }
    }
  }

  lemma NoWindowIn(head: string, tail: string, j: nat)
    requires PartAt(head + tail, j, MARK) && Without(tail, 'w')
    ensures PartAt(head, j, ":window")
  {
    var all := head + tail;
    assert all[j + 6] == all[j..j + 8][6] == 'w';
    assert forall i :: |head| <= i < |all| ==> all[i] == tail[i - |head|];
    assert j + 6 < |head|;
    assert head[j..j + 7] == all[j..j + 8][..7] == ":window";
  }

  /** A correlation key and a time are told apart by the time's fixed length. */
  lemma RestSplits(c: string, t: Instant, d: string, u: Instant)
    requires t.Valid() && u.Valid() && |IsoText(t)| <= |IsoText(u)|
    requires c + (":" + IsoText(t)) == d + (":" + IsoText(u))
    ensures c == d && t == u
  {
    SameLength(c, t, d, u);
    Cancel(c, ":" + IsoText(t), d, ":" + IsoText(u));
    Cancel(":", IsoText(t), ":", IsoText(u));
    IsoInjective(t, u);
  }

  lemma SameLength(c: string, t: Instant, d: string, u: Instant)
    requires |IsoText(t)| <= |IsoText(u)| && c + (":" + IsoText(t)) == d + (":" + IsoText(u))
    ensures |IsoText(t)| == |IsoText(u)|
  {
    IsoShape(t);
    IsoShape(u);
    var s := c + (":" + IsoText(t));
    assert s[|c|] == ':';
    assert |d| + 7 < |s| && s[|d| + 7] == (":" + IsoText(u))[7] == IsoText(u)[6];
    assert |IsoText(t)| < |IsoText(u)| ==> |c| == |d| + 7;
  }

  lemma {:induction false} IsoInjective(t: Instant, u: Instant)
    requires t.Valid() && u.Valid() && IsoText(t) == IsoText(u)
    ensures t == u
  {
    IsoShape(t);
    IsoShape(u);
    Cancel(MinuteText(t), ":" + (SecondText(t) + ":00"), MinuteText(u), ":" + (SecondText(u) + ":00"));
    Cancel(":", SecondText(t) + ":00", ":", SecondText(u) + ":00");
    assert |SecondText(t) + ":00"| == |SecondText(t)| + 3 && |SecondText(u) + ":00"| == |SecondText(u)| + 3;
    Cancel(SecondText(t), ":00", SecondText(u), ":00");
    MinuteInjective(t, u);
    SecondInjective(t, u);
  }

  // ---- The last two parts of a key -----------------------------------------------------------------

  function Tail(subject: Subject): string {
    match subject
    case OfBan(_, ban) => Decimal(ban)
    case OfEvent(_, event) => Decimal(event)
    case OfPair(_, _, high) => Decimal(high)
    case OfWindow(_, _, _) => "00"
    case OfTrend(_, _, date) => DateText(date)
  }

  function Tag(subject: Subject): string {
    match subject
    case OfBan(_, _) => "ban"
    case OfEvent(_, _) => "event"
    case OfPair(_, low, _) => Decimal(low)
    case OfWindow(_, _, at) => SecondText(at)
    case OfTrend(_, value, _) => value
  }

  function Prefix(subject: Subject): string {
    match subject
    case OfBan(rule, _) => rule
    case OfEvent(insightType, _) => insightType
    case OfPair(insightType, _, _) => insightType + ":pair"
    case OfWindow(rule, correlation, at) => rule + (MARK + (correlation + (":" + MinuteText(at))))
    case OfTrend(insightType, _, _) => insightType
  }

  lemma WindowKeySplits(rule: string, correlation: string, m: string, sec: string)
    ensures rule + (MARK + (correlation + (":" + (m + (":" + (sec + ":00")))))) ==
            (rule + (MARK + (correlation + (":" + m))) + ":" + sec) + ":" + "00"
  {
    var end := ":" + (sec + ":00");
    assert ":" + (m + end) == (":" + m) + end;
    assert correlation + ((":" + m) + end) == (correlation + (":" + m)) + end;
    assert MARK + ((correlation + (":" + m)) + end) == (MARK + (correlation + (":" + m))) + end;
    assert rule + ((MARK + (correlation + (":" + m))) + end) == (rule + (MARK + (correlation + (":" + m)))) + end;
    assert end == ":" + sec + (":" + "00");
  }

  lemma KeySplits(subject: Subject)
    requires Proper(subject)
    ensures DedupeKey(subject) == (Prefix(subject) + ":" + Tag(subject)) + ":" + Tail(subject)
    ensures Without(Tag(subject), ':') && Without(Tail(subject), ':')
  {
    match subject
    case OfBan(rule, _) =>
      assert rule + ":" + "ban" == rule + ":ban";
    case OfEvent(insightType, _) =>
      assert insightType + ":" + "event" == insightType + ":event";
    case OfPair(_, _, _) =>
    case OfWindow(rule, correlation, at) =>
      SecondWithout(at, ':');
      WindowKeySplits(rule, correlation, MinuteText(at), SecondText(at));
    case OfTrend(_, _, date) =>
      DateWithout(date, ':');
  }

  /** The kind of a subject shows in the last two parts of its key. */
  lemma KindShows(subject: Subject)
    requires Proper(subject)
    ensures subject.OfTrend? <==> '-' in Tail(subject)
    ensures !subject.OfTrend? ==> (subject.OfWindow? <==> '+' in Tag(subject))
    ensures !subject.OfTrend? && !subject.OfWindow? ==>
              (subject.OfBan? <==> Tag(subject) == "ban") && (subject.OfEvent? <==> Tag(subject) == "event")
  {
    match subject
    case OfBan(_, _) =>
    case OfEvent(_, _) =>
    case OfPair(_, low, _) =>
      assert Tag(subject)[0] <= '9';
    case OfWindow(_, _, at) =>
      SecondWithout(at, ':');
    case OfTrend(_, _, date) =>
      assert DateText(date)[4] == '-';
  }

  /** Two findings share a dedupe key only if they are about the same thing, whatever colons rule ids,
      types and times contain. */
  lemma DedupeKeyInjective(f: Subject, g: Subject)
    requires Proper(f) && Proper(g) && DedupeKey(f) == DedupeKey(g)
    ensures f == g
  {
    KeySplits(f);
    KeySplits(g);
    KindShows(f);
    KindShows(g);
    LastColon(Prefix(f) + ":" + Tag(f), Tail(f), Prefix(g) + ":" + Tag(g), Tail(g));
    LastColon(Prefix(f), Tag(f), Prefix(g), Tag(g));
    match f
    case OfBan(_, ban) => DecimalInjective(ban, g.ban);
    case OfEvent(_, event) => DecimalInjective(event, g.event);
    case OfPair(insightType, low, high) =>
      DecimalInjective(low, g.low);
      DecimalInjective(high, g.high);
      Cancel(insightType, ":pair", g.insightType, ":pair");
    case OfWindow(_, _, _) =>
      if |f.rule| <= |g.rule| { WindowKeyInjective(f, g); } else { WindowKeyInjective(g, f); }
    case OfTrend(_, _, date) => DateInjective(date, g.date);
  }

  lemma WindowKeyInjective(f: Subject, g: Subject)
    requires f.OfWindow? && g.OfWindow? && Proper(f) && Proper(g)
    requires DedupeKey(f) == DedupeKey(g) && |f.rule| <= |g.rule|
    ensures f == g
  {
    RestHasNoMark(f.correlation, f.at);
    LastMark(f.rule, f.correlation + (":" + IsoText(f.at)), g.rule, g.correlation + (":" + IsoText(g.at)));
    if |IsoText(f.at)| <= |IsoText(g.at)| {
      RestSplits(f.correlation, f.at, g.correlation, g.at);
    } else {
      RestSplits(g.correlation, g.at, f.correlation, f.at);
    }
  }

  // ---- Recording ----------------------------------------------------------------------------------

  datatype Insight = Insight(insightType: string, trend: bool, events: set<int>, dedupeKey: Option<string>, text: string)

  datatype Failure = InvalidValue | IntegrityError

  /** A finding as a caller hands it over; its evidence is taken as already validated. */
  datatype Finding = Finding(insightType: string, trend: bool, eventIds: seq<int>, sampleCount: int,
                             correlationKey: Option<string>, dedupeKey: Option<string>, text: string)

  function EventSet(finding: Finding): set<int> {
    set i | 0 <= i < |finding.eventIds| :: finding.eventIds[i]
  }

  predicate Acceptable(finding: Finding) {
    && (forall i :: 0 <= i < |finding.eventIds| ==> finding.eventIds[i] > 0)
    && |finding.eventIds| <= MAX_SAMPLE_IDS
    && finding.sampleCount == |EventSet(finding)|
    && (finding.correlationKey.Some? ==> |finding.correlationKey.value| <= MAX_CORRELATION_KEY)
    && (finding.dedupeKey.Some? ==> |finding.dedupeKey.value| <= MAX_DEDUPE_KEY)
  }

  function RowOf(finding: Finding): Insight {
    Insight(finding.insightType, finding.trend, EventSet(finding), finding.dedupeKey, finding.text)
  }

  predicate SameEvidence(row: Insight, finding: Finding) {
    row.insightType == finding.insightType && row.events == EventSet(finding)
  }

  predicate SameKey(row: Insight, key: Option<string>) {
    key.Some? && row.dedupeKey == key
  }

  /** The unique constraint: null keys never conflict. */
  ghost predicate UniqueKeys(rows: seq<Insight>) {
    forall i, j :: 0 <= i < j < |rows| ==> rows[i].dedupeKey.Some? ==> rows[i].dedupeKey != rows[j].dedupeKey
  }

  function First(rows: seq<Insight>, wanted: Insight -> bool): (r: Option<Insight>)
    ensures r.Some? ==> r.value in rows && wanted(r.value)
    ensures r.None? ==> forall i :: 0 <= i < |rows| ==> !wanted(rows[i])
  {
    if rows == [] then None
    else if wanted(rows[0]) then Some(rows[0])
    else First(rows[1..], wanted)
  }

  /** The row the pre-check finds: same type and events, unless the finding is a trend; or same key. */
  function Existing(rows: seq<Insight>, finding: Finding): Option<Insight> {
    var same := if finding.trend then None else First(rows, row => SameEvidence(row, finding));
    if same.Some? then same else First(rows, row => SameKey(row, finding.dedupeKey))
  }

  /** The table and the answer after recording a finding. `rivals` are rows that other sessions commit
      between the pre-check and the flush; `refused` says that some constraint other than the key's
      refuses the new row. */
  function Recorded(rows: seq<Insight>, finding: Finding, rivals: seq<Insight>, refused: bool)
    : (seq<Insight>, Result<Insight, Failure>)
  {
    var existing := Existing(rows, finding);
    var taken := First(rows + rivals, row => SameKey(row, finding.dedupeKey));
    if !Acceptable(finding) then (rows, Err(InvalidValue))
    else if existing.Some? then (rows, Ok(existing.value))
    else if taken.Some? then (rows + rivals, Ok(taken.value))
    else if refused then (rows + rivals, Err(IntegrityError))
    else (rows + rivals + [RowOf(finding)], Ok(RowOf(finding)))
  }

  /** The insights table as one session sees it; `notified` are the rows queued for notification. */
  class Table {
    var rows: seq<Insight>
    var notified: seq<Insight>

    constructor ()
      ensures rows == [] && notified == []
    {
      rows, notified := [], [];
    }

    method RecordInsight(finding: Finding, rivals: seq<Insight>, refused: bool) returns (r: Result<Insight, Failure>)
      requires UniqueKeys(rows) && UniqueKeys(rows + rivals)
      modifies this
      ensures (rows, r) == Recorded(old(rows), finding, rivals, refused)
      ensures UniqueKeys(rows)
      ensures notified == if |rows| == |old(rows)| + |rivals| + 1 then old(notified) + [RowOf(finding)] else old(notified)
    {
      var valid := true;
      for i := 0 to |finding.eventIds|
        invariant valid <==> forall k :: 0 <= k < i ==> finding.eventIds[k] > 0
        invariant rows == old(rows) && notified == old(notified)
      {
        if finding.eventIds[i] <= 0 {
          valid := false;
        }
      }
      if !valid || |finding.eventIds| > MAX_SAMPLE_IDS || finding.sampleCount != |EventSet(finding)|
        || (finding.correlationKey.Some? && |finding.correlationKey.value| > MAX_CORRELATION_KEY)
        || (finding.dedupeKey.Some? && |finding.dedupeKey.value| > MAX_DEDUPE_KEY) {
        return Err(InvalidValue);
      }
      if !finding.trend {
        var same := First(rows, row => SameEvidence(row, finding));
        if same.Some? {
          return Ok(same.value);
        }
      }
      if finding.dedupeKey.Some? {
        var same := First(rows, row => SameKey(row, finding.dedupeKey));
        if same.Some? {
          return Ok(same.value);
        }
      }
      rows := rows + rivals;
      var taken := First(rows, row => SameKey(row, finding.dedupeKey));
      if taken.Some? || refused {
        if taken.Some? {
          return Ok(taken.value);
        }
        return Err(IntegrityError);
      }
      rows := rows + [RowOf(finding)];
      notified := notified + [RowOf(finding)];
      return Ok(RowOf(finding));
    }
  }

  // ---- What recording guarantees ------------------------------------------------------------------

  /** No row is ever lost or changed, the answer is a stored row about the same key or the same
      evidence, and no two rows share a key - also when a rival insert wins the race. */
  lemma {:induction false} RecordedKeeps(rows: seq<Insight>, finding: Finding, rivals: seq<Insight>, refused: bool)
    requires UniqueKeys(rows) && UniqueKeys(rows + rivals)
    ensures var (after, r) := Recorded(rows, finding, rivals, refused);
            && rows <= after && UniqueKeys(after)
            && (r.Ok? ==> r.value in after && (SameKey(r.value, finding.dedupeKey) || SameEvidence(r.value, finding)))
            && (r == Err(InvalidValue) <==> !Acceptable(finding))
  {
    var (after, r) := Recorded(rows, finding, rivals, refused);
    if r.Ok? && Existing(rows, finding).Some? {
      assert r.value in rows;
    }
    assert (rows + rivals + [RowOf(finding)])[|rows + rivals|] == RowOf(finding);
  }

  lemma {:induction false} FirstIff(rows: seq<Insight>, wanted: Insight -> bool)
    ensures First(rows, wanted).Some? <==> exists i :: 0 <= i < |rows| && wanted(rows[i])
  {
    if rows != [] && !wanted(rows[0]) {
      FirstIff(rows[1..], wanted);
      assert forall i :: 0 < i < |rows| ==> rows[i] == rows[1..][i - 1];
    }
  }

  lemma ExistingIff(rows: seq<Insight>, finding: Finding)
    ensures Existing(rows, finding).None? <==>
              && (finding.trend || forall i :: 0 <= i < |rows| ==> !SameEvidence(rows[i], finding))
              && (finding.dedupeKey.Some? ==> forall i :: 0 <= i < |rows| ==> rows[i].dedupeKey != finding.dedupeKey)
  {
    FirstIff(rows, row => SameEvidence(row, finding));
    FirstIff(rows, row => SameKey(row, finding.dedupeKey));
  }

  /** When a finding becomes a new row: its event ids are positive, at most 20, as many different ones as its
      evidence says, and its keys not too long; it is a trend or no row has its type and exactly its events; no
      row carries its dedupe key, not even one of a rival; and no other constraint refuses it. The row then
      has the finding's type, events and key, behind all others. */
  lemma {:induction false} StoredIff(rows: seq<Insight>, finding: Finding, rivals: seq<Insight>, refused: bool)
    ensures var (after, _) := Recorded(rows, finding, rivals, refused);
            |after| > |rows| + |rivals| <==>
              && (forall i :: 0 <= i < |finding.eventIds| ==> finding.eventIds[i] > 0) && |finding.eventIds| <= 20
              && finding.sampleCount == |set i | 0 <= i < |finding.eventIds| :: finding.eventIds[i]|
              && (finding.correlationKey.Some? ==> |finding.correlationKey.value| <= 160)
              && (finding.dedupeKey.Some? ==> |finding.dedupeKey.value| <= 255)
              && (finding.trend || forall i :: 0 <= i < |rows| ==>
                    || rows[i].insightType != finding.insightType
                    || rows[i].events != set k | 0 <= k < |finding.eventIds| :: finding.eventIds[k])
              && (finding.dedupeKey.Some? ==>
                    forall i :: 0 <= i < |rows + rivals| ==> (rows + rivals)[i].dedupeKey != finding.dedupeKey)
              && !refused
    ensures var (after, r) := Recorded(rows, finding, rivals, refused);
            |after| > |rows| + |rivals| ==>
              && after[..|rows| + |rivals|] == rows + rivals && |after| == |rows| + |rivals| + 1
              && r == Ok(after[|rows| + |rivals|]) && r.value.insightType == finding.insightType
              && r.value.events == (set i | 0 <= i < |finding.eventIds| :: finding.eventIds[i])
              && r.value.dedupeKey == finding.dedupeKey && r.value.trend == finding.trend && r.value.text == finding.text
  {
    ExistingIff(rows, finding);
    FirstIff(rows + rivals, row => SameKey(row, finding.dedupeKey));
    assert forall i :: 0 <= i < |rows| ==> (rows + rivals)[i] == rows[i];
  }

  /** What is answered for an acceptable finding that is already there: the first row about the same evidence,
      unless it is a trend; else the first row with its key. Nothing is stored then. */
  lemma {:induction false} AnswerIff(rows: seq<Insight>, finding: Finding, rivals: seq<Insight>, refused: bool, i: nat)
    requires Acceptable(finding) && i < |rows|
    requires if !finding.trend && (exists k :: 0 <= k < |rows| && rows[k].insightType == finding.insightType
                                               && rows[k].events == EventSet(finding))
             then
               && rows[i].insightType == finding.insightType && rows[i].events == EventSet(finding)
               && forall k :: 0 <= k < i ==> rows[k].insightType != finding.insightType || rows[k].events != EventSet(finding)
             else
               && finding.dedupeKey.Some? && rows[i].dedupeKey == finding.dedupeKey
               && forall k :: 0 <= k < i ==> rows[k].dedupeKey != finding.dedupeKey
    ensures Recorded(rows, finding, rivals, refused) == (rows, Ok(rows[i]))
  {
    FirstIff(rows, row => SameEvidence(row, finding));
    if !finding.trend && First(rows, row => SameEvidence(row, finding)).Some? {
      FirstIs(rows, row => SameEvidence(row, finding), i);
    } else {
      FirstIs(rows, row => SameKey(row, finding.dedupeKey), i);
    }
  }

  lemma {:induction false} FirstIs(rows: seq<Insight>, wanted: Insight -> bool, i: nat)
    requires i < |rows| && wanted(rows[i]) && forall k :: 0 <= k < i ==> !wanted(rows[k])
    ensures First(rows, wanted) == Some(rows[i])
  {
    if i > 0 {
      FirstIs(rows[1..], wanted, i - 1);
    }
  }

  /** Losing the race on a key means answering with the winner's row and adding none. */
  lemma {:induction false} RaceHasOneWinner(rows: seq<Insight>, finding: Finding, rivals: seq<Insight>, refused: bool,
        k: nat)
    requires UniqueKeys(rows + rivals) && Acceptable(finding) && Existing(rows, finding).None?
    requires k < |rivals| && SameKey(rivals[k], finding.dedupeKey)
    ensures Recorded(rows, finding, rivals, refused) == (rows + rivals, Ok(rivals[k]))
  {
    var all := rows + rivals;
    assert all[|rows| + k] == rivals[k];
    var taken := First(all, row => SameKey(row, finding.dedupeKey));
    assert (row => SameKey(row, finding.dedupeKey))(all[|rows| + k]);
    var i :| 0 <= i < |all| && all[i] == taken.value;
  }

  /** Recording the same finding again adds nothing exactly when it is no trend or carries a key. */
  lemma {:induction false} AgainAddsNothingIff(rows: seq<Insight>, finding: Finding, rivals: seq<Insight>,
        refused: bool)
    requires Recorded(rows, finding, rivals, refused).1.Ok?
    ensures var after := Recorded(rows, finding, rivals, refused).0;
            Recorded(after, finding, [], false).0 == after <==> !finding.trend || finding.dedupeKey.Some?
  {
    var (after, r) := Recorded(rows, finding, rivals, refused);
    if Existing(rows, finding).None? {
      StoredIsExisting(after, finding, r.value);
    }
    assert after + [] == after;
  }

  lemma StoredIsExisting(rows: seq<Insight>, finding: Finding, row: Insight)
    requires row in rows && (SameKey(row, finding.dedupeKey) || row == RowOf(finding))
    ensures Existing(rows, finding).Some? <==> !finding.trend || finding.dedupeKey.Some?
  {
    var i :| 0 <= i < |rows| && rows[i] == row;
    assert (other => SameKey(other, finding.dedupeKey))(rows[i]) <==> SameKey(row, finding.dedupeKey);
    assert (other => SameEvidence(other, finding))(rows[i]) <==> SameEvidence(row, finding);
  }
}
