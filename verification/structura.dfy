/**
 The frozen-debt postponement rule of the property-register client: a
 person's case waits when one of their frozen debts was sent to
 "Indfrielse" (redemption) on a date later than three days before today,
 because the debt may not have reached the other systems yet.

 The clock is a parameter. Instants are Python `datetime` values as a day
 ordinal (see the Calendar module) and the microseconds since midnight.
 */
module Structura {
  import opened Results
  import opened Digits
  import Calendar

  /** One frozen debt as read from the client; only the status matters here. */
  datatype FrozenDebt = FrozenDebt(cpr: string, name: string, date: string, amount: string, status: string)

  datatype Instant = Instant(day: int, micros: int)

  const MicrosPerDay: int := 86_400_000_000

  /** Ordinal of 9999-12-31, the last day a `datetime` can hold. */
  const MaxOrdinal: int := 3_652_059

  predicate ValidInstant(t: Instant)
  {
    1 <= t.day <= MaxOrdinal && 0 <= t.micros < MicrosPerDay
  }

  /** `datetime` comparison: by day, then by time of day. */
  predicate InstantBefore(a: Instant, b: Instant)
  {
    a.day < b.day || (a.day == b.day && a.micros < b.micros)
  }

  datatype SkipError =
    | DateOutOfRange     // today minus three days falls before year 1
    | InvalidDate(text: string)  // `strptime` rejects the matched date

  /** `today - timedelta(days=3)`: the same time of day, three days earlier. */
  function ThreeDaysAgo(now: Instant): (r: Result<Instant, SkipError>)
    requires ValidInstant(now)
    ensures r.Ok? <==> now.day > 3
    ensures r.Ok? ==> ValidInstant(r.value) && InstantBefore(r.value, now)
    ensures r.Ok? ==> r.value.day + 3 == now.day && r.value.micros == now.micros
  {
    if now.day > 3 then Ok(Instant(now.day - 3, now.micros)) else Err(DateOutOfRange)
  }

  /** The `datetime` a parsed date stands for: midnight of that day. */
  function Midnight(d: Calendar.Date): (t: Instant)
    requires Calendar.Valid(d)
    ensures ValidInstant(t) && t.micros == 0
  {
    Calendar.OrdinalMonotone(d, Calendar.Date(9999, 12, 31));
    Instant(Calendar.Ordinal(d), 0)
  }

  /** The cut-off lies before a date's midnight exactly when the date is
      later than today minus three days, whatever the time of day now is. */
  lemma CutoffBeforeMidnight(now: Instant, d: Calendar.Date)
    requires ValidInstant(now) && now.day > 3 && Calendar.Valid(d)
    ensures InstantBefore(ThreeDaysAgo(now).value, Midnight(d)) <==> Calendar.Ordinal(d) > now.day - 3
  {
  }

  // ---------------------------------------------------------------------
  // the status pattern `Indfrielse pr. (\d{2}\.\d{2}\.\d{4})`

  /** The literal start of the pattern; the '.' after it is unescaped. */
  const Lead: string := "Indfrielse pr"

  /** The shape of the captured group: dd.mm.yyyy in ASCII digits. */
  predicate DateShaped(t: string)
  {
    && |t| == 10
    && AllDigits(t[..2]) && t[2] == '.'
    && AllDigits(t[3..5]) && t[5] == '.'
    && AllDigits(t[6..])
  }

  /** `re.match` of the pattern at the start of a status: the captured date
      text, or nothing when the status does not begin with the pattern. */
  function MatchIndfrielse(status: string): (r: Option<string>)
    ensures r.Some? ==> DateShaped(r.value) && |status| >= 25
    ensures r.Some? ==> status == Lead + [status[13]] + " " + r.value + status[25..] && status[13] != '\n'
  {
    if |status| >= 25 && status[..13] == Lead && status[13] != '\n' && status[14] == ' '
       && DateShaped(status[15..25])
    then
      assert status == status[..13] + [status[13]] + " " + status[15..25] + status[25..];
      Some(status[15..25])
    else None
  }

  /** Any status made of the lead, one character other than a line break
      (the unescaped '.'), a space and a dd.mm.yyyy date matches, whatever
      follows, and the date is what is captured. */
  lemma MatchRendered(c: char, t: string, rest: string)
    requires c != '\n' && DateShaped(t)
    ensures MatchIndfrielse(Lead + [c] + " " + t + rest) == Some(t)
  {
    var s := Lead + [c] + " " + t + rest;
    assert s[..13] == Lead;
    assert s[15..25] == t;
  }

  /** `strptime(text, "%d.%m.%Y")` of a captured date: the date, or an error
      when there is no such day (month 13, 31 February, year 0000). */
  function ParseDate(t: string): (r: Result<Calendar.Date, SkipError>)
    requires DateShaped(t)
    ensures r.Ok? ==> Calendar.Valid(r.value)
    ensures r.Err? ==> r.error == InvalidDate(t)
  {
    var d := Calendar.Date(DigitsValue(t[6..]), DigitsValue(t[3..5]), DigitsValue(t[..2]));
    if Calendar.Valid(d) then Ok(d) else Err(InvalidDate(t))
  }

  /** A date written the way the client writes it: dd.mm.yyyy. */
  function FormatDate(d: Calendar.Date): (t: string)
    requires Calendar.Valid(d)
    ensures DateShaped(t)
  {
    var t := Padded(d.day, 2) + "." + Padded(d.month, 2) + "." + Padded(d.year, 4);
    assert t[..2] == Padded(d.day, 2);
    assert t[3..5] == Padded(d.month, 2);
    assert t[6..] == Padded(d.year, 4);
    t
  }

  /** Every real day, written as dd.mm.yyyy, parses back to itself. */
  lemma ParseFormatDate(d: Calendar.Date)
    requires Calendar.Valid(d)
    ensures ParseDate(FormatDate(d)) == Ok(d)
  {
    var t := FormatDate(d);
    assert Pow10(2) == 100 && Pow10(4) == 10000;
    PaddedValue(d.day, 2);
    PaddedValue(d.month, 2);
    PaddedValue(d.year, 4);
    assert t[..2] == Padded(d.day, 2);
    assert t[3..5] == Padded(d.month, 2);
    assert t[6..] == Padded(d.year, 4);
  }

  /** A date text that parses is the written form of the parsed date; so a
      text fails exactly when no real day is written that way. */
  lemma FormatParseDate(t: string)
    requires DateShaped(t)
    ensures ParseDate(t).Ok? ==> FormatDate(ParseDate(t).value) == t
    ensures ParseDate(t).Err? ==> forall d :: Calendar.Valid(d) ==> FormatDate(d) != t
  {
    if ParseDate(t).Ok? {
      var d := ParseDate(t).value;
      PaddedDigits(t[..2]);
      PaddedDigits(t[3..5]);
      PaddedDigits(t[6..]);
      assert t == t[..2] + "." + t[3..5] + "." + t[6..];
    } else {
      forall d | Calendar.Valid(d) ensures FormatDate(d) != t {
        ParseFormatDate(d);
      }
    }
  }

  // ---------------------------------------------------------------------
  // the rule

  /** A status whose matched date does not exist: `strptime` raises. */
  predicate Unreadable(x: FrozenDebt)
  {
    match MatchIndfrielse(x.status)
    case None => false
    case Some(t) => ParseDate(t).Err?
  }

  /** A debt whose redemption date lies after the cut-off instant. */
  predicate Postpones(x: FrozenDebt, cutoff: Instant)
  {
    match MatchIndfrielse(x.status)
    case None => false
    case Some(t) =>
      match ParseDate(t)
      case Err(_) => false
      case Ok(d) => InstantBefore(cutoff, Midnight(d))
  }

  /** A debt redeemed on a day later than today minus three days. */
  predicate Recent(x: FrozenDebt, today: int)
  {
    match MatchIndfrielse(x.status)
    case None => false
    case Some(t) =>
      match ParseDate(t)
      case Err(_) => false
      case Ok(d) => Calendar.Ordinal(d) > today - 3
  }

  /** The loop of the rule, in list order: the first matching debt after the
      cut-off decides `True`, and an unreadable date met before it raises. */
  function Scan(debts: seq<FrozenDebt>, cutoff: Instant): Result<bool, SkipError>
    decreases |debts|
  {
    if debts == [] then Ok(false)
    else
      var rest := Scan(debts[1..], cutoff);
      match MatchIndfrielse(debts[0].status)
      case None => rest
      case Some(t) =>
        match ParseDate(t)
        case Err(e) => Err(e)
        case Ok(d) => if InstantBefore(cutoff, Midnight(d)) then Ok(true) else rest
  }

  /** `should_skip_due_to_frozen_debt`, with `now` standing for `datetime.today()`. */
  function ShouldSkip(debts: seq<FrozenDebt>, now: Instant): (r: Result<bool, SkipError>)
    requires ValidInstant(now)
    ensures now.day <= 3 ==> r == Err(DateOutOfRange)
    ensures now.day > 3 && debts == [] ==> r == Ok(false)
  {
    match ThreeDaysAgo(now)
    case Err(e) => Err(e)
    case Ok(cutoff) => Scan(debts, cutoff)
  }

  /** No unreadable debt among the first `i`. */
  predicate ReadableBefore(debts: seq<FrozenDebt>, i: int)
  {
    forall j :: 0 <= j < i && j < |debts| ==> !Unreadable(debts[j])
  }

  lemma HeadSplit<T>(a: seq<T>, c: seq<T>)
    requires a != []
    ensures a + c == [a[0]] + (a[1..] + c)
  {
    assert a == [a[0]] + a[1..];
  }

  /** A debt that neither postpones nor raises can be stepped over. */
  lemma ScanStepOver(debts: seq<FrozenDebt>, cutoff: Instant)
    requires debts != []
    requires !Unreadable(debts[0]) && !Postpones(debts[0], cutoff)
    ensures Scan(debts, cutoff) == Scan(debts[1..], cutoff)
  {
  }

  /** `Scan` says `True` exactly when some debt postpones and no unreadable
      debt comes before it. */
  lemma {:induction false} ScanTrue(debts: seq<FrozenDebt>, cutoff: Instant)
    ensures Scan(debts, cutoff) == Ok(true) <==>
      exists i :: 0 <= i < |debts| && Postpones(debts[i], cutoff) && ReadableBefore(debts, i)
    decreases |debts|
  {
    if debts != [] {
      var x := debts[0];
      var rest := debts[1..];
      if Postpones(x, cutoff) {
        assert ReadableBefore(debts, 0);
      } else if Unreadable(x) {
        forall i | 0 <= i < |debts| && Postpones(debts[i], cutoff)
          ensures !ReadableBefore(debts, i)
        {
          assert i != 0;
        }
      } else {
        ScanStepOver(debts, cutoff);
        ScanTrue(rest, cutoff);
        forall i | 1 <= i <= |debts|
          ensures ReadableBefore(debts, i) <==> ReadableBefore(rest, i - 1)
        {
          ReadableBeforeTail(debts, i);
        }
        if Scan(debts, cutoff) == Ok(true) {
          var k :| 0 <= k < |rest| && Postpones(rest[k], cutoff) && ReadableBefore(rest, k);
          assert debts[k + 1] == rest[k];
        } else {
          forall i | 0 <= i < |debts| && Postpones(debts[i], cutoff)
            ensures !ReadableBefore(debts, i)
          {
            assert debts[i] == rest[i - 1];
          }
        }
      }
    }
  }

  /** Past a readable first debt, "readable before `i`" is "readable before
      `i - 1`" of the rest. */
  lemma ReadableBeforeTail(debts: seq<FrozenDebt>, i: int)
    requires debts != [] && !Unreadable(debts[0]) && 1 <= i
    ensures ReadableBefore(debts, i) <==> ReadableBefore(debts[1..], i - 1)
  {
    var rest := debts[1..];
    if ReadableBefore(rest, i - 1) {
      forall j | 0 <= j < i && j < |debts| ensures !Unreadable(debts[j]) {
        if j > 0 {
          assert debts[j] == rest[j - 1];
        }
      }
    }
    if ReadableBefore(debts, i) {
      forall j | 0 <= j < i - 1 && j < |rest| ensures !Unreadable(rest[j]) {
        assert rest[j] == debts[j + 1];
      }
    }
  }

  /** `Scan` says `False` exactly when no debt postpones and none raises. */
  lemma {:induction false} ScanFalse(debts: seq<FrozenDebt>, cutoff: Instant)
    ensures Scan(debts, cutoff) == Ok(false) <==>
      forall i :: 0 <= i < |debts| ==> !Postpones(debts[i], cutoff) && !Unreadable(debts[i])
    decreases |debts|
  {
    if debts != [] {
      var x := debts[0];
      var rest := debts[1..];
      if Postpones(x, cutoff) || Unreadable(x) {
        assert Scan(debts, cutoff) != Ok(false);
      } else {
        ScanStepOver(debts, cutoff);
        ScanFalse(rest, cutoff);
        assert forall i :: 0 < i < |debts| ==> debts[i] == rest[i - 1];
        assert forall i :: 0 <= i < |rest| ==> rest[i] == debts[i + 1];
      }
    }
  }

  /** With today's cut-off, postponing is being recent. */
  lemma PostponesIsRecent(x: FrozenDebt, now: Instant)
    requires ValidInstant(now) && now.day > 3
    ensures Postpones(x, ThreeDaysAgo(now).value) <==> Recent(x, now.day)
  {
    match MatchIndfrielse(x.status)
    case None =>
    case Some(t) =>
      match ParseDate(t)
      case Err(_) =>
      case Ok(d) => CutoffBeforeMidnight(now, d);
  }

  /** The rule says skip exactly when some debt was redeemed later than today
      minus three days and no unreadable date comes before it in the list. */
  lemma ShouldSkipTrue(debts: seq<FrozenDebt>, now: Instant)
    requires ValidInstant(now)
    ensures ShouldSkip(debts, now) == Ok(true) <==>
      now.day > 3 && exists i :: 0 <= i < |debts| && Recent(debts[i], now.day) && ReadableBefore(debts, i)
  {
    if now.day > 3 {
      var cutoff := ThreeDaysAgo(now).value;
      ScanTrue(debts, cutoff);
      forall i | 0 <= i < |debts| ensures Postpones(debts[i], cutoff) <==> Recent(debts[i], now.day) {
        PostponesIsRecent(debts[i], now);
      }
    }
  }

  /** The rule says go ahead exactly when no debt is recent and none has an
      unreadable date. */
  lemma ShouldSkipFalse(debts: seq<FrozenDebt>, now: Instant)
    requires ValidInstant(now)
    ensures ShouldSkip(debts, now) == Ok(false) <==>
      now.day > 3 && forall i :: 0 <= i < |debts| ==> !Recent(debts[i], now.day) && !Unreadable(debts[i])
  {
    if now.day > 3 {
      var cutoff := ThreeDaysAgo(now).value;
      ScanFalse(debts, cutoff);
      forall i | 0 <= i < |debts| ensures Postpones(debts[i], cutoff) <==> Recent(debts[i], now.day) {
        PostponesIsRecent(debts[i], now);
      }
    }
  }

  /** Without unreadable dates the rule is the plain "any debt is recent". */
  lemma ShouldSkipReadable(debts: seq<FrozenDebt>, now: Instant)
    requires ValidInstant(now) && now.day > 3
    requires forall i :: 0 <= i < |debts| ==> !Unreadable(debts[i])
    ensures ShouldSkip(debts, now) == Ok(exists i :: 0 <= i < |debts| && Recent(debts[i], now.day))
  {
    ShouldSkipTrue(debts, now);
    ShouldSkipFalse(debts, now);
  }

  /** A debt that is neither recent nor unreadable, in particular one whose
      status does not match the pattern, never changes the outcome. */
  lemma {:induction false} ScanIgnoresInert(a: seq<FrozenDebt>, x: FrozenDebt, b: seq<FrozenDebt>, cutoff: Instant)
    requires !Postpones(x, cutoff) && !Unreadable(x)
    ensures Scan(a + [x] + b, cutoff) == Scan(a + b, cutoff)
    decreases |a|
  {
    if a == [] {
      assert a + [x] + b == [x] + b;
      assert a + b == b;
      ScanSkipsInert(x, b, cutoff);
    } else {
      ScanIgnoresInert(a[1..], x, b, cutoff);
      HeadSplit(a, [x] + b);
      HeadSplit(a, b);
      assert a + [x] + b == a + ([x] + b);
      assert a[1..] + [x] + b == a[1..] + ([x] + b);
      ScanSameHead(a[0], a[1..] + [x] + b, a[1..] + b, cutoff);
    }
  }

  /** A debt that neither postpones nor is unreadable adds nothing in front. */
  lemma ScanSkipsInert(x: FrozenDebt, b: seq<FrozenDebt>, cutoff: Instant)
    requires !Postpones(x, cutoff) && !Unreadable(x)
    ensures Scan([x] + b, cutoff) == Scan(b, cutoff)
  {
    assert ([x] + b)[1..] == b;
  }

  /** The scan of a debt in front of two lists that scan alike scans alike. */
  lemma ScanSameHead(y: FrozenDebt, s: seq<FrozenDebt>, t: seq<FrozenDebt>, cutoff: Instant)
    requires Scan(s, cutoff) == Scan(t, cutoff)
    ensures Scan([y] + s, cutoff) == Scan([y] + t, cutoff)
  {
    assert ([y] + s)[1..] == s;
    assert ([y] + t)[1..] == t;
  }

  lemma ShouldSkipIgnoresInert(a: seq<FrozenDebt>, x: FrozenDebt, b: seq<FrozenDebt>, now: Instant)
    requires ValidInstant(now)
    requires !Recent(x, now.day) && !Unreadable(x)
    ensures ShouldSkip(a + [x] + b, now) == ShouldSkip(a + b, now)
  {
    if now.day > 3 {
      PostponesIsRecent(x, now);
      ScanIgnoresInert(a, x, b, ThreeDaysAgo(now).value);
    }
  }

  /** Statuses without the pattern, such as "Accepteret med indefrysning",
      never change the outcome. */
  lemma ShouldSkipIgnoresOtherStatuses(a: seq<FrozenDebt>, x: FrozenDebt, b: seq<FrozenDebt>, now: Instant)
    requires ValidInstant(now)
    requires MatchIndfrielse(x.status).None?
    ensures ShouldSkip(a + [x] + b, now) == ShouldSkip(a + b, now)
  {
    ShouldSkipIgnoresInert(a, x, b, now);
  }

  /** Two orderings of the same debts that both give an answer give the same
      answer. */
  lemma ShouldSkipOrderFree(p: seq<FrozenDebt>, q: seq<FrozenDebt>, now: Instant)
    requires ValidInstant(now)
    requires multiset(p) == multiset(q)
    requires ShouldSkip(p, now).Ok? && ShouldSkip(q, now).Ok?
    ensures ShouldSkip(p, now) == ShouldSkip(q, now)
  {
    var a, b := ShouldSkip(p, now).value, ShouldSkip(q, now).value;
    if a {
      SkipSurvivesSuperset(p, q, now);
    } else if b {
      SkipSurvivesSuperset(q, p, now);
    }
  }

  /** Without unreadable dates, the order of the debts does not matter. */
  lemma ShouldSkipOrderFreeReadable(p: seq<FrozenDebt>, q: seq<FrozenDebt>, now: Instant)
    requires ValidInstant(now) && now.day > 3
    requires multiset(p) == multiset(q)
    requires forall i :: 0 <= i < |p| ==> !Unreadable(p[i])
    ensures ShouldSkip(p, now) == ShouldSkip(q, now)
  {
    forall i | 0 <= i < |q| ensures !Unreadable(q[i]) {
      assert q[i] in multiset(p);
    }
    ShouldSkipReadable(p, now);
    ShouldSkipReadable(q, now);
    ShouldSkipOrderFree(p, q, now);
  }

  /** More debts can only turn "go ahead" into "skip": a skip stays a skip
      for any list holding at least the same debts, whenever that list gives
      an answer. */
  lemma SkipSurvivesSuperset(p: seq<FrozenDebt>, q: seq<FrozenDebt>, now: Instant)
    requires ValidInstant(now)
    requires multiset(p) <= multiset(q)
    requires ShouldSkip(p, now) == Ok(true) && ShouldSkip(q, now).Ok?
    ensures ShouldSkip(q, now) == Ok(true)
  {
    ShouldSkipTrue(p, now);
    var i :| 0 <= i < |p| && Recent(p[i], now.day) && ReadableBefore(p, i);
    assert p[i] in multiset(q);
    var k :| 0 <= k < |q| && q[k] == p[i];
    RecentPreventsFalse(q, k, now);
    var r := ShouldSkip(q, now);
    assert r == Ok(r.value) && r.value != false;
  }

  /** One recent debt anywhere rules out "go ahead". */
  lemma RecentPreventsFalse(debts: seq<FrozenDebt>, k: int, now: Instant)
    requires ValidInstant(now) && 0 <= k < |debts| && Recent(debts[k], now.day)
    ensures ShouldSkip(debts, now) != Ok(false)
  {
    ShouldSkipFalse(debts, now);
  }

  /** Appending debts keeps a skip a skip, whatever is appended. */
  lemma SkipSurvivesAppend(p: seq<FrozenDebt>, q: seq<FrozenDebt>, now: Instant)
    requires ValidInstant(now)
    requires ShouldSkip(p, now) == Ok(true)
    ensures ShouldSkip(p + q, now) == Ok(true)
  {
    ShouldSkipTrue(p, now);
    ShouldSkipTrue(p + q, now);
    var i :| 0 <= i < |p| && Recent(p[i], now.day) && ReadableBefore(p, i);
    assert (p + q)[i] == p[i];
    assert ReadableBefore(p + q, i) by {
      forall j | 0 <= j < i && j < |p + q| ensures !Unreadable((p + q)[j]) {
        assert (p + q)[j] == p[j];
      }
    }
  }

  /** Only the day of `now` matters, not the time of day. */
  lemma ShouldSkipIgnoresTimeOfDay(debts: seq<FrozenDebt>, now: Instant, later: Instant)
    requires ValidInstant(now) && ValidInstant(later) && now.day == later.day
    ensures ShouldSkip(debts, now) == ShouldSkip(debts, later)
  {
    if now.day > 3 {
      ScanSameDay(debts, ThreeDaysAgo(now).value, ThreeDaysAgo(later).value);
    }
  }

  lemma {:induction false} ScanSameDay(debts: seq<FrozenDebt>, c1: Instant, c2: Instant)
    requires ValidInstant(c1) && ValidInstant(c2) && c1.day == c2.day
    ensures Scan(debts, c1) == Scan(debts, c2)
    decreases |debts|
  {
    if debts != [] {
      ScanSameDay(debts[1..], c1, c2);
    }
  }

  // ---------------------------------------------------------------------
  // examples

  /** The status the client gives accepted freezes never matches. */
  lemma AcceptedStatusDoesNotMatch()
    ensures MatchIndfrielse("Accepteret med indefrysning") == None
  {
    assert "Accepteret med indefrysning"[..13] != Lead by {
      assert "Accepteret med indefrysning"[0..13][1] == 'c';
    }
  }

  /** A matched date with no such day makes the rule raise. */
  lemma NonexistentDateRaises(now: Instant)
    requires ValidInstant(now) && now.day > 3
    ensures ShouldSkip([FrozenDebt("", "", "", "", "Indfrielse pr. 31.02.2024")], now)
         == Err(InvalidDate("31.02.2024"))
  {
    var s := "Indfrielse pr. 31.02.2024";
    MatchRendered('.', "31.02.2024", "");
    assert s == Lead + ['.'] + " " + "31.02.2024" + "";
    var t := "31.02.2024";
    assert t[..2] == "31" by {
      assert t[..2][0] == '3' && t[..2][1] == '1';
    }
    assert t[3..5] == "02" by {
      assert t[3..5][0] == '0' && t[3..5][1] == '2';
    }
    assert DigitsValue("31") == 31 by {
      assert "31"[..1] == "3";
    }
    assert DigitsValue("02") == 2 by {
      assert "02"[..1] == "0";
    }
    assert !Calendar.Valid(Calendar.Date(DigitsValue(t[6..]), 2, 31));
  }
}
