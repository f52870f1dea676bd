/** The vocabulary of the Bulgarian event-text parser and the rules that turn
    the tokens the tagger labelled as the day (`B-WHEN_DAY`, `I-WHEN_DAY`)
    into a calendar date: a relative word, a weekday name, or a day number
    such as "20ти". The date `today` is the date part of the current time. */
module NlpRules {
  import opened Common
  import opened Calendar

  // ---------------------------------------------------------------------------
  // Vocabulary

  /** Weekday names, with 0 for Monday, as `date.weekday()` numbers them. */
  const Weekdays: map<string, int> := map[
    "понеделник" := 0, "вторник" := 1, "сряда" := 2, "четвъртък" := 3,
    "петък" := 4, "събота" := 5, "неделя" := 6,
    "събота." := 5, "неделя." := 6,
    "Понеделник" := 0, "Вторник" := 1, "Сряда" := 2, "Четвъртък" := 3,
    "Петък" := 4, "Събота" := 5, "Неделя" := 6]

  /** Days from today: today, tomorrow, the day after tomorrow. */
  const Relative: map<string, nat> := map["днес" := 0, "утре" := 1, "вдругиден" := 2]

  /** Times of day a word implies when no clock time is given. */
  const DaytimeHints: map<string, TimeOfDay> := map[
    "сутринта" := TimeOfDay(9, 0), "обед" := TimeOfDay(12, 0), "наобед" := TimeOfDay(12, 0),
    "следобед" := TimeOfDay(15, 0), "вечерта" := TimeOfDay(19, 0), "вечер" := TimeOfDay(19, 0)]

  lemma VocabularyRanges()
    ensures forall w :: w in Weekdays ==> 0 <= Weekdays[w] < 7
    ensures forall w :: w in Relative ==> Relative[w] <= 2
    ensures forall w :: w in DaytimeHints ==> DaytimeHints[w].Valid()
  {
  }

  // ---------------------------------------------------------------------------
  // Weekday lookup

  /** `WEEKDAYS.get(t)`, then `WEEKDAYS.get(t.lower())` when the exact form
      is not a key. */
  function WeekdayOf(t: string): (r: Option<int>)
    ensures r.Some? ==> 0 <= r.value < 7
    ensures r.Some? <==> t in Weekdays || Lower(t) in Weekdays
    ensures t in Weekdays ==> r == Some(Weekdays[t])
  {
    VocabularyRanges();
    if t in Weekdays then Some(Weekdays[t])
    else if Lower(t) in Weekdays then Some(Weekdays[Lower(t)])
    else None
  }

  /** The second copy of the rule writes `WEEKDAYS.get(t) or
      WEEKDAYS.get(t.lower())`, where the value 0 (Monday) counts as missing
      and falls through to the lower-case lookup. */
  function WeekdayOfOr(t: string): Option<int>
  {
    if t in Weekdays && Weekdays[t] != 0 then Some(Weekdays[t])
    else if Lower(t) in Weekdays then Some(Weekdays[Lower(t)])
    else None
  }

  /** Both spellings of the weekday lookup agree on every token: the only
      keys worth 0 are the two forms of "понеделник", and the lower-case form
      of either is worth 0 too. */
  lemma WeekdayLookupsAgree(t: string)
    ensures WeekdayOfOr(t) == WeekdayOf(t)
  {
    if t in Weekdays && Weekdays[t] == 0 {
      assert t == "понеделник" || t == "Понеделник";
      assert Lower("понеделник") == "понеделник";
      assert Lower("Понеделник") == "понеделник";
    }
  }

  /** The first date after `from` that falls on weekday `target`. */
  function NextWeekday(from: Date, target: int): (r: Date)
    requires from.Valid() && 0 <= target < 7
    ensures r.Valid() && Weekday(r) == target
    ensures 1 <= Ordinal(r) - Ordinal(from) <= 7
    ensures DateBefore(from, r)
    ensures forall k: nat :: 1 <= k < Ordinal(r) - Ordinal(from) ==> Weekday(AddDays(from, k)) != target
  {
    var days := DaysAhead(Weekday(from), target);
    NextWeekdayFacts(from, target, days);
    AddDays(from, days)
  }

  /** `(target - w) % 7`, with 0 replaced by 7. */
  function DaysAhead(w: int, target: int): (days: nat)
    requires 0 <= w < 7 && 0 <= target < 7
    ensures 1 <= days <= 7 && (w + days) % 7 == target
  {
    var ahead := target - w;
    var days := if ahead <= 0 then ahead + 7 else ahead;
    assert w + days == target || w + days == target + 7;
    days
  }

  lemma NextWeekdayFacts(from: Date, target: int, days: nat)
    requires from.Valid() && 0 <= target < 7 && 1 <= days <= 7
    requires (Weekday(from) + days) % 7 == target
    ensures Weekday(AddDays(from, days)) == target
    ensures Ordinal(AddDays(from, days)) - Ordinal(from) == days
    ensures forall k: nat :: 1 <= k < days ==> Weekday(AddDays(from, k)) != target
  {
    AddDaysWeekday(from, days);
    AddDaysOrdinal(from, days);
    NoEarlierWeekday(from, days, target);
  }

  lemma NoEarlierWeekday(from: Date, days: nat, target: int)
    requires from.Valid() && 0 <= target < 7 && 1 <= days <= 7
    requires (Weekday(from) + days) % 7 == target
    ensures forall k: nat :: 1 <= k < days ==> Weekday(AddDays(from, k)) != target
  {
    forall k: nat | 1 <= k < days ensures Weekday(AddDays(from, k)) != target {
      NotTargetBefore(from, days, target, k);
    }
  }

  lemma NotTargetBefore(from: Date, days: nat, target: int, k: nat)
    requires from.Valid() && 1 <= k < days <= 7
    requires (Weekday(from) + days) % 7 == target
    ensures Weekday(AddDays(from, k)) != target
  {
    AddDaysWeekday(from, k);
    ShiftsDiffer(from, AddDays(from, k), days, target, k);
  }

  /** A date fewer than `days` days later, for `days` at most 7, has
      another weekday. */
  lemma ShiftsDiffer(from: Date, later: Date, days: nat, target: int, k: nat)
    requires from.Valid() && later.Valid() && 1 <= k < days <= 7
    requires (Weekday(from) + days) % 7 == target
    requires Weekday(later) == (Weekday(from) + k) % 7
    ensures Weekday(later) != target
  {
    var w := Weekday(from);
    ModDistinct(w + k, w + days);
  }

  lemma ModDistinct(a: int, b: int)
    requires 0 <= a < b < a + 7
    ensures a % 7 != b % 7
  {
    var qa, qb := a / 7, b / 7;
    assert a == 7 * qa + a % 7;
    assert b == 7 * qb + b % 7;
  }

  // ---------------------------------------------------------------------------
  // Day numbers: the pattern `^(\d{1,2})(?:-?(ви|ри|ти|ми))?\.?$`

  const OrdinalSuffixes: set<string> := {"ви", "ри", "ти", "ми"}

  /** What may follow the digits: an optional ordinal suffix, itself
      optionally after a dash, then an optional full stop. */
  predicate DaySuffix(r: string) {
    var c := if r != [] && r[|r| - 1] == '.' then r[..|r| - 1] else r;
    c == [] || c in OrdinalSuffixes || (c[0] == '-' && c[1..] in OrdinalSuffixes)
  }

  /** The day a token names, when the whole token matches the pattern. The
      digit group takes the whole leading run of digits: with three or more
      digits the token does not match. */
  function DayNumber(t: string): (r: Option<nat>)
    ensures r.Some? ==> r.value <= 99
  {
    var n := DigitRunLen(t);
    if 1 <= n <= 2 && DaySuffix(t[n..]) then
      DigitsValueBound(t[..n]);
      assert Pow10(2) == 100;
      Some(DigitsValue(t[..n]))
    else None
  }

  /** What may follow the digits never starts with a digit. */
  lemma DaySuffixNoDigit(r: string)
    requires DaySuffix(r)
    ensures r == [] || !IsDigit(r[0])
  {
    var c := if r != [] && r[|r| - 1] == '.' then r[..|r| - 1] else r;
    if c != [] {
      assert c[0] == r[0];
      if c in OrdinalSuffixes {
        assert c == "ви" || c == "ри" || c == "ти" || c == "ми";
      }
    }
  }

  /** One or two digits followed by anything the pattern allows after them
      form a day number, whose value is that of the digits. */
  lemma DayNumberOfParts(ds: string, r: string)
    requires 1 <= |ds| <= 2 && AllDigits(ds) && DaySuffix(r)
    ensures DayNumber(ds + r) == Some(DigitsValue(ds))
  {
    DaySuffixNoDigit(r);
    DigitRunAppend(ds, r);
    assert (ds + r)[..|ds|] == ds && (ds + r)[|ds|..] == r;
  }

  /** Every day number is one or two digits followed by what the pattern
      allows after them, and its value is that of the digits. */
  lemma DayNumberParts(t: string) returns (ds: string, r: string)
    requires DayNumber(t).Some?
    ensures t == ds + r && 1 <= |ds| <= 2 && AllDigits(ds) && DaySuffix(r)
    ensures DayNumber(t) == Some(DigitsValue(ds))
  {
    var n := DigitRunLen(t);
    ds, r := t[..n], t[n..];
    assert t == t[..n] + t[n..];
  }

  /** Outcome of resolving the day tokens: none found, a date, or the
      `ValueError` that `date(...)` raises and nothing catches. */
  datatype DayResult = NoDay | Day(date: Date) | DayError

  /** The `for i in range(1, 3)` retry: the first of the next two months
      that has day `d`, counted from today's month; `fallback` when neither
      has it. */
  function RetryMonths(y: int, m: int, d: int, fallback: Date, i: int): Date
    requires 1 <= i <= 3
    decreases 3 - i
  {
    if i == 3 then fallback
    else
      match MakeDate(y + (m + i - 1) / 12, (m + i - 1) % 12 + 1, d)
      case Some(c) => c
      case None => RetryMonths(y, m, d, fallback, i + 1)
  }

  /** The date a day number stands for: this month if it has that day, else
      the next month; a date already past moves on to a later month. */
  function ResolveDayNumber(today: Date, d: int): DayResult
    requires today.Valid()
  {
    var y, m := today.year, today.month;
    var first := match MakeDate(y, m, d)
                 case Some(c) => Some(c)
                 case None => if m == 12 then MakeDate(y + 1, 1, d) else MakeDate(y, m + 1, d);
    match first
    case None => DayError
    case Some(c) =>
      if DateBefore(c, today) then
        if c.month == 12 then
          match MakeDate(c.year + 1, 1, c.day)
          case Some(c2) => Day(c2)
          case None => DayError
        else Day(RetryMonths(y, m, d, c, 1))
      else Day(c)
  }

  // The three searches over the day tokens, each taking the first hit.

  function RelativeOf(t: string): Option<nat> {
    if Lower(t) in Relative then Some(Relative[Lower(t)]) else None
  }

  /** The date the day tokens name, as the three searches in order decide. */
  function DayFromTokens(toks: seq<string>, today: Date): DayResult
    requires today.Valid()
  {
    if toks == [] then NoDay
    else
      match FirstHit(toks, RelativeOf)
      case Some(k) => Day(AddDays(today, k))
      case None =>
        match FirstHit(toks, WeekdayOf)
        case Some(w) =>
          FirstHitSpec(toks, WeekdayOf);
          Day(NextWeekday(today, w))
        case None =>
          match FirstHit(toks, DayNumber)
          case Some(d) => ResolveDayNumber(today, d)
          case None => NoDay
  }

  /** Whatever the tokens, a date found is a real calendar date. */
  lemma DayFromTokensValid(toks: seq<string>, today: Date)
    requires today.Valid() && today.year <= MaxYear
    ensures DayFromTokens(toks, today).Day? ==> DayFromTokens(toks, today).date.Valid()
  {
    if toks != [] && FirstHit(toks, RelativeOf).None? && FirstHit(toks, WeekdayOf).None? {
      match FirstHit(toks, DayNumber)
      case Some(d) => DayNumberNotPast(today, d);
      case None =>
    }
  }

  /** `_parse_day_from_tokens`: three loops over the tokens, each returning
      on its first hit, and the month retry loop. */
  method ParseDayFromTokens(toks: seq<string>, now: DateTime) returns (r: DayResult)
    requires now.Valid()
    ensures r == DayFromTokens(toks, now.date)
  {
    if |toks| == 0 {
      return NoDay;
    }
    var today := now.date;
    var i := 0;
    while i < |toks|
      invariant 0 <= i <= |toks|
      invariant FirstHit(toks, RelativeOf) == FirstHit(toks[i..], RelativeOf)
    {
      var t := Lower(toks[i]);
      if t in Relative {
        return Day(AddDays(today, Relative[t]));
      }
      FirstHitStep(toks, i, RelativeOf);
      i := i + 1;
    }
    i := 0;
    while i < |toks|
      invariant 0 <= i <= |toks|
      invariant FirstHit(toks, WeekdayOf) == FirstHit(toks[i..], WeekdayOf)
    {
      var w := WeekdayOf(toks[i]);
      if w.Some? {
        return Day(NextWeekday(today, w.value));
      }
      FirstHitStep(toks, i, WeekdayOf);
      i := i + 1;
    }
    i := 0;
    while i < |toks|
      invariant 0 <= i <= |toks|
      invariant FirstHit(toks, DayNumber) == FirstHit(toks[i..], DayNumber)
    {
      var n := DayNumber(toks[i]);
      if n.Some? {
        r := ResolveDayNumberLoop(today, n.value);
        return;
      }
      FirstHitStep(toks, i, DayNumber);
      i := i + 1;
    }
    return NoDay;
  }

  /** The candidate computation for one day number, with its retry loop. */
  method ResolveDayNumberLoop(today: Date, d: nat) returns (r: DayResult)
    requires today.Valid()
    ensures r == ResolveDayNumber(today, d)
  {
    var y, m := today.year, today.month;
    var candidate: Date;
    var first := MakeDate(y, m, d);
    if first.Some? {
      candidate := first.value;
    } else {
      var alt := if m == 12 then MakeDate(y + 1, 1, d) else MakeDate(y, m + 1, d);
      if alt.None? {
        return DayError;
      }
      candidate := alt.value;
    }
    if DateBefore(candidate, today) {
      if candidate.month == 12 {
        var next := MakeDate(candidate.year + 1, 1, candidate.day);
        if next.None? {
          return DayError;
        }
        candidate := next.value;
      } else {
        candidate := RetryLoop(y, m, d, candidate);
      }
    }
    return Day(candidate);
  }

  /** `for i in range(1, 3)`: try the next two months, stopping at the
      first that has the day. */
  method RetryLoop(y: int, m: int, d: int, past: Date) returns (candidate: Date)
    ensures candidate == RetryMonths(y, m, d, past, 1)
  {
    var i := 1;
    while i < 3
      invariant 1 <= i <= 3
      invariant RetryMonths(y, m, d, past, 1) == RetryMonths(y, m, d, past, i)
      decreases 3 - i
    {
      var c := MakeDate(y + (m + i - 1) / 12, (m + i - 1) % 12 + 1, d);
      if c.Some? {
        return c.value;
      }
      i := i + 1;
    }
    return past;
  }

  // ---------------------------------------------------------------------------
  // What the day resolution promises

  /** A relative word anywhere among the day tokens decides the date, before
      any weekday or number: today plus 0, 1 or 2 days. */
  lemma RelativeWins(toks: seq<string>, today: Date, k: nat)
    requires today.Valid() && FirstHit(toks, RelativeOf) == Some(k)
    ensures k <= 2
    ensures DayFromTokens(toks, today) == Day(AddDays(today, k))
    ensures Ordinal(AddDays(today, k)) == Ordinal(today) + k
  {
    FirstHitSpec(toks, RelativeOf);
    VocabularyRanges();
    AddDaysOrdinal(today, k);
  }

  /** Without a relative word, the first weekday name decides: the first
      later date with that weekday, one to seven days ahead. */
  lemma WeekdayDecides(toks: seq<string>, today: Date, w: int)
    requires today.Valid()
    requires FirstHit(toks, RelativeOf).None? && FirstHit(toks, WeekdayOf) == Some(w)
    ensures DayFromTokens(toks, today).Day?
    ensures var d := DayFromTokens(toks, today).date;
            d.Valid() && Weekday(d) == w && 1 <= Ordinal(d) - Ordinal(today) <= 7
  {
    FirstHitSpec(toks, WeekdayOf);
    var k :| 0 <= k < |toks| && WeekdayOf(toks[k]) == Some(w) &&
             forall j :: 0 <= j < k ==> WeekdayOf(toks[j]).None?;
  }

  /** A day number that is still ahead in the current month is that day of
      the current month. */
  lemma DayNumberThisMonth(today: Date, d: int)
    requires today.Valid() && today.year <= MaxYear
    requires today.day <= d <= DaysInMonth(today.year, today.month)
    ensures ResolveDayNumber(today, d) == Day(Date(today.year, today.month, d))
  {
  }

  lemma RetryMonthsFinds(y: int, m: int, d: int, fallback: Date)
    requires 1 <= y <= MaxYear && 1 <= m <= 11 && 1 <= d <= 31
    requires d < DaysInMonth(y, m)
    ensures var c := RetryMonths(y, m, d, fallback, 1);
            c.Valid() && c.day == d &&
            (c.year, c.month) in {(y, m + 1), (y + (m + 1) / 12, (m + 1) % 12 + 1)}
  {
    if d > DaysInMonth(y, m + 1) {
      assert m == 1;
      assert RetryMonths(y, m, d, fallback, 1) == RetryMonths(y, m, d, fallback, 2);
    }
  }

  /** A day number never resolves to a date before today; the resolved date
      always has that day of the month. */
  lemma DayNumberNotPast(today: Date, d: int)
    requires today.Valid() && today.year <= MaxYear
    ensures ResolveDayNumber(today, d).Day? ==>
              var c := ResolveDayNumber(today, d).date;
              c.Valid() && c.day == d && !DateBefore(c, today)
  {
    var y, m := today.year, today.month;
    if 1 <= d <= 31 && MakeDate(y, m, d).Some? && DateBefore(Date(y, m, d), today) && m != 12 {
      RetryMonthsFinds(y, m, d, Date(y, m, d));
    }
  }

  /** The resolution fails, as `date(...)` raising `ValueError`, exactly when
      the number is not a possible day of any month, or when the day has
      passed in December of the last representable year. */
  lemma DayNumberError(today: Date, d: int)
    requires today.Valid() && today.year <= MaxYear
    ensures ResolveDayNumber(today, d) == DayError <==>
              d < 1 || d > 31 ||
              (today.year == MaxYear && today.month == 12 && d < today.day)
  {
    var y, m := today.year, today.month;
    if 1 <= d <= 31 {
      if MakeDate(y, m, d).None? && m != 12 {
        assert d > DaysInMonth(y, m);
        assert MakeDate(y, m + 1, d).Some?;
      }
      if MakeDate(y, m, d).Some? && DateBefore(Date(y, m, d), today) && m != 12 {
        RetryMonthsFinds(y, m, d, Date(y, m, d));
      }
    }
  }

  /** The day tokens raise exactly when they hold no relative word and no
      weekday name, and the first day number among them is not a possible
      day of any month or has passed in December of the last representable
      year. */
  lemma DayFromTokensError(toks: seq<string>, today: Date)
    requires today.Valid() && today.year <= MaxYear
    ensures DayFromTokens(toks, today) == DayError <==>
              FirstHit(toks, RelativeOf).None? && FirstHit(toks, WeekdayOf).None? &&
              FirstHit(toks, DayNumber).Some? &&
              var d := FirstHit(toks, DayNumber).value;
              d < 1 || d > 31 || (today.year == MaxYear && today.month == 12 && d < today.day)
  {
    if toks != [] && FirstHit(toks, RelativeOf).None? && FirstHit(toks, WeekdayOf).None? &&
       FirstHit(toks, DayNumber).Some? {
      DayNumberError(today, FirstHit(toks, DayNumber).value);
    }
  }

  // ---------------------------------------------------------------------------
  // Daytime hints

  const BWhenDay := "B-WHEN_DAY"
  const IWhenDay := "I-WHEN_DAY"

  /** Token `k` is a day-labelled word that names a time of day. */
  predicate HintAt(tokens: seq<string>, labels: seq<string>, k: int)
    requires 0 <= k < |tokens| && k < |labels|
  {
    (labels[k] == BWhenDay || labels[k] == IWhenDay) && Lower(tokens[k]) in DaytimeHints
  }

  /** `_find_daytime_hint`: the time of the first day-labelled hint word,
      pairing tokens and labels as `zip` does. */
  function DaytimeHint(tokens: seq<string>, labels: seq<string>): Option<TimeOfDay>
    decreases |tokens|
  {
    if tokens == [] || labels == [] then None
    else if (labels[0] == BWhenDay || labels[0] == IWhenDay) && Lower(tokens[0]) in DaytimeHints then
      Some(DaytimeHints[Lower(tokens[0])])
    else DaytimeHint(tokens[1..], labels[1..])
  }

  /** The hint is the one of the first hint word, and there is none exactly
      when no paired token is a hint word. */
  lemma {:induction false} DaytimeHintSpec(tokens: seq<string>, labels: seq<string>)
    ensures DaytimeHint(tokens, labels).None? <==>
              forall k :: 0 <= k < |tokens| && k < |labels| ==> !HintAt(tokens, labels, k)
    ensures DaytimeHint(tokens, labels).Some? ==>
              exists k :: 0 <= k < |tokens| && k < |labels| && HintAt(tokens, labels, k) &&
                          DaytimeHint(tokens, labels) == Some(DaytimeHints[Lower(tokens[k])]) &&
                          forall j :: 0 <= j < k ==> !HintAt(tokens, labels, j)
    ensures DaytimeHint(tokens, labels).Some? ==> DaytimeHint(tokens, labels).value.Valid()
    decreases |tokens|
  {
    VocabularyRanges();
    if tokens != [] && labels != [] && !HintAt(tokens, labels, 0) {
      var t, l := tokens[1..], labels[1..];
      DaytimeHintSpec(t, l);
      assert forall k :: 0 <= k < |t| && k < |l| ==> (HintAt(t, l, k) <==> HintAt(tokens, labels, k + 1));
      if DaytimeHint(t, l).Some? {
        var k :| 0 <= k < |t| && k < |l| && HintAt(t, l, k) &&
                 DaytimeHint(t, l) == Some(DaytimeHints[Lower(t[k])]) &&
                 forall j :: 0 <= j < k ==> !HintAt(t, l, j);
        assert HintAt(tokens, labels, k + 1);
        assert forall j :: 0 <= j < k + 1 ==> !HintAt(tokens, labels, j) by {
          forall j | 0 <= j < k + 1 ensures !HintAt(tokens, labels, j) {
            if j > 0 { assert !HintAt(t, l, j - 1); }
          }
        }
      } else {
        forall k | 0 <= k < |tokens| && k < |labels| ensures !HintAt(tokens, labels, k) {
          if k > 0 { assert !HintAt(t, l, k - 1); }
        }
      }
    }
  }
}
