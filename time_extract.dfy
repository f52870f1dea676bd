/** Start and end times from the tokens the tagger labelled `B-WHEN_START`:
    the two regular-expression scans of `_parse_time_from_tokens`, written as
    explicit character tests with the regex engine's backtracking worked
    out, the ordering of what they find, and the final choice of times. */
module TimeExtract {
  import opened Common
  import opened Calendar

  // ---------------------------------------------------------------------------
  // Text preparation

  /** `" ".join(tokens).lower().strip()` followed by the replacements of
      "ч.", "часа", " часа" and " h" by "ч", in that order. */
  function Normalize(tokens: seq<string>): string {
    var raw := Strip(Lower(Join(tokens, " ")));
    Replace(Replace(Replace(Replace(raw, "ч.", "ч"), "часа", "ч"), " часа", "ч"), " h", "ч")
  }

  /** `\w` at index `i`; positions outside the text are not word characters. */
  predicate WordAt(s: string, i: int) { 0 <= i < |s| && IsWordChar(s[i]) }

  /** `\b` at position `i`: a word character on exactly one side. */
  predicate Boundary(s: string, i: int) { WordAt(s, i - 1) != WordAt(s, i) }

  /** Length of the run of digits starting at `i`. */
  function DigitsFrom(s: string, i: nat): (n: nat)
    requires i <= |s|
    ensures i + n <= |s|
    decreases |s| - i
  {
    if i == |s| || !IsDigit(s[i]) then 0 else 1 + DigitsFrom(s, i + 1)
  }

  /** The run is all digits, and no digit follows it. */
  lemma {:induction false} DigitsFromRun(s: string, i: nat)
    requires i <= |s|
    ensures forall k :: i <= k < i + DigitsFrom(s, i) ==> IsDigit(s[k])
    ensures i + DigitsFrom(s, i) < |s| ==> !IsDigit(s[i + DigitsFrom(s, i)])
    decreases |s| - i
  {
    if i < |s| && IsDigit(s[i]) {
      DigitsFromRun(s, i + 1);
    }
  }

  /** Length of the run of blanks starting at `i`. */
  function BlanksFrom(s: string, i: nat): (n: nat)
    requires i <= |s|
    ensures i + n <= |s|
    decreases |s| - i
  {
    if i == |s| || !IsSpace(s[i]) then 0 else 1 + BlanksFrom(s, i + 1)
  }

  /** One or two digits read at most 99. */
  lemma TwoDigitsBound(s: string, i: nat, l: nat)
    requires 1 <= l <= 2 && i + l <= |s| && l == DigitsFrom(s, i)
    ensures AllDigits(s[i..i + l]) && DigitsValue(s[i..i + l]) <= 99
  {
    DigitsFromRun(s, i);
    assert AllDigits(s[i..i + l]);
    DigitsValueBound(s[i..i + l]);
    assert Pow10(1) == 10 && Pow10(2) == 100;
  }

  // ---------------------------------------------------------------------------
  // `\b(\d{1,2})[:\.](\d{1,2})\b` tried at one position

  datatype ClockMatch = ClockMatch(hour: nat, minute: nat, end: nat)

  /** Both digit groups must be whole runs of one or two digits: a third
      digit leaves the separator or the closing `\b` unmatched on every
      backtracking choice. */
  function ClockMatchAt(s: string, i: nat): (r: Option<ClockMatch>)
    requires i <= |s|
    ensures r.Some? ==> i < r.value.end <= |s|
    ensures r.Some? ==> r.value.hour <= 99 && r.value.minute <= 99
  {
    var l1 := DigitsFrom(s, i);
    if !Boundary(s, i) || l1 < 1 || l1 > 2 || i + l1 >= |s| || !(s[i + l1] == ':' || s[i + l1] == '.') then None
    else
      var j := i + l1 + 1;
      var l2 := DigitsFrom(s, j);
      if l2 < 1 || l2 > 2 || !Boundary(s, j + l2) then None
      else
        TwoDigitsBound(s, i, l1);
        TwoDigitsBound(s, j, l2);
        Some(ClockMatch(DigitsValue(s[i..i + l1]), DigitsValue(s[j..j + l2]), j + l2))
  }


  /** A digit run of length `a` that no digit follows is what `DigitsFrom` reads. */
  lemma {:induction false} DigitsFromExact(s: string, i: nat, a: nat)
    requires i + a <= |s| && forall k :: i <= k < i + a ==> IsDigit(s[k])
    requires i + a < |s| ==> !IsDigit(s[i + a])
    ensures DigitsFrom(s, i) == a
    decreases a
  {
    if a > 0 {
      DigitsFromExact(s, i + 1, a - 1);
    }
  }

  /** The clock pattern matches at `i` taking `a` digits, the separator and
      `b` digits. */
  predicate ClockCandidate(s: string, i: nat, a: nat, b: nat) {
    1 <= a <= 2 && 1 <= b <= 2 && i + a + 1 + b <= |s| && Boundary(s, i) &&
    (forall k :: i <= k < i + a ==> IsDigit(s[k])) &&
    (s[i + a] == ':' || s[i + a] == '.') &&
    (forall k :: i + a + 1 <= k < i + a + 1 + b ==> IsDigit(s[k])) &&
    Boundary(s, i + a + 1 + b)
  }

  /** Every way the clock pattern can match at `i` gives the match found,
      with those digit groups as hour and minutes. */
  lemma ClockMatchOfCandidate(s: string, i: nat, a: nat, b: nat)
    requires i <= |s| && ClockCandidate(s, i, a, b)
    ensures ClockMatchAt(s, i) ==
              Some(ClockMatch(DigitsValue(s[i..i + a]), DigitsValue(s[i + a + 1..i + a + 1 + b]), i + a + 1 + b))
  {
    DigitsFromExact(s, i, a);
    var j := i + a + 1;
    assert WordAt(s, j + b - 1);
    DigitsFromExact(s, j, b);
  }

  /** A clock match found at `i` is one of the ways the pattern matches there. */
  lemma ClockMatchCandidate(s: string, i: nat) returns (a: nat, b: nat)
    requires i <= |s| && ClockMatchAt(s, i).Some?
    ensures ClockCandidate(s, i, a, b)
    ensures ClockMatchAt(s, i).value ==
              ClockMatch(DigitsValue(s[i..i + a]), DigitsValue(s[i + a + 1..i + a + 1 + b]), i + a + 1 + b)
  {
    a := DigitsFrom(s, i);
    DigitsFromRun(s, i);
    b := DigitsFrom(s, i + a + 1);
    DigitsFromRun(s, i + a + 1);
  }

  // ---------------------------------------------------------------------------
  // `\b(\d{1,2})\s*ч?\b` tried at one position

  datatype HourMatch = HourMatch(hour: nat, end: nat)

  /** The digits are a whole run of one or two. Then `\s*` takes every blank
      and `ч?` the letter "ч" when a boundary follows it; otherwise the
      engine gives back the "ч", then blanks one by one: after blanks the
      boundary holds before a word character, and with no blank left it
      holds between the last digit and a blank. Directly after the digits a
      word character other than a closing "ч" leaves no match. */
  function HourMatchAt(s: string, i: nat): (r: Option<HourMatch>)
    requires i <= |s|
    ensures r.Some? ==> i < r.value.end <= |s|
    ensures r.Some? ==> r.value.hour <= 99
  {
    var l := DigitsFrom(s, i);
    if !Boundary(s, i) || l < 1 || l > 2 then None
    else
      var q := i + l;
      var w := BlanksFrom(s, q);
      var e := q + w;
      TwoDigitsBound(s, i, l);
      var hour := DigitsValue(s[i..q]);
      if e < |s| && s[e] == 'ч' && !WordAt(s, e + 1) then Some(HourMatch(hour, e + 1))
      else if w > 0 then Some(HourMatch(hour, if WordAt(s, e) then e else q))
      else if !WordAt(s, q) then Some(HourMatch(hour, q))
      else None
  }


  /** The run of `w` blanks that no blank follows is what `BlanksFrom` reads. */
  lemma {:induction false} BlanksFromExact(s: string, i: nat, w: nat)
    requires i + w <= |s| && forall k :: i <= k < i + w ==> IsSpace(s[k])
    requires i + w < |s| ==> !IsSpace(s[i + w])
    ensures BlanksFrom(s, i) == w
    decreases w
  {
    if w > 0 {
      BlanksFromExact(s, i + 1, w - 1);
    }
  }

  /** The blank run is all blanks, and no blank follows it. */
  lemma {:induction false} BlanksFromRun(s: string, i: nat)
    requires i <= |s|
    ensures forall k :: i <= k < i + BlanksFrom(s, i) ==> IsSpace(s[k])
    ensures i + BlanksFrom(s, i) < |s| ==> !IsSpace(s[i + BlanksFrom(s, i)])
    decreases |s| - i
  {
    if i < |s| && IsSpace(s[i]) {
      BlanksFromRun(s, i + 1);
    }
  }

  /** The bare-hour pattern matches at `i` taking `l` digits, `w` blanks and
      `c` letters "ч" (none or one). */
  predicate HourCandidate(s: string, i: nat, l: nat, w: nat, c: nat) {
    1 <= l <= 2 && c <= 1 && i + l + w + c <= |s| && Boundary(s, i) &&
    (forall k :: i <= k < i + l ==> IsDigit(s[k])) &&
    (forall k :: i + l <= k < i + l + w ==> IsSpace(s[k])) &&
    (c == 1 ==> s[i + l + w] == 'ч') &&
    Boundary(s, i + l + w + c)
  }

  /** A shape every way of matching has: the digits are the whole run, and
      the blanks are the whole run unless neither blank nor "ч" is taken. */
  lemma HourCandidateShape(s: string, i: nat, l: nat, w: nat, c: nat)
    requires HourCandidate(s, i, l, w, c)
    ensures l == DigitsFrom(s, i)
    ensures w == BlanksFrom(s, i + l) || (w == 0 && c == 0)
  {
    var q := i + l;
    assert WordAt(s, q - 1);
    DigitsFromExact(s, i, l);
    BlanksFromRun(s, q);
    var bw := BlanksFrom(s, q);
    if w < bw {
      assert !WordAt(s, q + w);
    }
  }

  /** Whenever the bare-hour pattern can match at `i`, a match is found,
      with those digits as the hour and ending no earlier: the greedy
      choice is the longest way of matching. */
  lemma HourMatchOfCandidate(s: string, i: nat, l: nat, w: nat, c: nat)
    requires HourCandidate(s, i, l, w, c)
    ensures HourMatchAt(s, i).Some?
    ensures HourMatchAt(s, i).value.hour == DigitsValue(s[i..i + l])
    ensures i + l + w + c <= HourMatchAt(s, i).value.end
  {
    HourCandidateShape(s, i, l, w, c);
    var q := i + l;
    BlanksFromRun(s, q);
    var bw := BlanksFrom(s, q);
    var e := q + bw;
    assert WordAt(s, q - 1);
    if e < |s| && s[e] == 'ч' && !WordAt(s, e + 1) {
    } else if bw > 0 {
      if w == bw {
        assert WordAt(s, e - 1) == false;
      }
    }
  }

  /** A bare-hour match found at `i` is one of the ways the pattern matches
      there. */
  lemma HourMatchCandidate(s: string, i: nat) returns (l: nat, w: nat, c: nat)
    requires i <= |s| && HourMatchAt(s, i).Some?
    ensures HourCandidate(s, i, l, w, c)
    ensures HourMatchAt(s, i).value == HourMatch(DigitsValue(s[i..i + l]), i + l + w + c)
  {
    l := DigitsFrom(s, i);
    DigitsFromRun(s, i);
    var q := i + l;
    BlanksFromRun(s, q);
    var bw := BlanksFrom(s, q);
    var e := q + bw;
    assert WordAt(s, q - 1);
    if e < |s| && s[e] == 'ч' && !WordAt(s, e + 1) {
      w, c := bw, 1;
    } else if bw > 0 && WordAt(s, e) {
      w, c := bw, 0;
    } else {
      w, c := 0, 0;
    }
  }

  // ---------------------------------------------------------------------------
  // The two `finditer` scans

  /** A time found in the text, with where its match starts and ends. */
  datatype Found = Found(time: TimeOfDay, pos: nat, end: nat)

  /** Which bare-hour matches are dropped as already read. */
  datatype SkipRule =
    | AsWritten  // a time at `pos` hides a match starting in pos..pos + (length of the bare match)
    | Intended   // a time hides a match starting inside that time's own match

  /** Whether time `f` hides a bare-hour match of length `len` at `start`. */
  predicate Covers(f: Found, start: nat, len: nat, rule: SkipRule) {
    match rule
    case AsWritten => f.pos <= start <= f.pos + len
    case Intended => f.pos <= start < f.end
  }

  predicate Covered(times: seq<Found>, start: nat, len: nat, rule: SkipRule) {
    exists k :: 0 <= k < |times| && Covers(times[k], start, len, rule)
  }

  /** `finditer` of the clock pattern from position `i`: every match is
      consumed, only those with an hour up to 23 and minutes up to 59 are
      kept. */
  function ClockScan(s: string, i: nat): seq<Found>
    requires i <= |s|
    decreases |s| - i
  {
    if i == |s| then []
    else
      match ClockMatchAt(s, i)
      case Some(m) => ClockHit(m, i) + ClockScan(s, m.end)
      case None => ClockScan(s, i + 1)
  }

  /** `finditer` of the bare-hour pattern from position `i`, appending to
      `times` every match that is not covered and whose hour is up to 23. */
  function HourScan(s: string, i: nat, times: seq<Found>, rule: SkipRule): seq<Found>
    requires i <= |s|
    decreases |s| - i
  {
    if i == |s| then times
    else
      match HourMatchAt(s, i)
      case Some(m) =>
        var keep := !Covered(times, i, m.end - i, rule) && m.hour <= 23;
        HourScan(s, m.end, if keep then times + [Found(TimeOfDay(m.hour, 0), i, m.end)] else times, rule)
      case None => HourScan(s, i + 1, times, rule)
  }

  function Pos(f: Found): int { f.pos }

  function Times(fs: seq<Found>): (r: seq<TimeOfDay>)
    ensures |r| == |fs| && forall k :: 0 <= k < |fs| ==> r[k] == fs[k].time
  {
    seq(|fs|, k requires 0 <= k < |fs| => fs[k].time)
  }

  /** Everything both scans find, in order of position in the text. */
  function FoundTimes(raw: string, rule: SkipRule): seq<Found> {
    SortByKey(HourScan(raw, 0, ClockScan(raw, 0), rule), Pos)
  }

  /** The start and end times: two times with "до" somewhere in the text,
      or a single time, or nothing. */
  function TimeFromTokens(tokens: seq<string>, rule: SkipRule): (Option<TimeOfDay>, Option<TimeOfDay>)
  {
    if tokens == [] then (None, None) else TimesFromText(Normalize(tokens), rule)
  }

  /** The choice of times from the prepared text. */
  function TimesFromText(raw: string, rule: SkipRule): (Option<TimeOfDay>, Option<TimeOfDay>)
  {
    var times := Times(FoundTimes(raw, rule));
    if |times| == 2 && Contains(raw, "до") then (Some(times[0]), Some(times[1]))
    else if |times| == 1 then (Some(times[0]), None)
    else (None, None)
  }

  // ---------------------------------------------------------------------------
  // The loops

  /** `_parse_time_from_tokens`, with the skip window chosen by `rule`. */
  method ParseTimeFromTokens(tokens: seq<string>, rule: SkipRule) returns (start: Option<TimeOfDay>, end: Option<TimeOfDay>)
    ensures (start, end) == TimeFromTokens(tokens, rule)
  {
    if |tokens| == 0 {
      return None, None;
    }
    var raw := Normalize(tokens);
    var found := ScanClocks(raw);
    found := ScanHours(raw, found, rule);
    var times := Times(SortByKey(found, Pos));
    if |times| == 2 && Contains(raw, "до") {
      return Some(times[0]), Some(times[1]);
    } else if |times| == 1 {
      return Some(times[0]), None;
    }
    return None, None;
  }

  /** The first `finditer` loop. */
  method ScanClocks(raw: string) returns (found: seq<Found>)
    ensures found == ClockScan(raw, 0)
  {
    found := [];
    var i := 0;
    while i < |raw|
      invariant 0 <= i <= |raw|
      invariant ClockScan(raw, 0) == found + ClockScan(raw, i)
      decreases |raw| - i
    {
      var m := ClockMatchAt(raw, i);
      if m.Some? {
        found := found + ClockHit(m.value, i);
        i := m.value.end;
      } else {
        assert ClockScan(raw, i) == ClockScan(raw, i + 1) by { ClockScanSkip(raw, i); }
        i := i + 1;
      }
    }
  }

  /** What one clock match adds: its time when it is a real one. */
  function ClockHit(m: ClockMatch, i: nat): seq<Found> {
    if m.hour <= 23 && m.minute <= 59 then [Found(TimeOfDay(m.hour, m.minute), i, m.end)] else []
  }

  lemma ClockScanSkip(raw: string, i: nat)
    requires i < |raw| && ClockMatchAt(raw, i).None?
    ensures ClockScan(raw, i) == ClockScan(raw, i + 1)
  {
  }

  /** The second `finditer` loop, appending to the times already found. */
  method ScanHours(raw: string, found0: seq<Found>, rule: SkipRule) returns (found: seq<Found>)
    ensures found == HourScan(raw, 0, found0, rule)
  {
    found := found0;
    var i := 0;
    while i < |raw|
      invariant 0 <= i <= |raw|
      invariant HourScan(raw, 0, found0, rule) == HourScan(raw, i, found, rule)
      decreases |raw| - i
    {
      var m := HourMatchAt(raw, i);
      if m.Some? {
        var skip := IsCovered(found, i, m.value.end - i, rule);
        if !skip && m.value.hour <= 23 {
          found := found + [Found(TimeOfDay(m.value.hour, 0), i, m.value.end)];
        }
        i := m.value.end;
      } else {
        assert HourScan(raw, i, found, rule) == HourScan(raw, i + 1, found, rule);
        i := i + 1;
      }
    }
  }

  /** The inner `for _, pos in times` loop that stops at the first covering time. */
  method IsCovered(times: seq<Found>, start: nat, len: nat, rule: SkipRule) returns (skip: bool)
    ensures skip == Covered(times, start, len, rule)
  {
    skip := false;
    var k := 0;
    while k < |times| && !skip
      invariant 0 <= k <= |times|
      invariant skip ==> k < |times| && Covers(times[k], start, len, rule)
      invariant forall j :: 0 <= j < k ==> !Covers(times[j], start, len, rule)
      decreases |times| - k, !skip
    {
      skip := Covers(times[k], start, len, rule);
      if !skip {
        k := k + 1;
      }
    }
  }

  // ---------------------------------------------------------------------------
  // What the scans promise

  predicate AllValid(fs: seq<Found>) {
    forall k :: 0 <= k < |fs| ==> fs[k].time.Valid()
  }

  lemma {:induction false} ClockScanValid(s: string, i: nat)
    requires i <= |s|
    ensures AllValid(ClockScan(s, i))
    decreases |s| - i
  {
    if i < |s| {
      match ClockMatchAt(s, i)
      case Some(m) => ClockScanValid(s, m.end);
      case None => ClockScanValid(s, i + 1);
    }
  }

  lemma {:induction false} HourScanValid(s: string, i: nat, times: seq<Found>, rule: SkipRule)
    requires i <= |s| && AllValid(times)
    ensures AllValid(HourScan(s, i, times, rule))
    decreases |s| - i
  {
    if i < |s| {
      match HourMatchAt(s, i)
      case Some(m) =>
        var keep := !Covered(times, i, m.end - i, rule) && m.hour <= 23;
        var next := if keep then times + [Found(TimeOfDay(m.hour, 0), i, m.end)] else times;
        assert AllValid(next);
        HourScanValid(s, m.end, next, rule);
      case None => HourScanValid(s, i + 1, times, rule);
    }
  }

  /** Every time read from the text is a real time of day: hours 0 to 23
      and minutes 0 to 59, whatever the skip window. */
  lemma TimeFromTokensValid(tokens: seq<string>, rule: SkipRule)
    ensures TimeFromTokens(tokens, rule).0.Some? ==> TimeFromTokens(tokens, rule).0.value.Valid()
    ensures TimeFromTokens(tokens, rule).1.Some? ==> TimeFromTokens(tokens, rule).1.value.Valid()
  {
    if tokens != [] {
      var raw := Normalize(tokens);
      ClockScanValid(raw, 0);
      HourScanValid(raw, 0, ClockScan(raw, 0), rule);
      var all := HourScan(raw, 0, ClockScan(raw, 0), rule);
      SortByKeySpec(all, Pos);
      var sorted := FoundTimes(raw, rule);
      forall k | 0 <= k < |sorted| ensures sorted[k].time.Valid() {
        assert sorted[k] in multiset(all);
      }
    }
  }

  /** An end time is given exactly when the text contains "до" and exactly
      two times were read, together with the start, the earlier of the two
      in the text; exactly one time read is a start alone; any other count
      gives neither. */
  lemma TimeFromTokensEnd(tokens: seq<string>, rule: SkipRule)
    ensures TimeFromTokens(tokens, rule).1.Some? ==>
              tokens != [] && TimeFromTokens(tokens, rule).0.Some? &&
              Contains(Normalize(tokens), "до") &&
              var fs := FoundTimes(Normalize(tokens), rule);
              |fs| == 2 && fs[0].pos <= fs[1].pos &&
              TimeFromTokens(tokens, rule) == (Some(fs[0].time), Some(fs[1].time))
    ensures TimeFromTokens(tokens, rule).0.Some? && TimeFromTokens(tokens, rule).1.None? ==>
              |FoundTimes(Normalize(tokens), rule)| == 1
    ensures tokens != [] && |FoundTimes(Normalize(tokens), rule)| == 1 ==>
              TimeFromTokens(tokens, rule) == (Some(FoundTimes(Normalize(tokens), rule)[0].time), None)
    ensures var fs := FoundTimes(Normalize(tokens), rule);
            tokens != [] && |fs| == 2 && Contains(Normalize(tokens), "до") ==>
              TimeFromTokens(tokens, rule) == (Some(fs[0].time), Some(fs[1].time))
    ensures var fs := FoundTimes(Normalize(tokens), rule);
            tokens == [] || |fs| == 0 || |fs| > 2 || (|fs| == 2 && !Contains(Normalize(tokens), "до")) ==>
              TimeFromTokens(tokens, rule) == (None, None)
  {
    if tokens != [] {
      var raw := Normalize(tokens);
      var fs := FoundTimes(raw, rule);
      assert |fs| == 2 ==> fs[0].pos <= fs[1].pos by {
        SortByKeySpec(HourScan(raw, 0, ClockScan(raw, 0), rule), Pos);
        if |fs| == 2 {
          assert Pos(fs[0]) <= Pos(fs[1]);
        }
      }
      var times := Times(fs);
      assert TimeFromTokens(tokens, rule) ==
               if |times| == 2 && Contains(raw, "до") then (Some(times[0]), Some(times[1]))
               else if |times| == 1 then (Some(times[0]), None)
               else (None, None);
    }
  }

  // ---------------------------------------------------------------------------
  // A single clock token "HH:MM"

  /** None of the four replacements applies to a text without "ч" and
      without a blank. */
  lemma ReplacementsAbsent(s: string)
    requires 'ч' !in s && ' ' !in s
    ensures Replace(Replace(Replace(Replace(s, "ч.", "ч"), "часа", "ч"), " часа", "ч"), " h", "ч") == s
  {
    NotContainsFirstChar(s, "ч.");
    NotContainsFirstChar(s, "часа");
    NotContainsFirstChar(s, " часа");
    NotContainsFirstChar(s, " h");
  }

  /** A single lower-case token with no blank and no "ч" is prepared as itself. */
  lemma NormalizePlainToken(s: string)
    requires s != [] && Lower(s) == s && 'ч' !in s && ' ' !in s
    requires !IsSpace(s[0]) && !IsSpace(s[|s| - 1])
    ensures Normalize([s]) == s
  {
    assert Join([s], " ") == s;
    StripUnchanged(s);
    ReplacementsAbsent(s);
  }

  /** The text prepared from the single token "HH:MM" is that token. */
  lemma NormalizeClockToken(h: nat, m: nat)
    requires h <= 23 && m <= 59
    ensures |FormatHM(h, m)| == 5
    ensures Normalize([FormatHM(h, m)]) == FormatHM(h, m)
  {
    var s := FormatHM(h, m);
    ClockTokenShape(h, m);
    NormalizeClockShape(s);
  }

  /** The same for any text of two digits, ':' and two digits. */
  lemma NormalizeClockShape(s: string)
    requires |s| == 5 && IsDigit(s[0]) && IsDigit(s[1]) && s[2] == ':' && IsDigit(s[3]) && IsDigit(s[4])
    ensures Normalize([s]) == s
  {
    assert Lower(s) == s by {
      forall k | 0 <= k < |s| ensures LowerChar(s[k]) == s[k] {}
    }
    assert 'ч' !in s && ' ' !in s;
    NormalizePlainToken(s);
  }

  lemma ClockTokenShape(h: nat, m: nat)
    requires h <= 23 && m <= 59
    ensures var s := FormatHM(h, m);
            |s| == 5 && IsDigit(s[0]) && IsDigit(s[1]) && s[2] == ':' && IsDigit(s[3]) && IsDigit(s[4]) &&
            DigitsValue(s[0..2]) == h && DigitsValue(s[3..5]) == m
  {
    assert Pow10(2) == 100;
    PadRoundTrip(h, 2);
    PadRoundTrip(m, 2);
    var s := FormatHM(h, m);
    assert s[0..2] == Pad(h, 2);
    assert s[3..5] == Pad(m, 2);
  }

  /** The runs of digits and blanks in "HH:MM". */
  lemma ClockTokenRuns(h: nat, m: nat)
    requires h <= 23 && m <= 59
    ensures var s := FormatHM(h, m);
            |s| == 5 && DigitsFrom(s, 0) == 2 && DigitsFrom(s, 3) == 2 && DigitsFrom(s, 2) == 0 &&
            BlanksFrom(s, 2) == 0 && BlanksFrom(s, 5) == 0 &&
            DigitsValue(s[0..2]) == h && DigitsValue(s[3..5]) == m &&
            s[2] == ':' && IsDigit(s[0]) && IsDigit(s[1]) && IsDigit(s[3]) && IsDigit(s[4])
  {
    var s := FormatHM(h, m);
    ClockTokenShape(h, m);
    assert DigitsFrom(s, 2) == 0 && DigitsFrom(s, 1) == 1;
    assert DigitsFrom(s, 5) == 0 && DigitsFrom(s, 4) == 1;
  }

  /** The clock pattern matches the whole of "HH:MM" and nothing else. */
  lemma ClockTokenClockScan(h: nat, m: nat)
    requires h <= 23 && m <= 59
    ensures ClockScan(FormatHM(h, m), 0) == [Found(TimeOfDay(h, m), 0, 5)]
  {
    var s := FormatHM(h, m);
    ClockTokenRuns(h, m);
    assert ClockMatchAt(s, 0) == Some(ClockMatch(h, m, 5));
    assert ClockScan(s, 5) == [];
  }

  /** The bare-hour pattern matches the hour digits at 0 and the minute
      digits at 3; the first is hidden by the clock time. */
  lemma ClockTokenHourScan(h: nat, m: nat, rule: SkipRule)
    requires h <= 23 && m <= 59
    ensures var c := Found(TimeOfDay(h, m), 0, 5);
            HourScan(FormatHM(h, m), 0, [c], rule) ==
              (if Covered([c], 3, 2, rule) || m > 23 then [c] else [c, Found(TimeOfDay(m, 0), 3, 5)])
  {
    var s := FormatHM(h, m);
    ClockTokenRuns(h, m);
    var c := Found(TimeOfDay(h, m), 0, 5);
    assert HourMatchAt(s, 0) == Some(HourMatch(h, 2));
    assert Covered([c], 0, 2, rule) by { assert [c][0].pos <= 0; }
    assert HourScan(s, 0, [c], rule) == HourScan(s, 2, [c], rule);
    assert HourMatchAt(s, 2) == None;
    assert HourScan(s, 2, [c], rule) == HourScan(s, 3, [c], rule);
    assert HourMatchAt(s, 3) == Some(HourMatch(m, 5));
    var next := if !Covered([c], 3, 2, rule) && m <= 23 then [c, Found(TimeOfDay(m, 0), 3, 5)] else [c];
    assert [c] + [Found(TimeOfDay(m, 0), 3, 5)] == [c, Found(TimeOfDay(m, 0), 3, 5)];
    assert HourScan(s, 3, [c], rule) == HourScan(s, 5, next, rule);
  }

  /** Both scans over "HH:MM": the clock pattern matches the whole token;
      the bare-hour pattern matches the hour digits at 0 and the minute
      digits at 3, each two characters long. */
  lemma ClockTokenScans(h: nat, m: nat, rule: SkipRule)
    requires h <= 23 && m <= 59
    ensures var s := FormatHM(h, m);
            var c := Found(TimeOfDay(h, m), 0, 5);
            ClockScan(s, 0) == [c] &&
            HourScan(s, 0, [c], rule) ==
              (if Covered([c], 3, 2, rule) || m > 23 then [c] else [c, Found(TimeOfDay(m, 0), 3, 5)])
  {
    ClockTokenClockScan(h, m);
    ClockTokenHourScan(h, m, rule);
  }

  lemma SortTwo(a: Found, b: Found)
    requires a.pos < b.pos
    ensures SortByKey([a, b], Pos) == [a, b]
  {
    SortSorted([a, b], Pos);
  }

  /** As written, a single two-digit clock time whose minutes are at most 23
      reads as two times ("10:15" gives 10:15 and 15:00): with no "до" in
      the text the result is no time at all. */
  lemma AsWrittenLosesClockTime(h: nat, m: nat)
    requires h <= 23 && m <= 23
    ensures TimeFromTokens([FormatHM(h, m)], AsWritten) == (None, None)
  {
    assert Normalize([FormatHM(h, m)]) == FormatHM(h, m) by { NormalizeClockToken(h, m); }
    AsWrittenClockText(h, m);
  }

  /** The clock and the minutes read as an hour are both found... */
  lemma AsWrittenClockFound(h: nat, m: nat)
    requires h <= 23 && m <= 23
    ensures FoundTimes(FormatHM(h, m), AsWritten) == [Found(TimeOfDay(h, m), 0, 5), Found(TimeOfDay(m, 0), 3, 5)]
  {
    var c, b := Found(TimeOfDay(h, m), 0, 5), Found(TimeOfDay(m, 0), 3, 5);
    ClockTokenScans(h, m, AsWritten);
    assert !Covers([c][0], 3, 2, AsWritten);
    assert !Covered([c], 3, 2, AsWritten);
    SortTwo(c, b);
  }

  /** ...and, with no "до" in the text, two times give neither a start nor an end. */
  lemma AsWrittenClockText(h: nat, m: nat)
    requires h <= 23 && m <= 23
    ensures TimesFromText(FormatHM(h, m), AsWritten) == (None, None)
  {
    var s := FormatHM(h, m);
    assert |FoundTimes(s, AsWritten)| == 2 by { AsWrittenClockFound(h, m); }
    assert !Contains(s, "до") by {
      ClockTokenShape(h, m);
      NoUntilInClock(s);
    }
    TimesOfTwoWithoutUntil(s, AsWritten);
  }

  lemma NoUntilInClock(s: string)
    requires |s| == 5 && IsDigit(s[0]) && IsDigit(s[1]) && s[2] == ':' && IsDigit(s[3]) && IsDigit(s[4])
    ensures !Contains(s, "до")
  {
    assert 'д' !in s;
    NotContainsFirstChar(s, "до");
  }

  /** Two times found without "до" in the text give nothing. */
  lemma TimesOfTwoWithoutUntil(raw: string, rule: SkipRule)
    requires |FoundTimes(raw, rule)| == 2 && !Contains(raw, "до")
    ensures TimesFromText(raw, rule) == (None, None)
  {
  }

  /** With the skip window the scan evidently intends, a single clock time
      "HH:MM" is read as exactly that start time and no end. */
  lemma IntendedReadsClockTime(h: nat, m: nat)
    requires h <= 23 && m <= 59
    ensures TimeFromTokens([FormatHM(h, m)], Intended) == (Some(TimeOfDay(h, m)), None)
  {
    var s := FormatHM(h, m);
    assert Normalize([s]) == s by { NormalizeClockToken(h, m); }
    assert TimesFromText(s, Intended) == (Some(TimeOfDay(h, m)), None) by {
      IntendedClockFound(h, m);
      TimesOfOne(s, Intended, Found(TimeOfDay(h, m), 0, 5));
    }
  }

  /** A single time found is the start, with no end. */
  lemma TimesOfOne(raw: string, rule: SkipRule, f: Found)
    requires FoundTimes(raw, rule) == [f]
    ensures TimesFromText(raw, rule) == (Some(f.time), None)
  {
  }

  /** Only the clock is found: the hour inside it is skipped. */
  lemma IntendedClockFound(h: nat, m: nat)
    requires h <= 23 && m <= 59
    ensures FoundTimes(FormatHM(h, m), Intended) == [Found(TimeOfDay(h, m), 0, 5)]
  {
    ClockTokenScans(h, m, Intended);
    var c := Found(TimeOfDay(h, m), 0, 5);
    assert Covered([c], 3, 2, Intended) by { assert [c][0].pos <= 3 < [c][0].end; }
    assert SortByKey([c], Pos) == [c];
  }
}
