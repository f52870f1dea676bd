/** The custom "now" line of the week and day views (`updateTimeIndicator`
    in `frontend/src/App.jsx`): the hour the grid starts at, read from its
    first time label; the offset of the current time below it; the gate
    that decides whether a line is drawn; and the pass over the grid
    containers that replaces each container's line.

    The time grid is given as values: the label texts, the height of the
    first slot of each container, and the containers as array cells whose
    indices stand for the DOM nodes. */
module TimeIndicator {
  import opened Common

  // ---------------------------------------------------------------------------
  // The hour of the first grid row

  /** `/\d+(AM|PM)/` matches somewhere in `s`. */
  predicate HasMeridiemNumber(s: string) {
    exists i :: 1 <= i <= |s| - 2 && MeridiemAt(s, i)
  }

  predicate MeridiemAt(s: string, i: int) {
    1 <= i <= |s| - 2 && IsDigit(s[i - 1]) && (s[i..i + 2] == "AM" || s[i..i + 2] == "PM")
  }

  /** A label counted as a time: after trimming, it holds ':' or a number
      followed by AM or PM. */
  function TimeLabel(text: string): Option<string> {
    var t := Strip(text);
    if ':' in t || HasMeridiemNumber(t) then Some(t) else None
  }

  /** The text that is parsed: the first time label, else the second label
      when there are several, else "00:00"; `None` when there are no labels
      at all, in which case nothing is parsed. */
  function ChosenLabel(labels: seq<string>): (r: Option<string>)
    ensures labels == [] <==> r.None?
  {
    if labels == [] then None
    else match FirstHit(labels, TimeLabel)
      case Some(t) => Some(t)
      case None => if |labels| > 1 then Some(Strip(labels[1])) else Some("00:00")
  }

  /** The first run of digits in `s` (`s.match(/(\d+)/)`), as a number. */
  function FirstNumber(s: string): (r: Option<nat>)
    decreases |s|
  {
    if s == [] then None
    else if IsDigit(s[0]) then Some(DigitsValue(s[..DigitRunLen(s)]))
    else FirstNumber(s[1..])
  }

  /** The start hour read from the chosen text: the integer before the
      first ':' (0 when it does not parse), else the 12-hour reading of the
      first number when AM or PM occurs, else 6 for "all-day", else 0. */
  function StartHourOf(text: string): int {
    if ':' in text then
      match JsParseInt(SplitOn(text, ':')[0])
      case Some(n) => n
      case None => 0
    else if Contains(text, "AM") || Contains(text, "PM") then
      match FirstNumber(text)
      case None => 0
      case Some(n) =>
        if Contains(text, "PM") && n != 12 then n + 12
        else if Contains(text, "AM") && n == 12 then 0
        else n
    else if text == "all-day" then 6
    else 0
  }

  function StartHour(labels: seq<string>): int {
    match ChosenLabel(labels)
    case None => 0
    case Some(t) => StartHourOf(t)
  }

  /** The label chosen is the trimmed text of the first label that counts
      as a time, and the second label only when none does. */
  lemma ChosenLabelSpec(labels: seq<string>)
    ensures (exists k :: 0 <= k < |labels| && TimeLabel(labels[k]).Some?) ==>
              exists k :: 0 <= k < |labels| && ChosenLabel(labels) == Some(Strip(labels[k])) &&
                          TimeLabel(labels[k]).Some? &&
                          forall j :: 0 <= j < k ==> TimeLabel(labels[j]).None?
    ensures (forall k :: 0 <= k < |labels| ==> TimeLabel(labels[k]).None?) && |labels| > 1 ==>
              ChosenLabel(labels) == Some(Strip(labels[1]))
  {
    FirstHitSpec(labels, TimeLabel);
  }

  /** A 24-hour label `HH:mm` gives its hour, whatever follows the colon. */
  lemma StartHourOfClock(h: nat, rest: string)
    requires h < 100
    ensures StartHourOf(Pad(h, 2) + ":" + rest) == h
  {
    var p := Pad(h, 2);
    PadRoundTrip(h, 2);
    assert ':' !in p by {
      forall k | 0 <= k < |p| ensures p[k] != ':' { assert IsDigit(p[k]); }
    }
    var text := p + ":" + rest;
    assert ':' in text by { assert text[|p|] == ':'; }
    assert SplitOn(text, ':')[0] == p by {
      IndexOfAppend(p, ':', rest);
      SplitOnFirst(text, ':');
      assert text[..|p|] == p;
    }
    JsParseIntOfDigits(p);
  }

  /** `parseInt` of a numeral, leading zeros included. */
  lemma JsParseIntOfDigits(p: string)
    requires p != [] && AllDigits(p)
    ensures JsParseInt(p) == Some(DigitsValue(p))
  {
    assert IsDigit(p[0]) && !IsSpace(p[0]) && p[0] != '-' && p[0] != '+';
    assert TrimStart(p) == p;
    assert DigitRunLen(p) == |p| by {
      DigitRunAppend(p, []);
      assert p + [] == p;
    }
    assert p[..|p|] == p;
  }

  /** A colon decides even when AM or PM occurs too. */
  lemma StartHourColonFirst(text: string)
    requires ':' in text && Contains(text, "PM")
    ensures StartHourOf(text) == (match JsParseInt(SplitOn(text, ':')[0]) case Some(n) => n case None => 0)
  {
  }

  /** The 12-hour labels: 12 AM is hour 0, h PM is h + 12 except 12 PM. */
  lemma StartHourOfMeridiem(h: nat, suffix: string)
    requires 1 <= h <= 12 && (suffix == "AM" || suffix == "PM")
    ensures StartHourOf(NatToString(h) + suffix) == if suffix == "AM" then h % 12 else h % 12 + 12
  {
    var text := NatToString(h) + suffix;
    var other := if suffix == "AM" then "PM" else "AM";
    MeridiemTextShape(h, suffix, other);
    MeridiemFirstNumber(h, suffix);
    StartHourOfTwelve(text, h, suffix == "PM");
  }

  /** "hAM" and "hPM" hold no ':', hold their own suffix and not the other. */
  lemma MeridiemTextShape(h: nat, suffix: string, other: string)
    requires suffix == "AM" || suffix == "PM"
    requires other == if suffix == "AM" then "PM" else "AM"
    ensures var text := NatToString(h) + suffix;
            ':' !in text && Contains(text, suffix) && !Contains(text, other)
  {
    var s := NatToString(h);
    var text := s + suffix;
    assert AllDigits(s);
    assert ':' !in text by {
      forall k | 0 <= k < |text| ensures text[k] != ':' {
        if k < |s| { assert text[k] == s[k] && IsDigit(s[k]); }
      }
    }
    ContainsAt(text, suffix, |s|);
    assert other[0] !in text by {
      forall k | 0 <= k < |text| ensures text[k] != other[0] {
        if k < |s| { assert text[k] == s[k] && IsDigit(s[k]); }
      }
    }
    NotContainsFirstChar(text, other);
  }

  /** The first number of "hAM" or "hPM" is `h`. */
  lemma MeridiemFirstNumber(h: nat, suffix: string)
    requires suffix == "AM" || suffix == "PM"
    ensures FirstNumber(NatToString(h) + suffix) == Some(h)
  {
    var s := NatToString(h);
    var text := s + suffix;
    assert AllDigits(s);
    assert IsDigit(text[0]);
    DigitRunAppend(s, suffix);
    assert text[..|s|] == s;
    DigitsValueOfNatToString(h);
  }

  /** The 12-hour rule on a text without ':' whose first number is `n`. */
  lemma StartHourOfTwelve(text: string, n: nat, pm: bool)
    requires 1 <= n <= 12 && ':' !in text && FirstNumber(text) == Some(n)
    requires Contains(text, "PM") == pm && Contains(text, "AM") == !pm
    ensures StartHourOf(text) == if pm then n % 12 + 12 else n % 12
  {
  }

  // ---------------------------------------------------------------------------
  // Offset and gate

  /** `currentHour - startHour + currentMinute / 60`, exactly. */
  function HoursFromStart(hour: int, minute: int, startHour: int): real {
    (hour - startHour) as real + minute as real / 60.0
  }

  function Top(hours: real, slotHeight: nat): real {
    hours * slotHeight as real
  }

  /** The gate of the periodic run. */
  predicate PeriodicGate(hours: real, slotHeight: nat) {
    hours >= -1.0 && Top(hours, slotHeight) >= -(slotHeight as real)
  }

  /** The stricter gate of the run after a view change. */
  predicate ViewGate(hours: real, slotHeight: nat) {
    hours >= 0.0 && Top(hours, slotHeight) >= 0.0
  }

  function RMax(a: real, b: real): real { if a >= b then a else b }

  lemma ScaleNonNegative(x: real, slotHeight: nat)
    requires x >= 0.0
    ensures x * slotHeight as real >= 0.0
  {
  }

  /** The periodic line is drawn exactly when the current minute is at
      most one hour before the first row, whatever the slot height. */
  lemma PeriodicGateMinutes(hour: int, minute: int, startHour: int, slotHeight: nat)
    ensures PeriodicGate(HoursFromStart(hour, minute, startHour), slotHeight) <==>
            60 * (hour - startHour) + minute >= -60
  {
    var h := HoursFromStart(hour, minute, startHour);
    assert 60.0 * h == (60 * (hour - startHour) + minute) as real;
    if h >= -1.0 {
      ScaleNonNegative(h + 1.0, slotHeight);
      assert (h + 1.0) * slotHeight as real == Top(h, slotHeight) + slotHeight as real;
    }
  }

  /** The line after a view change is drawn exactly when the current minute
      is not before the first row. */
  lemma ViewGateMinutes(hour: int, minute: int, startHour: int, slotHeight: nat)
    ensures ViewGate(HoursFromStart(hour, minute, startHour), slotHeight) <==>
            60 * (hour - startHour) + minute >= 0
  {
    var h := HoursFromStart(hour, minute, startHour);
    assert 60.0 * h == (60 * (hour - startHour) + minute) as real;
    if h >= 0.0 { ScaleNonNegative(h, slotHeight); }
  }

  /** Where both runs draw a line, they draw it at the same offset. */
  lemma ViewGateWithinPeriodic(hours: real, slotHeight: nat)
    requires ViewGate(hours, slotHeight)
    ensures PeriodicGate(hours, slotHeight) && RMax(0.0, Top(hours, slotHeight)) == Top(hours, slotHeight)
  {
  }

  // ---------------------------------------------------------------------------
  // Containers

  /** A grid body: the height of its first `.fc-timegrid-slot` (`None` when
      it has none) and the offsets of the `.custom-time-indicator` lines
      inside it, in document order. */
  datatype Container = Container(slotHeight: Option<nat>, markers: seq<real>)

  /** At most one line, never above the container's top. */
  predicate Tidy(c: Container) {
    |c.markers| <= 1 && forall k :: 0 <= k < |c.markers| ==> c.markers[k] >= 0.0
  }

  /** `querySelector(...)?.remove()`: the first line goes. */
  function WithoutFirstMarker(c: Container): seq<real> {
    if c.markers == [] then [] else c.markers[1..]
  }

  /** One container in the periodic run. */
  function PeriodicUpdate(c: Container, startHour: int, hour: int, minute: int): Container {
    var kept := WithoutFirstMarker(c);
    match c.slotHeight
    case None => c.(markers := kept)
    case Some(slot) =>
      var h := HoursFromStart(hour, minute, startHour);
      if PeriodicGate(h, slot) then c.(markers := kept + [RMax(0.0, Top(h, slot))])
      else c.(markers := kept)
  }

  /** The start hour of the run after a view change: the first slot label
      (or "00:00") up to its colon, read by `parseInt` without a fallback,
      so `None` stands for `NaN`. */
  function ViewStartHour(firstLabel: Option<string>): Option<int> {
    var text := if firstLabel.Some? then firstLabel.value else "00:00";
    if ':' in text then JsParseInt(SplitOn(text, ':')[0]) else Some(0)
  }

  /** One container in the run after a view change. `NaN` fails every
      comparison, so no line is drawn for it. */
  function ViewUpdate(c: Container, inTimeGrid: bool, startHour: Option<int>, hour: int, minute: int): Container {
    var kept := WithoutFirstMarker(c);
    if !inTimeGrid || c.slotHeight.None? || startHour.None? then c.(markers := kept)
    else
      var h := HoursFromStart(hour, minute, startHour.value);
      if ViewGate(h, c.slotHeight.value) then c.(markers := kept + [Top(h, c.slotHeight.value)])
      else c.(markers := kept)
  }

  /** Either run leaves a tidy container tidy; a container without slots
      only loses its line. */
  lemma UpdatesKeepTidy(c: Container, startHour: int, view: Option<int>, inTimeGrid: bool, hour: int, minute: int)
    requires Tidy(c)
    ensures Tidy(PeriodicUpdate(c, startHour, hour, minute))
    ensures Tidy(ViewUpdate(c, inTimeGrid, view, hour, minute))
    ensures c.slotHeight.None? ==> PeriodicUpdate(c, startHour, hour, minute).markers == [] &&
                                   ViewUpdate(c, inTimeGrid, view, hour, minute).markers == []
  {
  }

  /** The periodic run draws a line in a container with slots exactly when
      the gate passes, and that line is the container's only one. */
  lemma {:induction false} PeriodicUpdateSpec(c: Container, startHour: int, hour: int, minute: int)
    requires Tidy(c) && c.slotHeight.Some?
    ensures var r := PeriodicUpdate(c, startHour, hour, minute);
            var h := HoursFromStart(hour, minute, startHour);
            (r.markers != [] <==> 60 * (hour - startHour) + minute >= -60) &&
            (r.markers != [] ==> r.markers == [RMax(0.0, Top(h, c.slotHeight.value))])
  {
    PeriodicGateMinutes(hour, minute, startHour, c.slotHeight.value);
    assert |c.markers| <= 1;
    assert WithoutFirstMarker(c) == [];
  }

  // ---------------------------------------------------------------------------
  // The containers a run visits

  predicate NoDup<T(==)>(s: seq<T>) {
    forall i, j :: 0 <= i < j < |s| ==> s[i] != s[j]
  }

  /** `filter((x, i, arr) => arr.indexOf(x) === i)`: the first occurrence of
      each element, in order. */
  function Dedupe<T(==,!new)>(s: seq<T>): (r: seq<T>)
    ensures NoDup(r) && forall x :: x in r <==> x in s
  {
    if s == [] then []
    else
      var d := Dedupe(s[..|s| - 1]);
      assert forall x :: x in s <==> x in s[..|s| - 1] || x == s[|s| - 1];
      if s[|s| - 1] in d then d else d + [s[|s| - 1]]
  }

  /** The bodies and the alternative bodies without repeats, or the
      fallback container alone when there are none. */
  function Targets(bodies: seq<nat>, alternative: seq<nat>, fallback: Option<nat>): (r: seq<nat>)
    ensures NoDup(r)
    ensures bodies + alternative != [] ==> forall x :: x in r <==> x in bodies || x in alternative
    ensures bodies + alternative == [] ==> r == (if fallback.Some? then [fallback.value] else [])
  {
    var all := Dedupe(bodies + alternative);
    if all == [] then (if fallback.Some? then [fallback.value] else []) else all
  }

  /** The loop over the visited containers: each gets `f` once. */
  method UpdateEach(a: array<Container>, targets: seq<nat>, f: Container -> Container)
    requires NoDup(targets) && forall k :: 0 <= k < |targets| ==> targets[k] < a.Length
    modifies a
    ensures forall i :: 0 <= i < a.Length ==> a[i] == if i in targets then f(old(a[i])) else old(a[i])
  {
    var k := 0;
    while k < |targets|
      invariant 0 <= k <= |targets|
      invariant forall i :: 0 <= i < a.Length ==> a[i] == if i in targets[..k] then f(old(a[i])) else old(a[i])
    {
      var t := targets[k];
      assert t !in targets[..k];
      a[t] := f(a[t]);
      assert targets[..k + 1] == targets[..k] + [t];
      k := k + 1;
    }
    assert targets[..k] == targets;
  }

  /** The periodic run. Nothing happens when the page shows no time grid. */
  method PeriodicRun(a: array<Container>, gridPresent: bool, bodies: seq<nat>, alternative: seq<nat>,
                     fallback: Option<nat>, labels: seq<string>, hour: int, minute: int)
    requires forall x :: x in bodies || x in alternative || Some(x) == fallback ==> x < a.Length
    modifies a
    ensures !gridPresent ==> a[..] == old(a[..])
    ensures gridPresent ==>
              forall i :: 0 <= i < a.Length ==>
                a[i] == if i in Targets(bodies, alternative, fallback)
                        then PeriodicUpdate(old(a[i]), StartHour(labels), hour, minute) else old(a[i])
  {
    if !gridPresent {
      return;
    }
    var targets := Targets(bodies, alternative, fallback);
    assert forall k :: 0 <= k < |targets| ==> targets[k] < a.Length by {
      forall k | 0 <= k < |targets| ensures targets[k] < a.Length {
        var x := targets[k];
        assert x in targets;
        if bodies + alternative == [] {
          assert Some(x) == fallback;
        } else {
          assert x in bodies || x in alternative;
        }
      }
    }
    var startHour := StartHour(labels);
    UpdateEach(a, targets, c => PeriodicUpdate(c, startHour, hour, minute));
  }

  /** The run after a view change, over the `.fc-timegrid-body` nodes. */
  method ViewRun(a: array<Container>, bodies: seq<nat>, viewClass: string, firstLabel: Option<string>,
                 hour: int, minute: int)
    requires NoDup(bodies) && forall k :: 0 <= k < |bodies| ==> bodies[k] < a.Length
    modifies a
    ensures forall i :: 0 <= i < a.Length ==>
              a[i] == if i in bodies
                      then ViewUpdate(old(a[i]), Contains(viewClass, "fc-timegrid"), ViewStartHour(firstLabel), hour, minute)
                      else old(a[i])
  {
    var inTimeGrid := Contains(viewClass, "fc-timegrid");
    var startHour := ViewStartHour(firstLabel);
    UpdateEach(a, bodies, c => ViewUpdate(c, inTimeGrid, startHour, hour, minute));
  }
}
