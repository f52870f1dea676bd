/** `parse_text` of the rule layer around the token tagger: the weekday
    label fix, the title taken around the significant tokens, the day and
    time tokens, and how the day and the times of day become start and end
    date-times. The tagger's predicted labels and the current moment are
    parameters. */
module NlpParser {
  import opened Common
  import opened Calendar
  import opened NlpRules
  import opened TimeExtract

  /** The skip window the program's `_parse_time_from_tokens` uses; the
      corrected window `Intended` can be passed in its place. */
  const ProgramRule: SkipRule := AsWritten

  const BWhenStart := "B-WHEN_START"
  const BTitle := "B-TITLE"
  const Other := "O"

  /** Words that always belong to a title. */
  const TitleWords: set<string> := {"клас", "колелета", "тате", "офис", "мол"}

  /** Words dropped from the title span. */
  const TimeMarkers: set<string> := {"сутринта", "вечерта", "следобед", "утре", "днес", "вдругиден"}
  const TitleConnectors: set<string> := {"на", "от", "до"}

  /** Words dropped from the fallback title. */
  const FallbackConnectors: set<string> := {"на", "в", "с", "от", "до"}

  /** The number of pairs `zip` forms. */
  function Paired<T, U>(a: seq<T>, b: seq<U>): (n: nat)
    ensures n <= |a| && n <= |b| && (n == |a| || n == |b|)
  {
    if |a| <= |b| then |a| else |b|
  }

  // ---------------------------------------------------------------------------
  // The weekday label fix

  function FixLabel(word: string, lab: string): string {
    if lab == Other && Lower(word) in Weekdays then BWhenDay else lab
  }

  /** The second pass over the predicted labels, one per paired word. */
  function FixLabels(words: seq<string>, labels: seq<string>): (r: seq<string>)
    ensures |r| == Paired(words, labels)
  {
    seq(Paired(words, labels), k requires 0 <= k < Paired(words, labels) => FixLabel(words[k], labels[k]))
  }

  /** After the fix no weekday is left labelled "O", every other label is
      kept, and fixing again changes nothing. */
  lemma FixLabelsSpec(words: seq<string>, labels: seq<string>)
    ensures var r := FixLabels(words, labels);
            (forall k :: 0 <= k < |r| ==> (r[k] == Other ==> Lower(words[k]) !in Weekdays)) &&
            (forall k :: 0 <= k < |r| && labels[k] != Other ==> r[k] == labels[k]) &&
            (forall k :: 0 <= k < |r| && labels[k] == Other ==> r[k] == Other || r[k] == BWhenDay) &&
            FixLabels(words, r) == r
  {
    var r := FixLabels(words, labels);
    assert Paired(words, r) == |r|;
    forall k | 0 <= k < |r| ensures FixLabels(words, r)[k] == r[k] {
      assert BWhenDay != Other;
    }
  }

  method FixLabelsLoop(words: seq<string>, labels: seq<string>) returns (fixed: seq<string>)
    ensures fixed == FixLabels(words, labels)
  {
    fixed := [];
    var i := 0;
    while i < |words| && i < |labels|
      invariant 0 <= i <= Paired(words, labels)
      invariant |fixed| == i && forall k :: 0 <= k < i ==> fixed[k] == FixLabel(words[k], labels[k])
    {
      if labels[i] == Other && Lower(words[i]) in Weekdays {
        fixed := fixed + [BWhenDay];
      } else {
        fixed := fixed + [labels[i]];
      }
      i := i + 1;
    }
  }

  // ---------------------------------------------------------------------------
  // The significant tokens and the title

  /** Token `i` marks the title: a title, person or place label, a title
      word, or a word after "с" that is neither a weekday nor a number. */
  predicate Significant(tokens: seq<string>, labels: seq<string>, i: int)
    requires 0 <= i < |tokens| && i < |labels|
  {
    labels[i] in {"B-TITLE", "B-PERSON", "B-PLACE"} ||
    Lower(tokens[i]) in TitleWords ||
    (i > 0 && Lower(tokens[i - 1]) == "с" && tokens[i] !in Weekdays && !IsDigitString(tokens[i]))
  }

  /** `first_index` after the pairs before `i`. */
  function FirstSig(tokens: seq<string>, labels: seq<string>, i: nat): Option<nat>
    requires i <= Paired(tokens, labels)
  {
    if i == 0 then None
    else match FirstSig(tokens, labels, i - 1)
      case Some(k) => Some(k)
      case None => if Significant(tokens, labels, i - 1) then Some(i - 1) else None
  }

  /** `last_index` after the pairs before `i`. */
  function LastSig(tokens: seq<string>, labels: seq<string>, i: nat): Option<nat>
    requires i <= Paired(tokens, labels)
  {
    if i == 0 then None
    else if Significant(tokens, labels, i - 1) then Some(i - 1)
    else LastSig(tokens, labels, i - 1)
  }

  /** The first and the last significant index below `i`: both are missing
      exactly when there is none, and the first is not after the last. */
  lemma {:induction false} SigRangeSpec(tokens: seq<string>, labels: seq<string>, i: nat)
    requires i <= Paired(tokens, labels)
    ensures FirstSig(tokens, labels, i).None? <==> forall k :: 0 <= k < i ==> !Significant(tokens, labels, k)
    ensures LastSig(tokens, labels, i).None? <==> FirstSig(tokens, labels, i).None?
    ensures FirstSig(tokens, labels, i).Some? ==>
              var f := FirstSig(tokens, labels, i).value;
              f < i && Significant(tokens, labels, f) &&
              forall k :: 0 <= k < f ==> !Significant(tokens, labels, k)
    ensures LastSig(tokens, labels, i).Some? ==>
              var l := LastSig(tokens, labels, i).value;
              l < i && Significant(tokens, labels, l) &&
              forall k :: l < k < i ==> !Significant(tokens, labels, k)
    ensures FirstSig(tokens, labels, i).Some? ==>
              FirstSig(tokens, labels, i).value <= LastSig(tokens, labels, i).value
  {
    if i > 0 {
      SigRangeSpec(tokens, labels, i - 1);
    }
  }

  /** The loop that records the first and the last significant index. */
  method SignificantRange(tokens: seq<string>, labels: seq<string>) returns (first: Option<nat>, last: Option<nat>)
    ensures first == FirstSig(tokens, labels, Paired(tokens, labels))
    ensures last == LastSig(tokens, labels, Paired(tokens, labels))
  {
    first, last := None, None;
    var i := 0;
    while i < |tokens| && i < |labels|
      invariant 0 <= i <= Paired(tokens, labels)
      invariant first == FirstSig(tokens, labels, i) && last == LastSig(tokens, labels, i)
    {
      var title := labels[i] in {"B-TITLE", "B-PERSON", "B-PLACE"} || Lower(tokens[i]) in TitleWords ||
                   (i > 0 && Lower(tokens[i - 1]) == "с" && tokens[i] !in Weekdays && !IsDigitString(tokens[i]));
      if title {
        if first.None? {
          first := Some(i);
        }
        last := Some(i);
      }
      i := i + 1;
    }
  }

  /** A token kept in the title span: not a time marker, not a weekday in
      its own form or lower case, not a connector. */
  predicate KeepInTitle(token: string) {
    Lower(token) !in TimeMarkers && !(token in Weekdays || Lower(token) in Weekdays) &&
    Lower(token) !in TitleConnectors
  }

  method FilterTitleLoop(tokens: seq<string>) returns (kept: seq<string>)
    ensures kept == Filter(tokens, KeepInTitle)
  {
    kept := [];
    var i := 0;
    while i < |tokens|
      invariant 0 <= i <= |tokens|
      invariant Filter(tokens, KeepInTitle) == kept + Filter(tokens[i..], KeepInTitle)
    {
      FilterStep(tokens, i, KeepInTitle);
      var token := tokens[i];
      var isTimeMarker := Lower(token) in TimeMarkers;
      var isWeekday := token in Weekdays || Lower(token) in Weekdays;
      var isConnector := Lower(token) in TitleConnectors;
      if !isTimeMarker && !isWeekday && !isConnector {
        kept := kept + [token];
      }
      i := i + 1;
    }
  }

  predicate IsTitleLabel(lab: string) { lab == BTitle }

  /** The first and the last significant index, when there is one: missing
      exactly when no paired token is significant, otherwise two significant
      indices with none before the first and none after the last. */
  function SigSpan(tokens: seq<string>, labels: seq<string>): (r: Option<(nat, nat)>)
    ensures r.Some? ==> r.value.0 <= r.value.1 < Paired(tokens, labels)
    ensures r.None? <==> forall k :: 0 <= k < Paired(tokens, labels) ==> !Significant(tokens, labels, k)
    ensures r.Some? ==>
              Significant(tokens, labels, r.value.0) && Significant(tokens, labels, r.value.1) &&
              (forall k :: 0 <= k < r.value.0 ==> !Significant(tokens, labels, k)) &&
              (forall k :: r.value.1 < k < Paired(tokens, labels) ==> !Significant(tokens, labels, k))
  {
    var n := Paired(tokens, labels);
    SigRangeSpec(tokens, labels, n);
    match FirstSig(tokens, labels, n)
    case Some(f) => Some((f, LastSig(tokens, labels, n).value))
    case None => None
  }

  /** The words of the title: the span from the first to the last
      significant token without the dropped words, or the "B-TITLE" words
      when no token is significant. */
  function TitleTokens(tokens: seq<string>, labels: seq<string>): seq<string>
  {
    match SigSpan(tokens, labels)
    case Some((f, l)) => Filter(tokens[f..l + 1], KeepInTitle)
    case None => Picked(tokens, labels, IsTitleLabel)
  }

  /** The span runs from the first to the last significant token and the
      title words are exactly the words in it that are kept; with no
      significant token they are exactly the "B-TITLE" words. */
  lemma TitleTokensSpec(tokens: seq<string>, labels: seq<string>)
    ensures SigSpan(tokens, labels).Some? ==>
              var (f, l) := SigSpan(tokens, labels).value;
              Significant(tokens, labels, f) && Significant(tokens, labels, l) &&
              (forall k :: 0 <= k < f ==> !Significant(tokens, labels, k)) &&
              (forall k :: l < k < Paired(tokens, labels) ==> !Significant(tokens, labels, k)) &&
              forall x :: x in TitleTokens(tokens, labels) <==> x in tokens[f..l + 1] && KeepInTitle(x)
    ensures SigSpan(tokens, labels).None? ==>
              (forall k :: 0 <= k < Paired(tokens, labels) ==> !Significant(tokens, labels, k)) &&
              forall x :: x in TitleTokens(tokens, labels) <==>
                exists k :: 0 <= k < |tokens| && k < |labels| && labels[k] == BTitle && tokens[k] == x
  {
    SigRangeSpec(tokens, labels, Paired(tokens, labels));
    match SigSpan(tokens, labels)
    case Some((f, l)) => FilterSpec(tokens[f..l + 1], KeepInTitle);
    case None => PickedSpec(tokens, labels, IsTitleLabel);
  }

  /** The title words come in the order of the text. With a significant
      token each kept word of the span occurs as often as in the span; with
      none each word occurs once for each of its positions labelled
      "B-TITLE". */
  lemma TitleTokensOrder(tokens: seq<string>, labels: seq<string>)
    ensures Subsequence(TitleTokens(tokens, labels), tokens)
    ensures SigSpan(tokens, labels).Some? ==>
              var (f, l) := SigSpan(tokens, labels).value;
              Subsequence(TitleTokens(tokens, labels), tokens[f..l + 1]) &&
              forall x :: multiset(TitleTokens(tokens, labels))[x] ==
                            if KeepInTitle(x) then multiset(tokens[f..l + 1])[x] else 0
    ensures SigSpan(tokens, labels).None? ==>
              forall x :: multiset(TitleTokens(tokens, labels))[x] == |PickedAt(tokens, labels, IsTitleLabel, x)|
  {
    match SigSpan(tokens, labels)
    case Some((f, l)) =>
      var span := tokens[f..l + 1];
      FilterSubsequence(span, KeepInTitle);
      SliceSubsequence(tokens, f, l + 1);
      SubsequenceTransitive(TitleTokens(tokens, labels), span, tokens);
      forall x ensures multiset(TitleTokens(tokens, labels))[x] == if KeepInTitle(x) then multiset(span)[x] else 0 {
        FilterCount(span, KeepInTitle, x);
      }
    case None =>
      PickedSubsequence(tokens, labels, IsTitleLabel);
      forall x ensures multiset(TitleTokens(tokens, labels))[x] == |PickedAt(tokens, labels, IsTitleLabel, x)| {
        PickedCount(tokens, labels, IsTitleLabel, x);
      }
  }

  /** The title loop: the significant range, then the filtered span or the
      "B-TITLE" words, joined and stripped. */
  method TitleLoop(tokens: seq<string>, labels: seq<string>) returns (title: string)
    ensures title == Strip(Join(TitleTokens(tokens, labels), " "))
  {
    var first, last := SignificantRange(tokens, labels);
    SigRangeSpec(tokens, labels, Paired(tokens, labels));
    if first.None? {
      assert SigSpan(tokens, labels).None?;
      var words := Picked(tokens, labels, IsTitleLabel);
      assert words == TitleTokens(tokens, labels);
      title := Strip(Join(words, " "));
    } else {
      assert SigSpan(tokens, labels) == Some((first.value, last.value));
      var kept := FilterTitleLoop(tokens[first.value..last.value + 1]);
      assert kept == TitleTokens(tokens, labels);
      title := Strip(Join(kept, " "));
    }
  }

  predicate NotWhenLabel(lab: string) { lab != BWhenDay && lab != IWhenDay && lab != BWhenStart }

  predicate NotFallbackConnector(token: string) { Lower(token) !in FallbackConnectors }

  /** The title used when the first one is empty: every word not labelled
      as a day or a start time, without the connectors. */
  function FallbackTokens(tokens: seq<string>, labels: seq<string>): seq<string> {
    Filter(Picked(tokens, labels, NotWhenLabel), NotFallbackConnector)
  }

  lemma FallbackTokensSpec(tokens: seq<string>, labels: seq<string>)
    ensures forall x :: x in FallbackTokens(tokens, labels) <==>
              NotFallbackConnector(x) &&
              exists k :: 0 <= k < |tokens| && k < |labels| && NotWhenLabel(labels[k]) && tokens[k] == x
  {
    PickedSpec(tokens, labels, NotWhenLabel);
    FilterSpec(Picked(tokens, labels, NotWhenLabel), NotFallbackConnector);
  }

  /** The fallback words come in the order of the text, each word that is
      not a connector once for each of its positions not labelled as a day
      or a start time. */
  lemma FallbackTokensOrder(tokens: seq<string>, labels: seq<string>)
    ensures Subsequence(FallbackTokens(tokens, labels), tokens)
    ensures forall x :: multiset(FallbackTokens(tokens, labels))[x] ==
              if NotFallbackConnector(x) then |PickedAt(tokens, labels, NotWhenLabel, x)| else 0
  {
    var picked := Picked(tokens, labels, NotWhenLabel);
    PickedSubsequence(tokens, labels, NotWhenLabel);
    FilterSubsequence(picked, NotFallbackConnector);
    SubsequenceTransitive(FallbackTokens(tokens, labels), picked, tokens);
    forall x ensures multiset(FallbackTokens(tokens, labels))[x] ==
                     if NotFallbackConnector(x) then |PickedAt(tokens, labels, NotWhenLabel, x)| else 0 {
      FilterCount(picked, NotFallbackConnector, x);
      PickedCount(tokens, labels, NotWhenLabel, x);
    }
  }

  // ---------------------------------------------------------------------------
  // Day tokens and the time section

  predicate IsDayLabel(lab: string) { lab == BWhenDay || lab == IWhenDay }

  /** The time section from here on: a "B-WHEN_START" word opens it and is
      taken, "O" words inside it are taken, any other label closes it. */
  function Section(tokens: seq<string>, labels: seq<string>, inSection: bool): seq<string>
    decreases |tokens|
  {
    if tokens == [] || labels == [] then []
    else if labels[0] == BWhenStart then [tokens[0]] + Section(tokens[1..], labels[1..], true)
    else if inSection && labels[0] == Other then [tokens[0]] + Section(tokens[1..], labels[1..], true)
    else Section(tokens[1..], labels[1..], false)
  }

  /** Every "B-WHEN_START" word is in the section, every word in it is a
      "B-WHEN_START" or an "O" word, and without a "B-WHEN_START" word an
      unopened section stays empty. */
  lemma {:induction false} SectionSpec(tokens: seq<string>, labels: seq<string>, inSection: bool)
    ensures forall k :: 0 <= k < |tokens| && k < |labels| && labels[k] == BWhenStart ==>
              tokens[k] in Section(tokens, labels, inSection)
    ensures forall x :: x in Section(tokens, labels, inSection) ==>
              exists k :: 0 <= k < |tokens| && k < |labels| && tokens[k] == x &&
                          (labels[k] == BWhenStart || labels[k] == Other)
    ensures !inSection && (forall k :: 0 <= k < |tokens| && k < |labels| ==> labels[k] != BWhenStart) ==>
              Section(tokens, labels, inSection) == []
    decreases |tokens|
  {
    if tokens != [] && labels != [] {
      var t, u := tokens[1..], labels[1..];
      var next := labels[0] == BWhenStart || (inSection && labels[0] == Other);
      SectionSpec(t, u, next);
      var rest := Section(t, u, next);
      assert Section(tokens, labels, inSection) == (if next then [tokens[0]] else []) + rest;
      forall k | 0 <= k < |tokens| && k < |labels| && labels[k] == BWhenStart
        ensures tokens[k] in Section(tokens, labels, inSection)
      {
        if k > 0 { assert t[k - 1] == tokens[k] && u[k - 1] == labels[k]; }
      }
      forall x | x in Section(tokens, labels, inSection)
        ensures exists k :: 0 <= k < |tokens| && k < |labels| && tokens[k] == x &&
                            (labels[k] == BWhenStart || labels[k] == Other)
      {
        if x in rest {
          var k :| 0 <= k < |t| && k < |u| && t[k] == x && (u[k] == BWhenStart || u[k] == Other);
          assert tokens[k + 1] == x && labels[k + 1] == u[k];
        } else {
          assert tokens[0] == x;
        }
      }
      if !inSection && (forall k :: 0 <= k < |tokens| && k < |labels| ==> labels[k] != BWhenStart) {
        assert labels[0] != BWhenStart;
        assert forall k :: 0 <= k < |t| && k < |u| ==> u[k] == labels[k + 1];
      }
    }
  }

  /** The section's words come in the order of the text. */
  lemma {:induction false} SectionOrder(tokens: seq<string>, labels: seq<string>, inSection: bool)
    ensures Subsequence(Section(tokens, labels, inSection), tokens)
    decreases |tokens|
  {
    if tokens == [] || labels == [] {
      EmptySubsequence(tokens);
    } else {
      var next := labels[0] == BWhenStart || (inSection && labels[0] == Other);
      var rest := Section(tokens[1..], labels[1..], next);
      SectionOrder(tokens[1..], labels[1..], next);
      if next {
        assert Section(tokens, labels, inSection) == [tokens[0]] + rest;
        assert Section(tokens, labels, inSection)[1..] == rest;
      } else {
        assert Section(tokens, labels, inSection) == rest;
      }
    }
  }

  /** The loop that collects the time section. */
  method TimeSectionLoop(tokens: seq<string>, labels: seq<string>) returns (section: seq<string>)
    ensures section == Section(tokens, labels, false)
  {
    section := [];
    var inSection := false;
    var i := 0;
    while i < |tokens| && i < |labels|
      invariant 0 <= i <= Paired(tokens, labels)
      invariant Section(tokens, labels, false) == section + Section(tokens[i..], labels[i..], inSection)
    {
      assert tokens[i..][1..] == tokens[i + 1..] && labels[i..][1..] == labels[i + 1..];
      var t, lab := tokens[i], labels[i];
      if lab == BWhenStart {
        inSection := true;
        section := section + [t];
      } else if inSection && (lab == Other || lab == BWhenStart) {
        section := section + [t];
      } else if inSection {
        inSection := false;
      }
      i := i + 1;
    }
  }

  // ---------------------------------------------------------------------------
  // From a day and times of day to date-times

  /** Start and end times of day: those read from the time section, and a
      daytime hint word when no start time was read. */
  function StartEndTimes(tokens: seq<string>, labels: seq<string>, rule: SkipRule): (r: (Option<TimeOfDay>, Option<TimeOfDay>))
    ensures r.0.Some? ==> r.0.value.Valid()
    ensures r.1.Some? ==> r.1.value.Valid() && r.0.Some?
  {
    var section := Section(tokens, labels, false);
    var times := if section != [] then TimeFromTokens(section, rule) else (None, None);
    TimeFromTokensValid(section, rule);
    TimeFromTokensEnd(section, rule);
    DaytimeHintSpec(tokens, labels);
    (if times.0.None? then DaytimeHint(tokens, labels) else times.0, times.1)
  }

  /** The time-section loop, `_parse_time_from_tokens` when the section is
      not empty, and the hint when no start time came of it. */
  method TimesSteps(tokens: seq<string>, labels: seq<string>, rule: SkipRule) returns (startTime: Option<TimeOfDay>, endTime: Option<TimeOfDay>)
    ensures (startTime, endTime) == StartEndTimes(tokens, labels, rule)
  {
    var section := TimeSectionLoop(tokens, labels);
    startTime, endTime := None, None;
    if section != [] {
      startTime, endTime := ParseTimeFromTokens(section, rule);
    }
    if startTime.None? {
      startTime := DaytimeHint(tokens, labels);
    }
  }

  /** The end on day `d`, moved to the next day when it would come before
      the start. */
  function EndOn(d: Date, end: Option<TimeOfDay>, start: DateTime): Option<DateTime>
    requires d.Valid() && start.Valid()
    requires end.Some? ==> end.value.Valid()
  {
    match end
    case None => None
    case Some(t) =>
      var e := Combine(d, t);
      Some(if Before(e, start) then PlusDays(e, 1) else e)
  }

  /** The time of day of a date-time, in microseconds. */
  function TimeMicros(dt: DateTime): int {
    ((dt.hour * 60 + dt.minute) * 60 + dt.second) * 1000000 + dt.micro
  }

  lemma InstantParts(dt: DateTime)
    requires dt.Valid()
    ensures Instant(dt) == Ordinal(dt.date) * 24 * MicrosPerHour + TimeMicros(dt)
    ensures 0 <= TimeMicros(dt) < 24 * MicrosPerHour
  {
  }

  /** An end exists exactly when an end time was read; it has that time of
      day and comes at or after the start and less than a day later. */
  lemma EndOnSpec(d: Date, end: Option<TimeOfDay>, start: DateTime)
    requires d.Valid() && start.Valid() && start.date == d
    requires end.Some? ==> end.value.Valid()
    ensures EndOn(d, end, start).Some? <==> end.Some?
    ensures EndOn(d, end, start).Some? ==>
              var e := EndOn(d, end, start).value;
              e.Valid() && e.hour == end.value.hour && e.minute == end.value.minute &&
              0 <= Instant(e) - Instant(start) < 24 * MicrosPerHour
  {
    if end.Some? {
      var e := Combine(d, end.value);
      InstantParts(e);
      InstantParts(start);
      BeforeInstant(e, start);
      if Before(e, start) {
        PlusDaysInstant(e, 1);
      }
    }
  }

  /** The `if the_date and start_time` chain. */
  function Schedule(day: Option<Date>, start: Option<TimeOfDay>, end: Option<TimeOfDay>, now: DateTime): (Option<DateTime>, Option<DateTime>)
    requires now.Valid()
    requires day.Some? ==> day.value.Valid()
    requires start.Some? ==> start.value.Valid()
    requires end.Some? ==> end.value.Valid()
  {
    match (day, start)
    case (Some(d), Some(t)) =>
      var s := Combine(d, t);
      (Some(s), EndOn(d, end, s))
    case (Some(_), None) => (None, None)
    case (None, Some(t)) =>
      var tentative := Combine(now.date, t);
      var s := if Before(tentative, now) then PlusDays(tentative, 1) else tentative;
      (Some(s), EndOn(s.date, end, s))
    case (None, None) => (None, None)
  }

  /** A start exists exactly when a start time of day was found. With a
      day it is that day at that time; without one it is the first moment
      at that time not before now, less than a day ahead. An end comes at
      or after the start and less than a day later. */
  lemma ScheduleSpec(day: Option<Date>, start: Option<TimeOfDay>, end: Option<TimeOfDay>, now: DateTime)
    requires now.Valid()
    requires day.Some? ==> day.value.Valid()
    requires start.Some? ==> start.value.Valid()
    requires end.Some? ==> end.value.Valid()
    ensures var (s, e) := Schedule(day, start, end, now);
            (s.Some? <==> start.Some?) &&
            (e.Some? <==> start.Some? && end.Some?) &&
            (s.Some? ==> s.value.Valid() && s.value.hour == start.value.hour && s.value.minute == start.value.minute &&
                         s.value.second == 0 && s.value.micro == 0) &&
            (s.Some? && day.Some? ==> s.value.date == day.value) &&
            (s.Some? && day.None? ==> !Before(s.value, now) && Instant(s.value) - Instant(now) < 24 * MicrosPerHour) &&
            (e.Some? ==> e.value.Valid() && 0 <= Instant(e.value) - Instant(s.value) < 24 * MicrosPerHour)
  {
    match (day, start)
    case (Some(d), Some(t)) => EndOnSpec(d, end, Combine(d, t));
    case (Some(_), None) =>
    case (None, Some(t)) =>
      var tentative := Combine(now.date, t);
      var s := if Before(tentative, now) then PlusDays(tentative, 1) else tentative;
      EndOnSpec(s.date, end, s);
      InstantParts(tentative);
      InstantParts(now);
      BeforeInstant(tentative, now);
      BeforeInstant(s, now);
      if Before(tentative, now) {
        PlusDaysInstant(tentative, 1);
      }
    case (None, None) =>
  }

  // ---------------------------------------------------------------------------
  // The whole of `parse_text`

  /** What `parse_text` returns, or the `ValueError` a day number raises. */
  datatype ParseResult =
    | Parsed(title: string, start: Option<DateTime>, end: Option<DateTime>, tokens: seq<string>, labels: seq<string>)
    | DateError

  function DayOf(r: DayResult): Option<Date> {
    if r.Day? then Some(r.date) else None
  }

  /** The title, or the fallback title when it is empty. */
  function Title(tokens: seq<string>, labels: seq<string>): string {
    var title := Strip(Join(TitleTokens(tokens, labels), " "));
    if title == [] then Strip(Join(FallbackTokens(tokens, labels), " ")) else title
  }

  /** The day the day tokens name. */
  function FoundDay(tokens: seq<string>, labels: seq<string>, now: DateTime): (r: DayResult)
    requires now.Valid() && now.date.year <= MaxYear
    ensures r.Day? ==> r.date.Valid()
  {
    DayFromTokensValid(Picked(tokens, labels, IsDayLabel), now.date);
    DayFromTokens(Picked(tokens, labels, IsDayLabel), now.date)
  }

  /** Start and end date-times for the found day and the times of day. */
  function StartEnd(found: DayResult, tokens: seq<string>, labels: seq<string>, now: DateTime, rule: SkipRule): (Option<DateTime>, Option<DateTime>)
    requires now.Valid()
    requires found.Day? ==> found.date.Valid()
  {
    var times := StartEndTimes(tokens, labels, rule);
    Schedule(DayOf(found), times.0, times.1, now)
  }

  /** `parse_text` for the text, the labels the tagger predicts for its
      words, and the moment `now`. */
  function ParseCore(text: string, predicted: seq<string>, now: DateTime, rule: SkipRule): ParseResult
    requires now.Valid() && now.date.year <= MaxYear
  {
    if Strip(text) == [] then Parsed("", None, None, [], [])
    else
      var words := Split(text);
      var labels := FixLabels(words, predicted);
      var found := FoundDay(words, labels, now);
      if found.DayError? then DateError
      else
        var dts := StartEnd(found, words, labels, now, rule);
        Parsed(Title(words, labels), dts.0, dts.1, words, labels)
  }

  /** `parse_text` as the sequence of loops it is. */
  method ParseText(text: string, predicted: seq<string>, now: DateTime, rule: SkipRule) returns (r: ParseResult)
    requires now.Valid() && now.date.year <= MaxYear
    ensures r == ParseCore(text, predicted, now, rule)
  {
    if Strip(text) == [] {
      return Parsed("", None, None, [], []);
    }
    var words := Split(text);
    var labels := FixLabelsLoop(words, predicted);
    var title := TitleLoop(words, labels);
    var dayTokens := Picked(words, labels, IsDayLabel);
    var found := ParseDayFromTokens(dayTokens, now);
    assert found == FoundDay(words, labels, now);
    if found.DayError? {
      return DateError;
    }
    var startTime, endTime := TimesSteps(words, labels, rule);
    var start, end := ScheduleSteps(DayOf(found), startTime, endTime, now);
    assert (start, end) == StartEnd(found, words, labels, now, rule);
    if title == [] {
      title := Strip(Join(FallbackTokens(words, labels), " "));
    }
    assert title == Title(words, labels);
    r := Parsed(title, start, end, words, labels);
    assert r == ParseCore(text, predicted, now, rule) by {
      assert ParseCore(text, predicted, now, rule) == Parsed(Title(words, labels), start, end, words, labels);
    }
  }

  /** The `if the_date and start_time` chain written as statements. */
  method ScheduleSteps(day: Option<Date>, startTime: Option<TimeOfDay>, endTime: Option<TimeOfDay>, now: DateTime)
    returns (start: Option<DateTime>, end: Option<DateTime>)
    requires now.Valid()
    requires day.Some? ==> day.value.Valid()
    requires startTime.Some? ==> startTime.value.Valid()
    requires endTime.Some? ==> endTime.value.Valid()
    ensures (start, end) == Schedule(day, startTime, endTime, now)
  {
    start, end := None, None;
    if day.Some? && startTime.Some? {
      var s := Combine(day.value, startTime.value);
      start := Some(s);
      if endTime.Some? {
        var e := Combine(day.value, endTime.value);
        if Before(e, s) {
          e := PlusDays(e, 1);
        }
        end := Some(e);
      }
    } else if day.Some? && startTime.None? {
      start := None;
    } else if day.None? && startTime.Some? {
      var tentative := Combine(now.date, startTime.value);
      if Before(tentative, now) {
        tentative := PlusDays(tentative, 1);
      }
      start := Some(tentative);
      if endTime.Some? {
        var e := Combine(tentative.date, endTime.value);
        if Before(e, tentative) {
          e := PlusDays(e, 1);
        }
        end := Some(e);
      }
    }
  }

  // ---------------------------------------------------------------------------
  // What `parse_text` promises

  /** Blank text gives the empty result; otherwise the tokens are the words
      of the text and there is one fixed label per paired word. */
  lemma ParseCoreShape(text: string, predicted: seq<string>, now: DateTime, rule: SkipRule)
    requires now.Valid() && now.date.year <= MaxYear
    ensures Strip(text) == [] ==> ParseCore(text, predicted, now, rule) == Parsed("", None, None, [], [])
    ensures Strip(text) != [] && ParseCore(text, predicted, now, rule).Parsed? ==>
              var r := ParseCore(text, predicted, now, rule);
              r.tokens == Split(text) && |r.labels| == Paired(r.tokens, predicted) &&
              forall k :: 0 <= k < |r.labels| && r.labels[k] == Other ==> Lower(r.tokens[k]) !in Weekdays
  {
    if Strip(text) != [] {
      FixLabelsSpec(Split(text), predicted);
    }
  }

  /** The parse fails exactly when the text is not blank, the day words
      hold no relative word and no weekday name, and the first day number
      among them is not a possible day of any month, or its day has passed
      in December of the last representable year. */
  lemma ParseCoreError(text: string, predicted: seq<string>, now: DateTime, rule: SkipRule)
    requires now.Valid() && now.date.year <= MaxYear
    ensures ParseCore(text, predicted, now, rule).DateError? <==>
              Strip(text) != [] &&
              var words := Split(text);
              var toks := Picked(words, FixLabels(words, predicted), IsDayLabel);
              FirstHit(toks, RelativeOf).None? && FirstHit(toks, WeekdayOf).None? &&
              FirstHit(toks, DayNumber).Some? &&
              var d := FirstHit(toks, DayNumber).value;
              d < 1 || d > 31 || (now.date.year == MaxYear && now.date.month == 12 && d < now.date.day)
  {
    if Strip(text) != [] {
      var words := Split(text);
      DayFromTokensError(Picked(words, FixLabels(words, predicted), IsDayLabel), now.date);
    }
  }

  /** Start and end as the parse returns them: a start exactly when a time
      of day was found; an end only with a start, less than a day after it;
      a start on the day named when one is named; with no day named, a
      start not before now and less than a day ahead. */
  lemma ParseCoreTimes(text: string, predicted: seq<string>, now: DateTime, rule: SkipRule)
    requires now.Valid() && now.date.year <= MaxYear
    requires Strip(text) != [] && ParseCore(text, predicted, now, rule).Parsed?
    ensures var r := ParseCore(text, predicted, now, rule);
            var found := FoundDay(r.tokens, r.labels, now);
            (r.start.Some? <==> StartEndTimes(r.tokens, r.labels, rule).0.Some?) &&
            (r.end.Some? ==> r.end.value.Valid() && r.start.Some? &&
                             0 <= Instant(r.end.value) - Instant(r.start.value) < 24 * MicrosPerHour) &&
            (r.start.Some? ==> r.start.value.Valid()) &&
            (r.start.Some? && found.Day? ==> r.start.value.date == found.date) &&
            (r.start.Some? && found.NoDay? ==>
               !Before(r.start.value, now) && Instant(r.start.value) - Instant(now) < 24 * MicrosPerHour)
  {
    var r := ParseCore(text, predicted, now, rule);
    var found := FoundDay(r.tokens, r.labels, now);
    var times := StartEndTimes(r.tokens, r.labels, rule);
    ScheduleSpec(DayOf(found), times.0, times.1, now);
  }

  /** The title is given back stripped: the title span or "B-TITLE" words
      when they leave some text, the fallback words otherwise. */
  lemma TitleSpec(tokens: seq<string>, labels: seq<string>)
    ensures Title(tokens, labels) == Strip(Title(tokens, labels))
    ensures var first := Strip(Join(TitleTokens(tokens, labels), " "));
            (first != [] ==> Title(tokens, labels) == first) &&
            (first == [] ==> Title(tokens, labels) == Strip(Join(FallbackTokens(tokens, labels), " ")))
  {
    var a, b := Join(TitleTokens(tokens, labels), " "), Join(FallbackTokens(tokens, labels), " ");
    StripIdempotent(a);
    StripIdempotent(b);
  }
}
