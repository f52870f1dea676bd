/** The stand-alone service in `app.py`: its `parse_text` wrapper, which
    turns an unusable parse into an error message, the `/parse` endpoint,
    and the event table behind `create_event` and `delete_event`. The
    table has no owner column and deleting checks no owner. */
module LegacyApp {
  import opened Common
  import opened Calendar
  import opened Events
  import opened NlpParser

  const NotUnderstood := "не успях да разбера текста. Опитай да преформулираш."
  const InternalError := "Internal server error"
  const NotFound := "Event not found"
  const DeletedMessage := "Event deleted successfully"

  // ---------------------------------------------------------------------------
  // `parse_text`

  /** The result of `parse_text`: a title and a start, an error message, or
      the `ValueError` of an impossible day number, which propagates. */
  datatype AppResult =
    | Understood(title: string, start: DateTime, end: Option<DateTime>, tokens: seq<string>, labels: seq<string>)
    | NotParsed(error: string)
    | Raised

  function AppParseText(text: string, predicted: seq<string>, now: DateTime): AppResult
    requires now.Valid() && now.date.year <= MaxYear
  {
    if Strip(text) == [] then NotParsed(NotUnderstood)
    else
      match ParseCore(text, predicted, now, ProgramRule)
      case DateError => Raised
      case Parsed(title, start, end, tokens, labels) =>
        if title == [] || start.None? then NotParsed(NotUnderstood)
        else Understood(title, start.value, end, tokens, labels)
  }

  /** Blank text is refused; a success always has a title and a start, an
      end less than a day after the start, and is the rule layer's own
      result; the only message is the one asking to rephrase. */
  lemma AppParseTextSpec(text: string, predicted: seq<string>, now: DateTime)
    requires now.Valid() && now.date.year <= MaxYear
    ensures Strip(text) == [] ==> AppParseText(text, predicted, now) == NotParsed(NotUnderstood)
    ensures AppParseText(text, predicted, now).NotParsed? ==>
              AppParseText(text, predicted, now).error == NotUnderstood
    ensures AppParseText(text, predicted, now).Raised? <==> ParseCore(text, predicted, now, ProgramRule).DateError?
    ensures var r := AppParseText(text, predicted, now);
            r.Understood? ==>
              r.title != [] && r.start.Valid() &&
              ParseCore(text, predicted, now, ProgramRule) == Parsed(r.title, Some(r.start), r.end, r.tokens, r.labels) &&
              (r.end.Some? ==> r.end.value.Valid() && 0 <= Instant(r.end.value) - Instant(r.start) < 24 * MicrosPerHour)
    ensures var p := ParseCore(text, predicted, now, ProgramRule);
            Strip(text) != [] && p.Parsed? && p.title != [] && p.start.Some? ==>
              AppParseText(text, predicted, now).Understood?
  {
    ParseCoreShape(text, predicted, now, ProgramRule);
    if Strip(text) != [] && ParseCore(text, predicted, now, ProgramRule).Parsed? {
      ParseCoreTimes(text, predicted, now, ProgramRule);
    }
  }

  // ---------------------------------------------------------------------------
  // `/parse`

  /** `parse_event` for the request's "text" (`None` when missing). */
  function ParseEvent(text: Option<string>, predicted: seq<string>, now: DateTime): ParseReply
    requires now.Valid() && now.date.year <= MaxYear
  {
    if text.None? || text.value == [] then ParseError(NoText)
    else
      AppParseTextSpec(text.value, predicted, now);
      match AppParseText(text.value, predicted, now)
      case Raised => Crashed
      case NotParsed(e) => ParseError(e)
      case Understood(title, start, end, tokens, labels) =>
        ParseOk(title, PythonIsoFormat(start), PythonIsoFormat(EndOrDefault(start, end)), tokens, labels)
  }

  /** No text gives the missing-text error; otherwise the reply follows
      `parse_text`: a success exactly when it understood the text, with the
      parsed start and the parsed end or, without one, the start plus one
      hour; a crash exactly when it raised; its message when it did not
      understand. */
  lemma ParseEventSpec(text: Option<string>, predicted: seq<string>, now: DateTime)
    requires now.Valid() && now.date.year <= MaxYear
    ensures text.None? || text == Some([]) ==> ParseEvent(text, predicted, now) == ParseError(NoText)
    ensures ParseEvent(text, predicted, now).ParseOk? ==>
              text.Some? && AppParseText(text.value, predicted, now).Understood? &&
              var u := AppParseText(text.value, predicted, now);
              u.start.Valid() &&
              ParseEvent(text, predicted, now).start == PythonIsoFormat(u.start) &&
              exists e: DateTime :: e.Valid() && ParseEvent(text, predicted, now).end == PythonIsoFormat(e) &&
                                   (u.end.Some? ==> e == u.end.value) &&
                                   (u.end.None? ==> Instant(e) == Instant(u.start) + MicrosPerHour)
    ensures text.Some? && text.value != [] ==>
              var u := AppParseText(text.value, predicted, now);
              var r := ParseEvent(text, predicted, now);
              (r.ParseOk? <==> u.Understood?) &&
              (r.Crashed? <==> u.Raised?) &&
              (u.NotParsed? ==> r == ParseError(u.error)) &&
              (u.Understood? ==> r.title == u.title && r.tokens == u.tokens && r.labels == u.labels)
  {
    if text.Some? && text.value != [] {
      AppParseTextSpec(text.value, predicted, now);
      var u := AppParseText(text.value, predicted, now);
      if u.Understood? {
        EndOrDefaultSpec(u.start, u.end);
        var e := EndOrDefault(u.start, u.end);
        assert ParseEvent(text, predicted, now).end == PythonIsoFormat(e);
      }
    }
  }

  // ---------------------------------------------------------------------------
  // The event table

  /** A row of the `events` table. */
  datatype Row = Row(id: int, title: string, start: DateTime, end: Option<DateTime>, rawText: string)

  predicate RowValid(r: Row) {
    r.start.Valid() && (r.end.Some? ==> r.end.value.Valid())
  }

  /** Primary keys are distinct and every stored time is a real one. */
  predicate TableValid(rows: seq<Row>) {
    (forall i, j :: 0 <= i < j < |rows| ==> rows[i].id != rows[j].id) &&
    (forall k :: 0 <= k < |rows| ==> RowValid(rows[k]))
  }

  function RowId(r: Row): int { r.id }

  /** The key a new row gets. */
  function NewId(rows: seq<Row>): int {
    FreshId(rows, RowId)
  }

  /** A `POST /events` request body: the direct fields, where a start or
      end that `fromisoformat` cannot read is `None` inside and a missing
      or empty end is `None` outside; or the text to parse. */
  datatype Payload =
    | Direct(title: string, start: Option<DateTime>, end: Option<Option<DateTime>>, rawText: string)
    | FromText(text: Option<string>)

  predicate PayloadValid(p: Payload) {
    p.Direct? ==> (p.start.Some? ==> p.start.value.Valid()) &&
                  (p.end.Some? && p.end.value.Some? ==> p.end.value.value.Valid())
  }

  /** What `create_event` inserts, or the error it answers with. */
  datatype Plan = Insert(title: string, start: DateTime, end: DateTime, rawText: string) | Refused(error: string)

  function PlanCreate(p: Payload, predicted: seq<string>, now: DateTime): (r: Plan)
    requires now.Valid() && now.date.year <= MaxYear && PayloadValid(p)
    ensures r.Insert? ==> r.start.Valid() && r.end.Valid()
  {
    match p
    case Direct(title, start, end, rawText) =>
      if start.None? then Refused(InternalError)
      else
        (match end
         case None => Insert(title, start.value, PlusHour(start.value), rawText)
         case Some(None) => Refused(InternalError)
         case Some(Some(e)) => Insert(title, start.value, e, rawText))
    case FromText(text) =>
      if text.None? || text.value == [] then Refused(NoText)
      else
        AppParseTextSpec(text.value, predicted, now);
        match AppParseText(text.value, predicted, now)
        case Raised => Refused(InternalError)
        case NotParsed(e) => Refused(e)
        case Understood(title, start, end, _, _) => Insert(title, start, EndOrDefault(start, end), text.value)
  }

  /** With no end given, the row ends one hour after it starts, on both the
      direct and the text path; a text row keeps the text as its raw text. */
  lemma PlanCreateSpec(p: Payload, predicted: seq<string>, now: DateTime)
    requires now.Valid() && now.date.year <= MaxYear && PayloadValid(p)
    ensures p.Direct? && p.start.Some? && p.end.None? ==>
              var r := PlanCreate(p, predicted, now);
              r.Insert? && r.start == p.start.value && Instant(r.end) == Instant(r.start) + MicrosPerHour
    ensures p.Direct? && p.start.Some? && p.end.Some? && p.end.value.Some? ==>
              PlanCreate(p, predicted, now) == Insert(p.title, p.start.value, p.end.value.value, p.rawText)
    ensures p.Direct? && (p.start.None? || p.end == Some(None)) ==>
              PlanCreate(p, predicted, now) == Refused(InternalError)
    ensures p.FromText? && (p.text.None? || p.text == Some([])) ==> PlanCreate(p, predicted, now) == Refused(NoText)
    ensures p.FromText? && PlanCreate(p, predicted, now).Insert? ==>
              var r := PlanCreate(p, predicted, now);
              p.text.Some? && r.rawText == p.text.value && r.title != [] &&
              var u := AppParseText(p.text.value, predicted, now);
              u.Understood? && r.start == u.start &&
              (u.end.None? ==> Instant(r.end) == Instant(r.start) + MicrosPerHour)
  {
    if p.Direct? && p.start.Some? {
      PlusHourInstant(p.start.value);
    }
    if p.FromText? && p.text.Some? && p.text.value != [] {
      AppParseTextSpec(p.text.value, predicted, now);
      var u := AppParseText(p.text.value, predicted, now);
      if u.Understood? {
        EndOrDefaultSpec(u.start, u.end);
      }
    }
  }

  /** The index of the row with key `id`, the one `.first()` returns. */
  function FindRow(rows: seq<Row>, id: int): (r: Option<nat>)
    ensures r.Some? ==> r.value < |rows| && rows[r.value].id == id &&
                        forall k :: 0 <= k < r.value ==> rows[k].id != id
    ensures r.None? ==> forall k :: 0 <= k < |rows| ==> rows[k].id != id
  {
    if rows == [] then None
    else if rows[0].id == id then Some(0)
    else match FindRow(rows[1..], id)
      case Some(k) => Some(k + 1)
      case None => None
  }

  /** The replies of the create and delete endpoints. */
  datatype Reply =
    | Created(id: int, title: string, start: string, end: Option<string>)
    | Deleted(message: string)
    | Failed(error: string)

  /** Removing the row at `k` from a valid table leaves a valid table in
      which no row has that key and every other row is kept in order. */
  lemma RemoveRowSpec(rows: seq<Row>, k: nat)
    requires TableValid(rows) && k < |rows|
    ensures var r := rows[..k] + rows[k + 1..];
            TableValid(r) && |r| == |rows| - 1 &&
            (forall j :: 0 <= j < |r| ==> r[j].id != rows[k].id) &&
            (forall j :: 0 <= j < |rows| && j != k ==> rows[j] in r) &&
            (forall j :: 0 <= j < |r| ==> r[j] == if j < k then rows[j] else rows[j + 1])
  {
    var r := rows[..k] + rows[k + 1..];
    forall j | 0 <= j < |rows| && j != k ensures rows[j] in r {
      if j < k { assert r[j] == rows[j]; } else { assert r[j - 1] == rows[j]; }
    }
  }

  /** Appending a row with a fresh key keeps the table valid. */
  lemma AppendRowSpec(rows: seq<Row>, row: Row)
    requires TableValid(rows) && RowValid(row) && row.id == NewId(rows)
    ensures TableValid(rows + [row])
  {
  }

  /** The `events` table of `app.py`, held in memory in insertion order. */
  class Store {
    var rows: seq<Row>

    predicate Valid()
      reads this
    {
      TableValid(rows)
    }

    constructor()
      ensures Valid() && rows == []
    {
      rows := [];
    }

    /** `create_event`: the planned row is appended under a fresh key and
        echoed back; a refused request leaves the table as it was. */
    method CreateEvent(p: Payload, predicted: seq<string>, now: DateTime) returns (reply: Reply)
      requires Valid() && now.Valid() && now.date.year <= MaxYear && PayloadValid(p)
      modifies this
      ensures Valid()
      ensures match PlanCreate(p, predicted, now)
              case Refused(e) => reply == Failed(e) && rows == old(rows)
              case Insert(title, start, end, rawText) =>
                var id := NewId(old(rows));
                rows == old(rows) + [Row(id, title, start, Some(end), rawText)] &&
                reply == Created(id, title, PythonIsoFormat(start), Some(PythonIsoFormat(end)))
    {
      var plan := PlanCreate(p, predicted, now);
      if plan.Refused? {
        return Failed(plan.error);
      }
      var row := Row(NewId(rows), plan.title, plan.start, Some(plan.end), plan.rawText);
      AppendRowSpec(rows, row);
      rows := rows + [row];
      reply := Created(row.id, row.title, PythonIsoFormat(plan.start), Some(PythonIsoFormat(plan.end)));
    }

    /** `delete_event`: an unknown key answers "Event not found" and changes
        nothing; otherwise exactly that row goes. No owner is checked. */
    method DeleteEvent(id: int) returns (reply: Reply)
      requires Valid()
      modifies this
      ensures Valid()
      ensures (forall k :: 0 <= k < |old(rows)| ==> old(rows)[k].id != id) ==>
                reply == Failed(NotFound) && rows == old(rows)
      ensures (exists k :: 0 <= k < |old(rows)| && old(rows)[k].id == id) ==>
                reply == Deleted(DeletedMessage) && |rows| == |old(rows)| - 1 &&
                (forall j :: 0 <= j < |rows| ==> rows[j].id != id) &&
                (forall j :: 0 <= j < |old(rows)| && old(rows)[j].id != id ==> old(rows)[j] in rows) &&
                exists k :: 0 <= k < |old(rows)| && old(rows)[k].id == id &&
                            rows == old(rows)[..k] + old(rows)[k + 1..]
    {
      var k := FindRow(rows, id);
      if k.None? {
        return Failed(NotFound);
      }
      RemoveRowSpec(rows, k.value);
      forall j | 0 <= j < |rows| && rows[j].id != id ensures j != k.value {}
      rows := rows[..k.value] + rows[k.value + 1..];
      reply := Deleted(DeletedMessage);
    }
  }
}
