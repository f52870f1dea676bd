/** The edit form of the event dialog
    (`frontend/src/components/EventViewModal.jsx`): the draft derived from
    an event, the values a save sends, and the dialog state that editing,
    cancelling and saving change. */
module EventDraft {
  import opened Common
  import opened Calendar
  import opened Events

  /** `editedEvent`: the title and three text fields. */
  datatype Draft = Draft(title: string, date: string, startTime: string, endTime: string)

  const EmptyDraft := Draft("", "", "", "")

  /** What Luxon writes for a date-time it could not read. */
  const InvalidDateTime := "Invalid DateTime"

  /** The draft of an event: its start date as `yyyy-MM-dd`, its start and
      end times as `HH:mm`, and an empty end time when it has no end. */
  function DraftOf(e: Event): (d: Draft)
    requires ValidEvent(e)
  {
    Draft(e.title, FormatDate(e.start.date), FormatHM(e.start.hour, e.start.minute),
          if e.end.Some? then FormatHM(e.end.value.hour, e.end.value.minute) else "")
  }

  /** The body `handleSave` sends. */
  datatype Update = Update(title: string, start: string, end: string)

  function Shown(t: Option<DateTime>): string
    requires t.Some? ==> t.value.Valid()
  {
    if t.Some? then FormatIsoSeconds(t.value) else InvalidDateTime
  }

  /** The start is the draft's date with its start time; the end is the
      same date with the end time, or one hour after the start when the end
      time is empty. Both are written `yyyy-MM-dd'T'HH:mm:ss`. */
  function SaveOf(d: Draft): Update {
    var start := ParseDateHM(d.date + " " + d.startTime);
    var end := if d.endTime != "" then ParseDateHM(d.date + " " + d.endTime)
               else if start.Some? then Some(PlusHour(start.value)) else None;
    Update(d.title, Shown(start), Shown(end))
  }

  /** A draft of well-formed fields is saved on its own date: a given end
      time is not moved to the next day, even when it is earlier than the
      start time. */
  lemma SaveOfFields(title: string, date: Date, sh: nat, sm: nat, eh: nat, em: nat)
    requires date.Valid() && date.year <= MaxYear && sh < 24 && sm < 60 && eh < 24 && em < 60
    ensures SaveOf(Draft(title, FormatDate(date), FormatHM(sh, sm), FormatHM(eh, em))) ==
            Update(title, FormatIsoSeconds(DateTime(date, sh, sm, 0, 0)), FormatIsoSeconds(DateTime(date, eh, em, 0, 0)))
  {
    ParseFormatDateHM(date, sh, sm);
    ParseFormatDateHM(date, eh, em);
    assert FormatHM(eh, em) != [] by { assert |FormatHM(eh, em)| >= 1; }
  }

  /** With an empty end time the end is one hour after the start, which
      may be on the next day. */
  lemma SaveOfNoEnd(title: string, date: Date, sh: nat, sm: nat)
    requires date.Valid() && date.year <= MaxYear && sh < 24 && sm < 60
    ensures var s := DateTime(date, sh, sm, 0, 0);
            SaveOf(Draft(title, FormatDate(date), FormatHM(sh, sm), "")) ==
              Update(title, FormatIsoSeconds(s), FormatIsoSeconds(PlusHour(s))) &&
            Instant(PlusHour(s)) == Instant(s) + MicrosPerHour
  {
    ParseFormatDateHM(date, sh, sm);
    PlusHourInstant(DateTime(date, sh, sm, 0, 0));
  }

  /** Saving the unchanged draft of an event with whole minutes whose end
      is on its start day reproduces its start and end. */
  lemma SaveDraftRoundTrip(e: Event)
    requires ValidEvent(e) && e.start.date.year <= MaxYear && e.start.second == 0
    requires e.end.Some? && e.end.value.date == e.start.date && e.end.value.second == 0
    ensures SaveOf(DraftOf(e)) == Update(e.title, FormatIsoSeconds(e.start), FormatIsoSeconds(e.end.value))
  {
    var s, t := e.start, e.end.value;
    SaveOfFields(e.title, s.date, s.hour, s.minute, t.hour, t.minute);
    assert FormatIsoSeconds(DateTime(s.date, s.hour, s.minute, 0, 0)) == FormatIsoSeconds(s);
    assert FormatIsoSeconds(DateTime(s.date, t.hour, t.minute, 0, 0)) == FormatIsoSeconds(t);
  }

  /** Saving the unchanged draft of an event without an end gives it an
      end one hour after its start. */
  lemma SaveDraftNoEnd(e: Event)
    requires ValidEvent(e) && e.start.date.year <= MaxYear && e.start.second == 0 && e.end.None?
    ensures var s := e.start.(micro := 0);
            SaveOf(DraftOf(e)) == Update(e.title, FormatIsoSeconds(e.start), FormatIsoSeconds(PlusHour(s))) &&
            Instant(PlusHour(s)) == Instant(s) + MicrosPerHour
  {
    SaveOfNoEnd(e.title, e.start.date, e.start.hour, e.start.minute);
    assert DateTime(e.start.date, e.start.hour, e.start.minute, 0, 0) == e.start.(micro := 0);
  }

  /** A date field that is not a date makes both values invalid. */
  lemma SaveOfBadDate(d: Draft)
    requires |d.date| == 10 && ParseDate(d.date).None?
    ensures SaveOf(d).start == InvalidDateTime && SaveOf(d).end == InvalidDateTime
  {
    assert (d.date + " " + d.startTime)[..10] == d.date;
    assert (d.date + " " + d.endTime)[..10] == d.date;
  }

  /** The dialog's own state: whether the form is shown, the draft, and
      whether it has asked its owner to close it (`onClose`). */
  class Dialog {
    var isEditing: bool
    var draft: Draft
    var closed: bool

    constructor()
      ensures !isEditing && draft == EmptyDraft && !closed
    {
      isEditing, draft, closed := false, EmptyDraft, false;
    }

    /** The effect that runs when the shown event changes. */
    method EventChanged(event: Option<Event>)
      requires event.Some? ==> ValidEvent(event.value)
      modifies this
      ensures isEditing == old(isEditing) && closed == old(closed)
      ensures draft == if event.Some? then DraftOf(event.value) else old(draft)
    {
      if event.Some? {
        draft := DraftOf(event.value);
      }
    }

    method Edit()
      modifies this
      ensures isEditing && draft == old(draft) && closed == old(closed)
    {
      isEditing := true;
    }

    /** A field of the form is edited. */
    method SetDraft(d: Draft)
      modifies this
      ensures draft == d && isEditing == old(isEditing) && closed == old(closed)
    {
      draft := d;
    }

    /** `handleCancel`: leaves the form and restores the event's draft. */
    method Cancel(event: Option<Event>)
      requires event.Some? ==> ValidEvent(event.value)
      modifies this
      ensures !isEditing && closed == old(closed)
      ensures draft == if event.Some? then DraftOf(event.value) else old(draft)
    {
      isEditing := false;
      if event.Some? {
        draft := DraftOf(event.value);
      }
    }

    /** `handleSave`: sends the event's own key with the saved values; the
        form and the dialog close only when `onUpdate` succeeds. */
    method Save(event: Event, succeeded: bool) returns (id: int, sent: Update)
      modifies this
      ensures id == event.id && sent == SaveOf(old(draft)) && draft == old(draft)
      ensures succeeded ==> !isEditing && closed
      ensures !succeeded ==> isEditing == old(isEditing) && closed == old(closed)
    {
      id, sent := event.id, SaveOf(draft);
      if succeeded {
        isEditing := false;
        closed := true;
      }
    }
  }

  /** Cancelling and then saving sends the event's own start and end back. */
  method CancelThenSave(dialog: Dialog, e: Event) returns (sent: Update)
    requires ValidEvent(e) && e.start.date.year <= MaxYear && e.start.second == 0
    requires e.end.Some? && e.end.value.date == e.start.date && e.end.value.second == 0
    modifies dialog
    ensures sent == Update(e.title, FormatIsoSeconds(e.start), FormatIsoSeconds(e.end.value))
  {
    dialog.Cancel(Some(e));
    var id;
    id, sent := dialog.Save(e, true);
    SaveDraftRoundTrip(e);
  }
}
