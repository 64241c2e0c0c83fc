/** The event manager: the add-event form, adding and removing events, the
    events of the selected day and the per-type summary. The event list
    itself belongs to the caller; the manager hands a new list back through
    its change notification, which the model returns as a value. */
module Events {
  import opened Wrappers
  import opened Dates
  import opened Seqs

  /** An event; `kind` is the event's `type` field. */
  datatype Event = Event(id: int, title: string, date: DateValue, kind: string,
                         color: string, description: string, time: string)

  /** The type an event is styled by: its `type`, or "default" when that
      is empty. */
  function KindClass(e: Event): (k: string)
    ensures k != ""
    ensures e.kind != "" ==> k == e.kind
  {
    if e.kind == "" then "default" else e.kind
  }

  /** The fields of the add-event form. */
  datatype EventForm = EventForm(title: string, kind: string, color: string,
                                 description: string, time: string)

  /** One entry of the fixed list of event types. */
  datatype EventType = EventType(value: string, name: string, color: string)

  const DefaultColor: string := "#4b6cb7"

  /** The form as it starts and as it is reset after an event is added. */
  const DefaultForm: EventForm := EventForm("", "default", DefaultColor, "", "")

  const EventTypes: seq<EventType> := [
    EventType("default", "Default", "#4b6cb7"),
    EventType("meeting", "Meeting", "#ff6b6b"),
    EventType("personal", "Personal", "#4ecdc4"),
    EventType("work", "Work", "#45b7d1"),
    EventType("holiday", "Holiday", "#96ceb4"),
    EventType("deadline", "Deadline", "#feca57"),
    EventType("appointment", "Appointment", "#ff9ff3")
  ]

  /** The characters `String.prototype.trim` removes: the ECMAScript
      white space and line terminator characters. */
  predicate IsWhitespace(c: char) {
    c == ' ' || ('\t' <= c <= '\r') || c == '\U{00A0}' || c == '\U{1680}'
    || ('\U{2000}' <= c <= '\U{200A}') || c == '\U{2028}' || c == '\U{2029}'
    || c == '\U{202F}' || c == '\U{205F}' || c == '\U{3000}' || c == '\U{FEFF}'
  }

  function TrimStart(s: string): (t: string)
    ensures |t| <= |s| && t == s[|s| - |t|..]
    ensures t == [] || !IsWhitespace(t[0])
    ensures forall k :: 0 <= k < |s| - |t| ==> IsWhitespace(s[k])
  {
    if s != [] && IsWhitespace(s[0]) then TrimStart(s[1..]) else s
  }

  function TrimEnd(s: string): (t: string)
    ensures |t| <= |s| && t == s[..|t|]
    ensures t == [] || !IsWhitespace(t[|t| - 1])
    ensures forall k :: |t| <= k < |s| ==> IsWhitespace(s[k])
  {
    if s != [] && IsWhitespace(s[|s| - 1]) then TrimEnd(s[..|s| - 1]) else s
  }

  /** `s.trim()`: a slice of `s` that leaves out only white space at either
      end, and neither of its own ends is white space. */
  function Trim(s: string): (t: string)
    ensures |t| <= |s|
    ensures t == [] || (!IsWhitespace(t[0]) && !IsWhitespace(t[|t| - 1]))
    ensures exists i, j :: 0 <= i <= j <= |s| && t == s[i..j]
              && (forall k :: 0 <= k < i ==> IsWhitespace(s[k]))
              && (forall k :: j <= k < |s| ==> IsWhitespace(s[k]))
  {
    var front := TrimStart(s);
    var t := TrimEnd(front);
    assert t != [] ==> t[0] == front[0];
    TrimmedSlice(s, front, t);
    assert 0 <= |s| - |front| <= |s| - |front| + |t| <= |s|;
    t
  }

  /** A prefix `t` of a suffix `front` of `s`, with only white space after
      it in `front`, is a slice of `s` with only white space after it. */
  lemma TrimmedSlice(s: string, front: string, t: string)
    requires |front| <= |s| && front == s[|s| - |front|..]
    requires |t| <= |front| && t == front[..|t|]
    requires forall k :: |t| <= k < |front| ==> IsWhitespace(front[k])
    ensures t == s[|s| - |front|..|s| - |front| + |t|]
    ensures forall k :: |s| - |front| + |t| <= k < |s| ==> IsWhitespace(s[k])
  {
    var i := |s| - |front|;
    forall k | i + |t| <= k < |s|
      ensures IsWhitespace(s[k])
    {
      assert s[k] == front[k - i];
    }
  }

  /** A string that trims to nothing is made of white space only. */
  lemma {:induction false} TrimEmpty(s: string)
    ensures Trim(s) == "" <==> forall i :: 0 <= i < |s| ==> IsWhitespace(s[i])
  {
    if s != [] && IsWhitespace(s[0]) {
      TrimEmpty(s[1..]);
      assert forall i :: 1 <= i < |s| ==> s[i] == s[1..][i - 1];
    } else if s != [] {
      var t := TrimStart(s);
      assert t == s;
      TrimEndKeeps(s);
    }
  }

  /** Trimming the end keeps a string that starts with a non-space. */
  lemma {:induction false} TrimEndKeeps(s: string)
    requires s != [] && !IsWhitespace(s[0])
    ensures TrimEnd(s) != []
  {
    if IsWhitespace(s[|s| - 1]) {
      TrimEndKeeps(s[..|s| - 1]);
    }
  }

  /** The events on the calendar day of `day` (`toDateString` equality),
      in list order. */
  function EventsOn(events: seq<Event>, day: DateValue): (r: seq<Event>)
    ensures forall i :: 0 <= i < |r| ==> r[i] in events && SameDateString(r[i].date, day)
    ensures forall i :: 0 <= i < |events| && SameDateString(events[i].date, day) ==> events[i] in r
  {
    Filter(events, (e: Event) => SameDateString(e.date, day))
  }

  /** The day filter works element by element, so it keeps list order. */
  lemma EventsOnAppend(a: seq<Event>, b: seq<Event>, day: DateValue)
    ensures EventsOn(a + b, day) == EventsOn(a, day) + EventsOn(b, day)
  {
    FilterAppend(a, b, (e: Event) => SameDateString(e.date, day));
  }

  /** `todayEvents`: the events on the selected day, none without one. */
  function TodayEvents(events: seq<Event>, selectedDate: Option<DateValue>): (r: seq<Event>)
    ensures selectedDate.None? ==> r == []
    ensures selectedDate.Some? ==> r == EventsOn(events, selectedDate.value)
  {
    if selectedDate.None? then [] else EventsOn(events, selectedDate.value)
  }

  /** `handleRemoveEvent`: every event with the given id is dropped. */
  function RemoveEvent(events: seq<Event>, id: int): (r: seq<Event>)
    ensures forall i :: 0 <= i < |r| ==> r[i].id != id && r[i] in events
    ensures forall i :: 0 <= i < |events| && events[i].id != id ==> events[i] in r
  {
    Filter(events, (e: Event) => e.id != id)
  }

  /** Removal works element by element, so the kept events stay in order. */
  lemma RemoveEventAppend(a: seq<Event>, b: seq<Event>, id: int)
    ensures RemoveEvent(a + b, id) == RemoveEvent(a, id) + RemoveEvent(b, id)
  {
    FilterAppend(a, b, (e: Event) => e.id != id);
  }

  /** Removing an id no event carries leaves the list as it was. */
  lemma RemoveAbsentId(events: seq<Event>, id: int)
    requires forall i :: 0 <= i < |events| ==> events[i].id != id
    ensures RemoveEvent(events, id) == events
  {
    FilterKeepsAll(events, (e: Event) => e.id != id);
  }

  /** The first entry of `types` with the given value. */
  function FindType(types: seq<EventType>, value: string): (r: Option<EventType>)
    ensures r.Some? ==> r.value in types && r.value.value == value
    ensures r.None? <==> forall i :: 0 <= i < |types| ==> types[i].value != value
  {
    if types == [] then None
    else if types[0].value == value then Some(types[0])
    else FindType(types[1..], value)
  }

  /** The colour chosen with a type: the type's colour, or the default
      colour when the type is not in the list. */
  function ColorForType(kind: string): (c: string)
    ensures c == DefaultColor || exists i :: 0 <= i < |EventTypes| && EventTypes[i].value == kind && EventTypes[i].color == c
  {
    match FindType(EventTypes, kind)
    case Some(t) => if t.color != "" then t.color else DefaultColor
    case None => DefaultColor
  }

  /** Each listed type selects its own colour; anything else the default. */
  lemma ColorForTypeKnown(i: int)
    requires 0 <= i < |EventTypes|
    ensures ColorForType(EventTypes[i].value) == EventTypes[i].color
  {
    DistinctTypes();
    FindFirst(EventTypes, i);
  }

  lemma ColorForTypeUnknown(kind: string)
    requires forall i :: 0 <= i < |EventTypes| ==> EventTypes[i].value != kind
    ensures ColorForType(kind) == DefaultColor
  {
  }

  predicate DistinctValues(types: seq<EventType>) {
    forall i, j :: 0 <= i < j < |types| ==> types[i].value != types[j].value
  }

  lemma DistinctTypes()
    ensures DistinctValues(EventTypes)
  {
  }

  /** With distinct values, looking a value up finds its own entry. */
  lemma {:induction false} FindFirst(types: seq<EventType>, i: int)
    requires DistinctValues(types) && 0 <= i < |types|
    ensures FindType(types, types[i].value) == Some(types[i])
  {
    if i > 0 {
      assert types[0].value != types[i].value;
      assert types[1..][i - 1] == types[i];
      FindFirst(types[1..], i - 1);
    }
  }

  /** The number of events of a type. */
  function CountOfKind(events: seq<Event>, kind: string): nat {
    Count(events, (e: Event) => e.kind == kind)
  }

  /** One line of the summary: a type and how many events have it. */
  datatype TypeCount = TypeCount(eventType: EventType, count: nat)

  /** The summary lines for `types`, in their order, leaving out the types
      no event has. */
  function Breakdown(types: seq<EventType>, events: seq<Event>): (r: seq<TypeCount>)
    ensures forall i :: 0 <= i < |r| ==>
      r[i].eventType in types && r[i].count == CountOfKind(events, r[i].eventType.value) && r[i].count > 0
    ensures forall i :: 0 <= i < |types| && CountOfKind(events, types[i].value) > 0 ==>
      TypeCount(types[i], CountOfKind(events, types[i].value)) in r
  {
    if types == [] then []
    else
      var c := CountOfKind(events, types[0].value);
      var rest := Breakdown(types[1..], events);
      assert forall i :: 1 <= i < |types| ==> types[i] == types[1..][i - 1];
      (if c > 0 then [TypeCount(types[0], c)] else []) + rest
  }

  /** The per-type summary of the event manager. */
  function TypeBreakdown(events: seq<Event>): (r: seq<TypeCount>)
    ensures forall i :: 0 <= i < |r| ==>
      r[i].eventType in EventTypes && r[i].count == CountOfKind(events, r[i].eventType.value) && r[i].count > 0
    ensures forall i :: 0 <= i < |EventTypes| && CountOfKind(events, EventTypes[i].value) > 0 ==>
      TypeCount(EventTypes[i], CountOfKind(events, EventTypes[i].value)) in r
  {
    Breakdown(EventTypes, events)
  }

  function SumCounts(lines: seq<TypeCount>): nat {
    if lines == [] then 0 else lines[0].count + SumCounts(lines[1..])
  }

  lemma {:induction false} SumCountsAppend(a: seq<TypeCount>, b: seq<TypeCount>)
    ensures SumCounts(a + b) == SumCounts(a) + SumCounts(b)
  {
    if a == [] {
      assert a + b == b;
    } else {
      assert (a + b)[1..] == a[1..] + b;
      SumCountsAppend(a[1..], b);
    }
  }

  predicate KindIn(types: seq<EventType>, kind: string) {
    exists i :: 0 <= i < |types| && types[i].value == kind
  }

  /** The summary counts every event whose type is listed exactly once. */
  lemma {:induction false} BreakdownTotal(types: seq<EventType>, events: seq<Event>)
    requires DistinctValues(types)
    ensures SumCounts(Breakdown(types, events)) == Count(events, (e: Event) => KindIn(types, e.kind))
  {
    var p := (e: Event) => KindIn(types, e.kind);
    if types == [] {
      CountNone(events, p);
    } else {
      var c := CountOfKind(events, types[0].value);
      var head := if c > 0 then [TypeCount(types[0], c)] else [];
      SumCountsAppend(head, Breakdown(types[1..], events));
      BreakdownTotal(types[1..], events);
      var q := (e: Event) => e.kind == types[0].value;
      var r := (e: Event) => KindIn(types[1..], e.kind);
      forall e: Event
        ensures (p(e) <==> q(e) || r(e)) && !(q(e) && r(e))
      {
        KindSplit(types, e.kind);
      }
      CountSplit(events, p, q, r);
    }
  }

  /** A kind is listed either as the first type or among the rest, never
      both when the values are distinct. */
  lemma KindSplit(types: seq<EventType>, kind: string)
    requires DistinctValues(types) && types != []
    ensures KindIn(types, kind) <==> kind == types[0].value || KindIn(types[1..], kind)
    ensures !(kind == types[0].value && KindIn(types[1..], kind))
  {
    if KindIn(types, kind) && kind != types[0].value {
      var i :| 0 <= i < |types| && types[i].value == kind;
      assert types[1..][i - 1] == types[i];
    }
    if KindIn(types[1..], kind) {
      var i :| 0 <= i < |types[1..]| && types[1..][i].value == kind;
      assert types[1..][i] == types[i + 1];
    }
  }

  lemma {:induction false} CountNone(s: seq<Event>, p: Event -> bool)
    requires forall e :: !p(e)
    ensures Count(s, p) == 0
  {
  }

  /** Counting a disjoint union adds the counts of its parts. */
  lemma {:induction false} CountSplit(s: seq<Event>, p: Event -> bool, q: Event -> bool, r: Event -> bool)
    requires forall e :: (p(e) <==> q(e) || r(e)) && !(q(e) && r(e))
    ensures Count(s, p) == Count(s, q) + Count(s, r)
  {
    if s != [] {
      CountSplit(s[1..], p, q, r);
    }
  }

  /** When every event has a listed type, the summary accounts for all of
      them. */
  lemma TypeBreakdownTotal(events: seq<Event>)
    requires forall i :: 0 <= i < |events| ==> KindIn(EventTypes, events[i].kind)
    ensures SumCounts(TypeBreakdown(events)) == |events|
  {
    DistinctTypes();
    BreakdownTotal(EventTypes, events);
    CountAll(events, (e: Event) => KindIn(EventTypes, e.kind));
  }

  lemma {:induction false} CountAll(s: seq<Event>, p: Event -> bool)
    requires forall i :: 0 <= i < |s| ==> p(s[i])
    ensures Count(s, p) == |s|
  {
    if s != [] {
      CountAll(s[1..], p);
    }
  }

  /** The event the form describes, on `date` with identifier `id`. */
  function NewEvent(form: EventForm, date: DateValue, id: int): Event {
    Event(id, form.title, date, form.kind, form.color, form.description, form.time)
  }

  /** An added event is listed last among the events of its day. */
  lemma AddedEventListedOnItsDay(events: seq<Event>, form: EventForm, date: DateValue, id: int)
    ensures TodayEvents(events + [NewEvent(form, date, id)], Some(date))
         == TodayEvents(events, Some(date)) + [NewEvent(form, date, id)]
  {
    var e := NewEvent(form, date, id);
    EventsOnAppend(events, [e], date);
    assert SameDateString(e.date, date);
    assert [e][1..] == [];
  }

  /** Removing an added event by its fresh id gives back the list as it
      was before the addition. */
  lemma RemoveAddedEvent(events: seq<Event>, form: EventForm, date: DateValue, id: int)
    requires forall i :: 0 <= i < |events| ==> events[i].id != id
    ensures RemoveEvent(events + [NewEvent(form, date, id)], id) == events
  {
    var e := NewEvent(form, date, id);
    RemoveEventAppend(events, [e], id);
    RemoveAbsentId(events, id);
    assert [e][1..] == [];
  }

  /** The state of the event manager: whether the add-event form is open
      and what it holds. The caller's clock reading becomes the `id`
      argument of `AddEvent`. */
  class EventManager {
    var isAddingEvent: bool
    var newEvent: EventForm

    constructor()
      ensures !isAddingEvent && newEvent == DefaultForm
    {
      isAddingEvent := false;
      newEvent := DefaultForm;
    }

    /** The "Add Event" button opens the form. */
    method StartAdding()
      modifies this
      ensures isAddingEvent && newEvent == old(newEvent)
    {
      isAddingEvent := true;
    }

    /** The cancel button closes the form and keeps what it holds. */
    method Cancel()
      modifies this
      ensures !isAddingEvent && newEvent == old(newEvent)
    {
      isAddingEvent := false;
    }

    method SetTitle(title: string)
      modifies this
      ensures newEvent == old(newEvent).(title := title) && isAddingEvent == old(isAddingEvent)
    {
      newEvent := newEvent.(title := title);
    }

    /** Choosing a type also picks that type's colour. */
    method ChooseType(kind: string)
      modifies this
      ensures newEvent == old(newEvent).(kind := kind, color := ColorForType(kind))
      ensures isAddingEvent == old(isAddingEvent)
    {
      var color := ColorForType(kind);
      newEvent := newEvent.(kind := kind, color := color);
    }

    method SetColor(color: string)
      modifies this
      ensures newEvent == old(newEvent).(color := color) && isAddingEvent == old(isAddingEvent)
    {
      newEvent := newEvent.(color := color);
    }

    method SetTime(time: string)
      modifies this
      ensures newEvent == old(newEvent).(time := time) && isAddingEvent == old(isAddingEvent)
    {
      newEvent := newEvent.(time := time);
    }

    method SetDescription(description: string)
      modifies this
      ensures newEvent == old(newEvent).(description := description) && isAddingEvent == old(isAddingEvent)
    {
      newEvent := newEvent.(description := description);
    }

    /** `handleAddEvent`: with a non-blank title and a selected date, the
        new list is the old one with the form's event appended, and the
        form is reset and closed; otherwise nothing happens and no new
        list is handed back. */
    method AddEvent(events: seq<Event>, selectedDate: Option<DateValue>, id: int)
      returns (changed: Option<seq<Event>>)
      modifies this
      ensures Trim(old(newEvent.title)) == "" || selectedDate.None? ==>
        changed.None? && newEvent == old(newEvent) && isAddingEvent == old(isAddingEvent)
      ensures Trim(old(newEvent.title)) != "" && selectedDate.Some? ==>
        && changed == Some(events + [NewEvent(old(newEvent), selectedDate.value, id)])
        && newEvent == DefaultForm && !isAddingEvent
    {
      if Trim(newEvent.title) == "" || selectedDate.None? {
        return None;
      }
      var event := NewEvent(newEvent, selectedDate.value, id);
      changed := Some(events + [event]);
      newEvent := DefaultForm;
      isAddingEvent := false;
    }
  }
}
