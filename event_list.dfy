/**
 * The pure pieces of src/composables/useEvents.ts, written over the list of
 * events as a value: the record built by addEvent, the spread merge and the
 * findIndex of updateEvent, and the filter of deleteEvent. The class in
 * event_store.dfy changes its list through these functions.
 */
module EventList {
  import opened Wrappers
  import opened CalendarTypes

  /** Some record of `s` carries the id. */
  predicate HasId(s: seq<CalendarEvent>, id: string)
  {
    exists k :: 0 <= k < |s| && s[k].id == id
  }

  /** No two records of `s` share an id. */
  predicate IdsDistinct(s: seq<CalendarEvent>)
  {
    forall i, j :: 0 <= i < j < |s| ==> s[i].id != s[j].id
  }

  // ---------------------------------------------------------------- addEvent

  /** `{ ...event, id }`: the draft's fields with the generated id added. */
  function WithId(d: EventDraft, id: string): (r: CalendarEvent)
    ensures r.id == id
    ensures Draft(r) == d
  {
    CalendarEvent(id, d.name, d.date, d.time, d.color, d.notes)
  }

  /** Building a record from an event's own draft and id gives the event back. */
  lemma WithIdOfDraft(e: CalendarEvent)
    ensures WithId(Draft(e), e.id) == e
  {
  }

  /** Appending a record whose id is new keeps the ids pairwise distinct. */
  lemma AppendFreshKeepsDistinct(s: seq<CalendarEvent>, e: CalendarEvent)
    requires IdsDistinct(s)
    requires !HasId(s, e.id)
    ensures IdsDistinct(s + [e])
  {
  }

  // ------------------------------------------------------------- updateEvent

  /** One key of an object spread: the patch's value when the key is present. */
  function Pick<T>(patch: Option<T>, current: T): T
  {
    match patch
    case Some(v) => v
    case None => current
  }

  /**
   * `{ ...e, ...u }`: every key present in the patch takes the patch's value,
   * every absent key keeps the record's value. The id is a key like any other.
   */
  function Merge(e: CalendarEvent, u: EventPatch): (r: CalendarEvent)
    ensures u.id.Some? ==> r.id == u.id.value
    ensures u.id.None? ==> r.id == e.id
    ensures u.name.Some? ==> r.name == u.name.value
    ensures u.name.None? ==> r.name == e.name
    ensures u.date.Some? ==> r.date == u.date.value
    ensures u.date.None? ==> r.date == e.date
    ensures u.time.Some? ==> r.time == u.time.value
    ensures u.time.None? ==> r.time == e.time
    ensures u.color.Some? ==> r.color == u.color.value
    ensures u.color.None? ==> r.color == e.color
    ensures u.notes.Some? ==> r.notes == u.notes.value
    ensures u.notes.None? ==> r.notes == e.notes
  {
    CalendarEvent(
      Pick(u.id, e.id),
      Pick(u.name, e.name),
      Pick(u.date, e.date),
      Pick(u.time, e.time),
      Pick(u.color, e.color),
      Pick(u.notes, e.notes))
  }

  /** `{ ...u1, ...u2 }` on patches: a key of `u2` wins over the same key of `u1`. */
  function Combine(u1: EventPatch, u2: EventPatch): EventPatch
  {
    EventPatch(
      if u2.id.Some? then u2.id else u1.id,
      if u2.name.Some? then u2.name else u1.name,
      if u2.date.Some? then u2.date else u1.date,
      if u2.time.Some? then u2.time else u1.time,
      if u2.color.Some? then u2.color else u1.color,
      if u2.notes.Some? then u2.notes else u1.notes)
  }

  /** The empty patch leaves a record as it is. */
  lemma MergeNoChanges(e: CalendarEvent)
    ensures Merge(e, NoChanges) == e
  {
  }

  /** Applying the same patch twice is the same as applying it once. */
  lemma MergeIdempotent(e: CalendarEvent, u: EventPatch)
    ensures Merge(Merge(e, u), u) == Merge(e, u)
  {
  }

  /** Two successive merges are one merge with the combined patch. */
  lemma MergeTwice(e: CalendarEvent, u1: EventPatch, u2: EventPatch)
    ensures Merge(Merge(e, u1), u2) == Merge(e, Combine(u1, u2))
  {
  }

  /**
   * `findIndex(e => e.id === id)`: the position of the first record with the
   * id, or -1 when no record has it.
   */
  function FindIndex(s: seq<CalendarEvent>, id: string): (r: int)
    ensures -1 <= r < |s|
    ensures r == -1 <==> !HasId(s, id)
    ensures r != -1 ==> s[r].id == id
    ensures r != -1 ==> forall j :: 0 <= j < r ==> s[j].id != id
  {
    if |s| == 0 then -1
    else if s[0].id == id then 0
    else
      var k := FindIndex(s[1..], id);
      assert forall j :: 0 <= j < |s| - 1 ==> s[1..][j] == s[j + 1];
      if k == -1 then -1 else k + 1
  }

  /**
   * The list after updateEvent(id, u): the first record with the id merged
   * with the patch, or the list unchanged when no record has the id.
   */
  function Updated(s: seq<CalendarEvent>, id: string, u: EventPatch): (r: seq<CalendarEvent>)
    ensures |r| == |s|
    ensures !HasId(s, id) ==> r == s
    ensures forall k :: 0 <= k < |s| && s[k].id != id ==> r[k] == s[k]
  {
    var i := FindIndex(s, id);
    if i == -1 then s else s[i := Merge(s[i], u)]
  }

  /**
   * Only the first record with the id changes: it becomes the merge of the
   * old record with the patch, and every other position keeps its record,
   * later records with the same id included.
   */
  lemma UpdatedFirstMatch(s: seq<CalendarEvent>, id: string, u: EventPatch, i: nat)
    requires i < |s| && s[i].id == id
    requires forall j :: 0 <= j < i ==> s[j].id != id
    ensures Updated(s, id, u)[i] == Merge(s[i], u)
    ensures forall k :: 0 <= k < |s| && k != i ==> Updated(s, id, u)[k] == s[k]
  {
  }

  /**
   * An update keeps the ids pairwise distinct unless it writes an id that
   * another record already has.
   */
  lemma UpdatedKeepsDistinct(s: seq<CalendarEvent>, id: string, u: EventPatch)
    requires IdsDistinct(s)
    requires u.id.None? || u.id == Some(id) || !HasId(s, u.id.value)
    ensures IdsDistinct(Updated(s, id, u))
  {
  }

  // ------------------------------------------------------------- deleteEvent

  /** `filter(e => e.id !== id)`: the list without the records that carry the id. */
  function Without(s: seq<CalendarEvent>, id: string): (r: seq<CalendarEvent>)
    ensures |r| <= |s|
    ensures !HasId(r, id)
    ensures forall x :: x in r <==> x in s && x.id != id
    ensures !HasId(s, id) ==> r == s
    ensures HasId(s, id) ==> |r| < |s|
  {
    if |s| == 0 then []
    else
      var rest := Without(s[1..], id);
      assert forall j :: 0 <= j < |s| - 1 ==> s[1..][j] == s[j + 1];
      assert HasId(s, id) && s[0].id != id ==> HasId(s[1..], id);
      assert !HasId(s, id) ==> !HasId(s[1..], id);
      if s[0].id == id then rest else [s[0]] + rest
  }

  /**
   * The filter works element by element and keeps order: filtering a
   * concatenation is concatenating the filtered parts.
   */
  lemma {:induction false} WithoutConcat(a: seq<CalendarEvent>, b: seq<CalendarEvent>, id: string)
    ensures Without(a + b, id) == Without(a, id) + Without(b, id)
  {
    if |a| == 0 {
      assert a + b == b;
    } else {
      assert (a + b)[1..] == a[1..] + b;
      WithoutConcat(a[1..], b, id);
    }
  }

  /** A single record is kept exactly when it does not carry the id. */
  lemma WithoutSingle(e: CalendarEvent, id: string)
    ensures Without([e], id) == if e.id == id then [] else [e]
  {
  }

  /** Deleting the same id twice is deleting it once. */
  lemma WithoutIdempotent(s: seq<CalendarEvent>, id: string)
    ensures Without(Without(s, id), id) == Without(s, id)
  {
  }

  /** Deletion keeps the ids pairwise distinct. */
  lemma {:induction false} WithoutKeepsDistinct(s: seq<CalendarEvent>, id: string)
    requires IdsDistinct(s)
    ensures IdsDistinct(Without(s, id))
  {
    if |s| > 0 {
      var tail := s[1..];
      assert IdsDistinct(tail) by {
        forall i, j | 0 <= i < j < |tail| ensures tail[i].id != tail[j].id {
          assert tail[i] == s[i + 1] && tail[j] == s[j + 1];
        }
      }
      WithoutKeepsDistinct(tail, id);
      var rest := Without(tail, id);
      if s[0].id != id {
        assert !HasId(tail, s[0].id) by {
          forall k | 0 <= k < |tail| ensures tail[k].id != s[0].id {
            assert tail[k] == s[k + 1];
          }
        }
        var r := [s[0]] + rest;
        forall i, j | 0 <= i < j < |r| ensures r[i].id != r[j].id {
          if i == 0 {
            assert r[j] == rest[j - 1] && r[j] in tail;
          } else {
            assert r[i] == rest[i - 1] && r[j] == rest[j - 1];
          }
        }
      }
    }
  }
}
