/**
 * The state of src/composables/useEvents.ts: the module-level `events` list
 * and the browser storage key "calendar-events" it is mirrored to, with the
 * operations useEvents() hands out.
 */
module EventStore {
  import opened Wrappers
  import opened CalendarTypes
  import opened EventList

  /**
   * The browser's local storage as far as this module uses it: the value
   * under the key "calendar-events", `None` when nothing has been stored. The JSON text is
   * kept as the list it encodes.
   */
  class Storage {
    var calendarEvents: Option<seq<CalendarEvent>>

    constructor (initial: Option<seq<CalendarEvent>>)
      ensures calendarEvents == initial
    {
      calendarEvents := initial;
    }
  }

  class EventStore {
    /** The shared `events` list, in insertion order. */
    var events: seq<CalendarEvent>
    /** The storage this store saves to and loads from. */
    const storage: Storage

    /** The stored copy equals the in-memory list. */
    ghost predicate Synced()
      reads this, storage
    {
      storage.calendarEvents == Some(events)
    }

    /** Module initialisation: `ref<CalendarEvent[]>([])`. */
    constructor (storage: Storage)
      ensures this.storage == storage
      ensures events == []
    {
      this.storage := storage;
      events := [];
    }

    /** saveEvents: overwrite the stored copy with the whole list. */
    method Save()
      modifies storage
      ensures Synced()
    {
      storage.calendarEvents := Some(events);
    }

    /** loadEvents: replace the list by the stored copy when there is one. */
    method Load()
      modifies this`events
      ensures events == if storage.calendarEvents.Some? then storage.calendarEvents.value else old(events)
      ensures storage.calendarEvents.Some? ==> Synced()
      ensures old(Synced()) ==> events == old(events)
    {
      if storage.calendarEvents.Some? {
        events := storage.calendarEvents.value;
      }
    }

    /** useEvents(): every call re-hydrates the shared list from storage. */
    method UseEvents()
      modifies this`events
      ensures events == if storage.calendarEvents.Some? then storage.calendarEvents.value else old(events)
      ensures old(Synced()) ==> events == old(events)
    {
      Load();
    }

    /** addEvent: append the draft with the supplied id, then save. */
    method Add(event: EventDraft, id: string)
      modifies this`events, storage
      ensures events == old(events) + [WithId(event, id)]
      ensures |events| == |old(events)| + 1
      ensures events[..|old(events)|] == old(events)
      ensures Draft(events[|old(events)|]) == event && events[|old(events)|].id == id
      ensures IdsDistinct(old(events)) && !HasId(old(events), id) ==> IdsDistinct(events)
      ensures Synced()
    {
      ghost var before := events;
      var newEvent := WithId(event, id);
      events := events + [newEvent];
      assert events[..|before|] == before;
      if IdsDistinct(before) && !HasId(before, id) {
        AppendFreshKeepsDistinct(before, newEvent);
      }
      Save();
    }

    /**
     * updateEvent: merge the patch into the first record with the id and
     * save; with an id no record has, neither the list nor the stored copy
     * changes.
     */
    method Update(id: string, updates: EventPatch)
      modifies this`events, storage
      ensures events == Updated(old(events), id, updates)
      ensures HasId(old(events), id) ==> Synced()
      ensures !HasId(old(events), id) ==>
                events == old(events) && storage.calendarEvents == old(storage.calendarEvents)
      ensures IdsDistinct(old(events)) &&
              (updates.id.None? || updates.id == Some(id) || !HasId(old(events), updates.id.value))
              ==> IdsDistinct(events)
    {
      ghost var before := events;
      var index := FindIndex(events, id);
      if index != -1 {
        events := events[index := Merge(events[index], updates)];
        Save();
      }
      if IdsDistinct(before) &&
         (updates.id.None? || updates.id == Some(id) || !HasId(before, updates.id.value)) {
        UpdatedKeepsDistinct(before, id, updates);
      }
    }

    /** deleteEvent: drop every record with the id, then save (even when none had it). */
    method Delete(id: string)
      modifies this`events, storage
      ensures events == Without(old(events), id)
      ensures !HasId(events, id)
      ensures !HasId(old(events), id) ==> events == old(events)
      ensures IdsDistinct(old(events)) ==> IdsDistinct(events)
      ensures Synced()
    {
      ghost var before := events;
      events := Without(events, id);
      if IdsDistinct(before) {
        WithoutKeepsDistinct(before, id);
      }
      Save();
    }
  }

  /**
   * A client: the add / update / delete walk-through for one event, and a
   * second store over the same storage (a page reload) that hydrates to the
   * first store's list.
   */
  method StandupWalkthrough()
  {
    var storage := new Storage(None);
    var store := new EventStore(storage);
    store.UseEvents();
    assert store.events == [];

    var standup := EventDraft("Standup", 1704099600000, None, "blue", None);
    var id := "1704099600000k3j9x2m1q";
    store.Add(standup, id);
    assert |store.events| == 1;
    var added := store.events[0];
    assert added.name == "Standup" && added.date == 1704099600000 && added.color == "blue";
    assert added.id == id && |added.id| > 0;

    var reload := new EventStore(storage);
    reload.UseEvents();
    assert reload.events == store.events;

    store.Update(id, NoChanges.(color := Some("red")));
    assert FindIndex([added], id) == 0;
    var updated := store.events[0];
    assert updated.color == "red";
    assert updated.name == added.name && updated.date == added.date && updated.id == added.id;
    assert updated.time == added.time && updated.notes == added.notes;

    store.Delete(id);
    WithoutSingle(updated, id);
    assert store.events == [];
    assert storage.calendarEvents == Some([]);
  }
}
