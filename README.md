# Calendar event store

A model of the event store behind the `useEvents()` composable of a Vue
calendar application. The store keeps one module-level list of calendar
events in insertion order. It offers add, update and delete operations and
a re-hydrate step. Every add, every delete and every successful update
overwrites the browser's local storage entry `"calendar-events"` with the
whole list, and every `useEvents()` call loads the list back from that
entry when it exists.

Files:

- `wrappers.dfy`: the `Option` datatype.
- `calendar_types.dfy` (module `CalendarTypes`): the records of
  `src/types/event.ts`. These are `CalendarEvent`, `EventDraft` (the record
  without its id, `Omit<CalendarEvent, 'id'>`) and `EventPatch`
  (`Partial<CalendarEvent>`, one `Option` per key, `None` for an absent key).
- `event_list.dfy` (module `EventList`): the pure parts of
  `src/composables/useEvents.ts` as functions on the list. These are the
  record built by `addEvent`, the `findIndex` and the object spread of
  `updateEvent`, and the `filter` of `deleteEvent`, with lemmas about them.
- `event_store.dfy` (module `EventStore`): the state.
  - `Storage` stands for the storage entry. Its field
    `calendarEvents: Option<seq<CalendarEvent>>` is `None` while nothing has
    been stored.
  - `EventStore` holds the `events` list and the storage it uses. Its methods
    `Add`, `Update`, `Delete`, `Save`, `Load` and `UseEvents` change them in
    place, like the functions of the source.
  - `StandupWalkthrough` is a client that calls add, update and delete
    for one event. It also reloads a second store from the same
    storage.

`updateEvent` takes a `Partial<CalendarEvent>`, whose keys include `id`, so
an update may overwrite a record's id; `Merge` copies a patch's `id` like
any other key. `UpdatedKeepsDistinct` states when ids stay distinct anyway.

Ids are unique only when the caller supplies fresh ones. The model does not
assume this. `Add` promises distinct ids afterwards when the ids were
distinct before and the supplied id is new. `Update` promises it when the
ids were distinct before and the patch has no id, has the record's own id,
or has an id no record has. `Delete` always keeps distinct ids distinct.

## Model

| member | source | states |
|---|---|---|
| `EventList.WithId` | src/composables/useEvents.ts:8-11 | the new record has the supplied id, and removing that id gives back exactly the caller's draft, so every input field is kept |
| `EventList.WithIdOfDraft` | src/types/event.ts:1-8 | an event is its draft plus its id: rebuilding it from both gives the same event |
| `EventList.AppendFreshKeepsDistinct` | src/composables/useEvents.ts:10-12 | appending a record whose id no record has keeps ids pairwise distinct |
| `EventList.Merge` | src/composables/useEvents.ts:19 | `{...e, ...updates}`: each key present in the patch (the id included) takes the patch's value; each absent key keeps the record's value |
| `EventList.MergeNoChanges` | src/composables/useEvents.ts:19 | merging the empty patch `{}` leaves the record unchanged |
| `EventList.MergeIdempotent` | src/composables/useEvents.ts:19 | applying the same patch twice gives the same record as applying it once |
| `EventList.MergeTwice` | src/composables/useEvents.ts:19 | two updates in a row equal one update with the combined patch, where the later key wins |
| `EventList.FindIndex` | src/composables/useEvents.ts:17-18 | gives -1 exactly when no record has the id; otherwise gives the first position whose record has the id, with no earlier match |
| `EventList.Updated` | src/composables/useEvents.ts:17-21 | the length is kept; with an unknown id the list is unchanged; a record with a different id keeps its position and value |
| `EventList.UpdatedFirstMatch` | src/composables/useEvents.ts:17-19 | at the first match the record becomes the merge of the old record and the patch; every other position, later matches included, is unchanged |
| `EventList.UpdatedKeepsDistinct` | src/composables/useEvents.ts:16-19 | an update keeps ids pairwise distinct when the patch has no id, has the same id, or has an id no record has |
| `EventList.Without` | src/composables/useEvents.ts:25 | no record with the id remains; a record is kept exactly when it was there and its id differs; the length never grows and drops when the id was present; with an unknown id the list is unchanged by value |
| `EventList.WithoutConcat` | src/composables/useEvents.ts:25 | the filter keeps relative order: filtering `a + b` gives filtered `a` followed by filtered `b` |
| `EventList.WithoutSingle` | src/composables/useEvents.ts:25 | a single record is kept exactly when its id differs from the deleted id |
| `EventList.WithoutIdempotent` | src/composables/useEvents.ts:25 | deleting an id twice gives the same list as deleting it once |
| `EventList.WithoutKeepsDistinct` | src/composables/useEvents.ts:25 | deleting keeps ids pairwise distinct |
| `EventStore.Storage.constructor` | src/composables/useEvents.ts:34 | the storage entry starts with the given contents, or absent |
| `EventStore.EventStore.constructor` | src/composables/useEvents.ts:4 | the shared list starts empty |
| `EventStore.EventStore.Save` | src/composables/useEvents.ts:29-31 | afterwards the stored copy equals the in-memory list |
| `EventStore.EventStore.Load` | src/composables/useEvents.ts:33-42 | with a stored copy the list becomes that copy; with none the list is unchanged; when the stored copy already equals the list, loading changes nothing |
| `EventStore.EventStore.UseEvents` | src/composables/useEvents.ts:44-51 | each call re-hydrates the list from storage, which changes nothing while the copy equals the list |
| `EventStore.EventStore.Add` | src/composables/useEvents.ts:7-14 | the list grows by exactly one record, at the end, built from the draft and the id; earlier records keep their positions; distinct ids stay distinct when the id is fresh; the stored copy equals the new list |
| `EventStore.EventStore.Update` | src/composables/useEvents.ts:16-22 | the new list is `Updated(old list, id, updates)`; with a known id the stored copy equals the new list; with an unknown id neither the list nor the stored copy changes; ids stay distinct unless the patch writes an id already in use |
| `EventStore.EventStore.Delete` | src/composables/useEvents.ts:24-27 | the new list is `Without(old list, id)`, so no record with the id is left and an unknown id changes nothing; distinct ids stay distinct; the copy is saved even when nothing was deleted |

## Left out

- Browser storage: `localStorage.getItem` and `setItem` are modelled only as the `Storage.calendarEvents` field under the fixed key. Write failures such as a full quota are not modelled, because the source does not handle them.
- Serialisation: `JSON.stringify`, `JSON.parse` and `new Date(e.date)` are library calls. The stored text is modelled as the list it encodes, so a save followed by a load is the identity. A `Date` is its millisecond timestamp (an `int`).
- Malformed stored data: the source has no parse-error path, so the model has none.
- Id generation: `Date.now()` and `Math.random()` depend on the clock and on randomness. The generated id is a parameter of `Add` instead.
- Reactivity: Vue's `ref` and `computed` are framework plumbing. The read-only `events` view that `useEvents()` returns is the `events` field itself and has no member of its own.
- `ViewType` in `src/types/event.ts:10` is a type union with no behaviour.
- `EventList.Merge`: a patch whose `id`, `name`, `date` or `color` key is present with the value `undefined` is not modelled. TypeScript accepts such a patch unless `exactOptionalPropertyTypes` is on, and the source then stores a record missing a required field, which `JSON.stringify` drops on save and which, for a missing `id`, no later update or delete can match.
- Several browser tabs are modelled only at the granularity of whole operations: two `EventStore`s over one `Storage` interleave call by call and the last save wins. Timing between tabs and storage events from other tabs are not modelled, because the source does not react to them.
