# Announcements router, modelled in Dafny

This project models the announcements endpoints of a high-school management
API (`src/backend/routers/announcements.py`). Announcements are stored in an
announcements collection. Each one has a message, an optional start date, an
expiration date, its creator's username and a creation time. Registered
teachers are stored in a teachers collection. The router:

- lists the *active* announcements: those whose window `[start_date,
  expiration_date]` contains the current time, compared as strings;
- lists all announcements;
- lets a registered teacher create, partially update and delete announcements.
  Each write checks first that the username is a registered teacher.

The model is split into four modules:

- `StringOrder` (`string_order.dfy`): Python's `<` on `str`. Dafny's `<` on
  sequences means "proper prefix", so lexicographic order is defined
  explicitly. It is proved to be a strict total order.
- `Announcements` (`announcements.dfy`): the record, the active-window
  predicate, the order-preserving active filter, and the update patch.
  The patch is built field by field and applied as a `$set`.
- `Collection` (`collection.dfy`): the announcements collection as a
  sequence of `(id, record)` entries in natural order. It has `find_one` by
  id (`Lookup`), `update_one` with `$set` (`Patched`) and `delete_one`
  (`Removed`), with lemmas about what each changes and what it keeps.
- `Router` (`router.dfy`): class `Database`. It holds both collections and an
  id counter, and has one method per endpoint. Its invariant `Valid()` says
  ids are distinct and below the counter. Each method's postconditions state
  the full error behaviour (401, then 400, then 404) and that nothing changes
  on error. On success they state exactly the new contents of the collection.

Modelling choices:

- "Set" follows Python truthiness: `None` and `""` both count as unset,
  because lines 44 and 48 test `announcement.get(...)` for truthiness
  before comparing.
- `expiration_date` is required on create (line 22). The filter still
  reads it with `.get`, and an update may set it to `""` (lines 106-107).
  So `expirationDate` is an `Option<string>`.
- The clock (`datetime.now().isoformat()`) is a parameter: `now` for the
  active list and for the creation time.
- Ids are naturals handed out from a counter. Each one is fresh: it is not
  already in the collection.
- The update method follows the source's order of steps. It runs
  `update_one` first and then checks `matched_count`. An update that matches
  nothing leaves the collection unchanged (`Collection.PatchedAbsent`), so
  NotFound has no side effect.
- The model assumes that string order agrees with chronological order.
  That holds only if every timestamp uses one fixed ISO 8601 format and one
  time zone. It is stated here and not proved.

## Model

| member | source | states |
|---|---|---|
| `StringOrder.Less` | src/backend/routers/announcements.py:44-48 | Python's `<` on `str`: the first differing code point decides, and a proper prefix is smaller |
| `StringOrder.LessOrEqual` | src/backend/routers/announcements.py:44-48 | `<=` on `str`: strictly less or equal |
| `StringOrder.Irreflexive` | src/backend/routers/announcements.py:44 | no string is strictly below itself, so equal dates never fail a strict test |
| `StringOrder.Asymmetric` | src/backend/routers/announcements.py:44 | `a < b` excludes `b < a` |
| `StringOrder.Transitive` | src/backend/routers/announcements.py:44 | the string order is transitive |
| `StringOrder.Trichotomy` | src/backend/routers/announcements.py:44-48 | any two strings are equal or ordered one way or the other |
| `StringOrder.NotLessIsGreaterOrEqual` | src/backend/routers/announcements.py:44-48 | `not (a < b)` holds exactly when `b <= a`, which turns the two `continue` tests into the inclusive bounds |
| `StringOrder.ProperPrefixIsLess` | src/backend/routers/announcements.py:44 | a proper prefix sorts before the longer string, as in Python |
| `StringOrder.FirstDifferenceDecides` | src/backend/routers/announcements.py:44 | after a common prefix, the first differing character decides the order |
| `Announcements.IsSet` | src/backend/routers/announcements.py:44-48 | truthiness of `announcement.get(field)`: present and not the empty string |
| `Announcements.Expired` | src/backend/routers/announcements.py:44-45 | the first `continue`: expiration set and strictly below `now` |
| `Announcements.NotYetStarted` | src/backend/routers/announcements.py:48-49 | the second `continue`: start set and strictly above `now` |
| `Announcements.IsActive` | src/backend/routers/announcements.py:43-53 | a record reaches the `append`: neither `continue` fires |
| `Announcements.ActiveFilter` | src/backend/routers/announcements.py:41-55 | the list the loop builds: the active entries, appended in store order |
| `Announcements.ActiveIff` | src/backend/routers/announcements.py:42-53 | a record is active iff (expiration unset or `now <= expiration`) and (start unset or `start <= now`) |
| `Announcements.ExpiringNowIsActive` | src/backend/routers/announcements.py:44 | the upper bound is inclusive: expiration equal to `now` keeps the record |
| `Announcements.StartingNowIsActive` | src/backend/routers/announcements.py:48 | the lower bound is inclusive: start equal to `now` keeps the record |
| `Announcements.ActiveIndicesExact` | src/backend/routers/announcements.py:41-53 | the selected positions are strictly increasing, in range, and are exactly the positions whose record is active |
| `Announcements.ActiveFilterSelects` | src/backend/routers/announcements.py:41-55 | the active list is the subsequence of the store at the selected positions, in store order |
| `Announcements.ActiveFilterMembership` | src/backend/routers/announcements.py:41-55 | an entry is listed iff it is stored and its record is active |
| `Announcements.ActiveFilterShorter` | src/backend/routers/announcements.py:41-55 | the active list is never longer than the store |
| `Announcements.ExamFridayListedBefore` | src/backend/routers/announcements.py:44-53 | a record with no start that expires at 2025-01-10T00:00:00 is active at 2025-01-05T00:00:00 |
| `Announcements.ExamFridayDroppedAfter` | src/backend/routers/announcements.py:44-45 | the same record is not active at 2025-01-11T00:00:00 |
| `Announcements.Supplied` | src/backend/routers/announcements.py:102-107 | the request value each of the three `is not None` tests looks at |
| `Announcements.BuildPatch` | src/backend/routers/announcements.py:100-107 | the patch holds exactly the fields whose request value is not `None`, each with that value |
| `Announcements.EmptyPatchIff` | src/backend/routers/announcements.py:101-110 | the patch is empty exactly when no field was supplied |
| `Announcements.ApplyPatch` | src/backend/routers/announcements.py:113-116 | patched fields take the new values; unpatched fields, creator and creation time are unchanged |
| `Announcements.EmptyStartDateClearsLowerBound` | src/backend/routers/announcements.py:104-105 | an empty-string start date is still a change, and afterwards the record is never "not yet started" |
| `Collection.Lookup` | src/backend/routers/announcements.py:122 | `find_one` by id finds a record iff the id is stored, and the record found is stored under that id |
| `Collection.LookupAt` | src/backend/routers/announcements.py:122 | with distinct ids, looking up the id at position `i` finds the record at position `i` |
| `Collection.AppendedLookup` | src/backend/routers/announcements.py:86 | inserting under a fresh id makes that id find the new record and leaves every other lookup unchanged |
| `Collection.Patched` | src/backend/routers/announcements.py:113-116 | `update_one` keeps the collection's length |
| `Collection.PatchedAt` | src/backend/routers/announcements.py:113-116 | position by position, only the entry under the id is patched; no entry moves or changes id |
| `Collection.PatchedIds` | src/backend/routers/announcements.py:113-116 | the update keeps the set of ids and their distinctness |
| `Collection.PatchedLookup` | src/backend/routers/announcements.py:113-125 | after the update, the id finds its old record with the patch applied, and every other id finds what it found before |
| `Collection.PatchedAbsent` | src/backend/routers/announcements.py:113-119 | an update that matches no id changes nothing |
| `Collection.Removed` | src/backend/routers/announcements.py:137 | `delete_one` never lengthens the collection |
| `Collection.RemovedLookup` | src/backend/routers/announcements.py:137 | after the delete, the id finds nothing, and every other id finds what it found before |
| `Collection.RemovedIds` | src/backend/routers/announcements.py:137 | the delete removes exactly that id from the set of ids |
| `Collection.RemovedAbsent` | src/backend/routers/announcements.py:137-140 | deleting an id that is not stored changes nothing |
| `Collection.RemovedCutsOut` | src/backend/routers/announcements.py:137 | with distinct ids, the delete cuts out exactly the one entry and keeps the others in order |
| `Collection.RemovedDistinct` | src/backend/routers/announcements.py:137 | the delete keeps ids distinct |
| `Router.Database.Valid` | src/backend/routers/announcements.py:86-87 | the store's invariant: `_id`s are unique, and every stored id is below the next one handed out, so each insert gets a fresh id |
| `Router.Database.GetActiveAnnouncements` | src/backend/routers/announcements.py:33-55 | the loop returns the active filter of the store; an entry is returned iff it is stored and active at `now` |
| `Router.Database.GetAllAnnouncements` | src/backend/routers/announcements.py:58-66 | every stored announcement is returned, in store order |
| `Router.Database.CreateAnnouncement` | src/backend/routers/announcements.py:69-89 | an unknown username gives Unauthorized and no change; otherwise exactly one entry is appended under a fresh id, with the request's message, start and expiration, `created_by` set to the username and `created_at` set to the given time; other lookups are unchanged |
| `Router.Database.UpdateAnnouncement` | src/backend/routers/announcements.py:92-125 | errors come in the order Unauthorized, then BadRequest (empty patch), then NotFound, and none changes anything; on success only that record's patched fields change, creator and creation time are kept, other records are untouched, and the post-update record is returned |
| `Router.Database.DeleteAnnouncement` | src/backend/routers/announcements.py:128-142 | an unknown username gives Unauthorized and an unknown id gives NotFound, both without change; on success exactly that id is removed and the confirmation message is returned |
| `Router.DeleteTwice` | src/backend/routers/announcements.py:128-142 | after a successful delete, deleting the same id again gives NotFound |

## Left out

- FastAPI routing, `HTTPException` and the pydantic request models (lines 5-31). Errors are the `Router.Error` datatype, with the HTTP status noted on each constructor.
- The MongoDB driver and its global collection handles (line 11). They are replaced by an in-memory sequence of entries and a set of usernames. Driver semantics are not modelled, and the natural order is taken to be insertion order.
- `ObjectId(announcement_id)` parsing (lines 114, 122, 137). A malformed id raises an uncaught driver exception in the source. Ids here are always well formed.
- `str(_id)` formatting of the returned documents (lines 52, 64, 87, 123). This is formatting only. `GetAllAnnouncements` therefore has no loop.
- `datetime.now().isoformat()` (lines 36, 83). The clock reading is a parameter. That ISO strings sort chronologically is assumed, not proved.
- Concurrency and atomicity of the store. Each request runs alone to completion.
- The teachers collection is only read. The router never changes it, and so the model has no operation that does.
