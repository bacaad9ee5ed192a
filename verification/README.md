# Incident store of the SOAR incident mock API, in Dafny

The SOAR incident mock API keeps a small list of incident records in memory.
Each record has an `id`, a `title`, a `status` and a `severity`. The API lists,
reads, creates, re-statuses and deletes these records. New ids come from a
counter that starts at 3, just above the three seed records. This project
models that store and its id allocator and proves what the operations promise:

- ids stay pairwise distinct;
- an id, once handed out, is never handed out again, even after its record is deleted;
- create, update and delete change only what they should;
- the listing returns exactly the records that match the filters, in their original order;
- the page arithmetic is a true ceiling division;
- the pages, read in order, give back the filtered list exactly.

Three modules, one per concern:

- `incidents.dfy`, module `Incidents`: the record and request datatypes, the
  seed, first-match lookup (`IndexOf`), and two pure functions, `SetStatus` and
  `RemoveFirst`. They give the list after an update or a delete, and lemmas pin
  them down exactly.
- `listing.dfy`, module `Listing`: the listing operation as functions. It has
  the two optional filters, which ignore case, and a one-pass reference
  definition (`Select`) that they are proved equal to. It spells out Python's
  floor division `//` and slice bounds `s[a:b]`, and covers the pagination.
- `store.dfy`, module `Store`: class `IncidentStore`. Its fields are the
  `incidents` sequence and the `idCounter`, plus a ghost set `issued` of every
  id ever handed out. `NextId` is the allocator. `Get`, `Update` and `Delete`
  are the linear scans of the handlers, written as loops. `Create` appends.
  `List` is the listing. Each method that changes the store keeps the
  invariant `Valid()` and states the new state in terms of the old one.

Decisions and behaviour taken from the code:

- A filter is in force only when it is given and non-empty. `if status:` is
  false for a missing filter and for `""`.
- `str.lower()` is modelled as ASCII lower-casing (`Listing.Lower`).
- The listing is modelled for every `page` and every `per_page` other than 0.
  Python's floor division and its negative-index slice rules are written out
  (`FloorDiv`, `SliceBound`, `PySlice`). A page of 0 is therefore empty, a
  negative page reads a window counted from the end, and a negative `per_page`
  gives whatever Python's slice gives. The only precondition is
  `per_page != 0`: the code divides by `per_page` at app.py:134. The
  properties about page windows and reassembly are proved for
  `page >= 1` and `per_page >= 1`.
- Titles, statuses and severities are free text, and the empty string is
  accepted. The code checks only that the fields are strings, so the model
  does not require them to be non-empty and does not restrict them to the
  documented values.
- Get, update and delete act on the first record with the id, as the scans
  do. While the store invariant holds there is only one such record anyway.

## Model

| member | source | states |
|---|---|---|
| `Incidents.SeedIsValid` | app.py:51-55 | the three seed records have distinct ids, exactly 1, 2 and 3, none above the starting counter 3 |
| `Incidents.IndexOf` | app.py:159-161 | the index a front-to-back scan stops at: it holds the id, and no earlier record does |
| `Incidents.SetStatus` | app.py:215-218 | updating keeps the length, and every record's id, title and severity, position by position |
| `Incidents.SetStatusAt` | app.py:215-218 | the update replaces the status of exactly the first record with the id, and leaves the list unchanged when no record has it |
| `Incidents.SetStatusAbsent` | app.py:215-218 | when no record has the id, the update loop changes nothing |
| `Incidents.RemoveFirst` | app.py:238-241 | removal shortens the list by one exactly when some record has the id |
| `Incidents.RemoveFirstAt` | app.py:238-241 | removal drops exactly the first record with the id and keeps the rest in order; with no such record the list is unchanged |
| `Incidents.RemoveFirstGone` | app.py:238-241 | with distinct ids, after removal the ids stay distinct, the removed id is absent (a later get is NotFound), and every other id is still present |
| `Incidents.AppendFresh` | app.py:186-194 | appending a record whose id is one above the counter keeps ids distinct and bounded, and the id was not in the list |
| `Listing.Select` | app.py:122-129 | reference filter in one pass: never longer than its input |
| `Listing.SelectMembers` | app.py:122-129 | the reference filter keeps a record exactly when it is in the list and matches every filter in force |
| `Listing.SelectSingle` | app.py:125-129 | a single record is kept exactly when it matches the filters |
| `Listing.SelectAppend` | app.py:125-129 | the filter distributes over concatenation, so it keeps the original order |
| `Listing.FilterIsSelect` | app.py:122-129 | the status comprehension followed by the severity comprehension equals the one-pass reference filter |
| `Listing.FilterIncidents` | app.py:123-129 | the status comprehension then the severity comprehension: a record is listed exactly when it is stored and matches every filter in force; the list is no longer than the store, and is the whole store when no filter is in force |
| `Listing.Pass` | app.py:125-129 | one `if` plus comprehension: keeps exactly the records the filter admits, and leaves the list untouched when the filter is not in force |
| `Listing.KeepMatching` | app.py:126-129 | one comprehension: keeps exactly the records whose field equals the wanted value after lower-casing both sides, and is never longer than its input |
| `Listing.InForce` | app.py:125-128 | Python truthiness of an optional string: the filter is skipped exactly for a missing value and for "" |
| `Listing.LowerChar` | app.py:126 | lower-casing one character: an upper-case ASCII letter becomes the lower-case letter at the same place in the alphabet, and any other character is unchanged |
| `Listing.Lower` | app.py:126-129 | `str.lower()` keeps the length of the string |
| `Listing.LowerCharwise` | app.py:126-129 | `str.lower()` lower-cases each character in place |
| `Listing.EmptyFilterIsNoFilter` | app.py:125-129 | empty status and severity filters constrain nothing |
| `Listing.FilterIgnoresCase` | app.py:125-129 | a filter value and its lower-cased form list the same records, for status and for severity |
| `Listing.LowerIdempotent` | app.py:126 | lower-casing an already lower-cased string changes nothing |
| `Listing.FloorDiv` | app.py:134 | Python floor division: the remainder has the sign of the divisor and is smaller than it in magnitude |
| `Listing.SliceBound` | app.py:138 | Python's normalisation of a slice bound on a list of length n: a bound in 0..n is kept, a negative bound down to -n counts from the end, and anything beyond is clipped to n or to 0 |
| `Listing.PySlice` | app.py:138 | a Python slice is never longer than the list, and for bounds 0 <= start <= stop it is the window cut at the list's end |
| `Listing.Paginate` | app.py:131-146 | total is the filtered length; the page is echoed; per_page is capped at 100 and kept when at most 100; every returned record is a filtered one |
| `Listing.CeilingDivision` | app.py:134 | `(n + pp - 1) // pp` is the ceiling of n / pp for n >= 0 and pp >= 1 |
| `Listing.TotalPagesIsCeiling` | app.py:132-134 | total_pages is non-negative, enough pages hold all records with the last one non-empty, and it is 0 exactly when total is 0 |
| `Listing.PageWindow` | app.py:135-138 | for page, per_page >= 1 the page is the filtered window from (page-1)*per_page, cut at the end, at most per_page long, empty past the end |
| `Listing.PageZeroIsEmpty` | app.py:135-138 | page 0 is always empty |
| `Listing.PagesUpToPrefix` | app.py:135-138 | pages 1..k together are the first k*per_page filtered records |
| `Listing.PagesReassemble` | app.py:132-138 | pages 1..total_pages, concatenated in order, are exactly the filtered list |
| `Listing.SeedStatusOpen` | test_app.py:308-313 | on the seed, the filter status=OPEN lists exactly the one record stored with status "open" |
| `Listing.SeedSeverityHigh` | test_app.py:315-318 | on the seed, the filter severity=HIGH lists exactly the one record stored with severity "high" |
| `Listing.SeedPages` | app.py:131-138 | on the seed, per_page 2 gives two pages of 2 and 1 records, and per_page 1000 is capped to 100 |
| `Store.IncidentStore.constructor` | app.py:21-55 | the store starts valid, with the seed records and the counter at 3 |
| `Store.IncidentStore.NextId` | app.py:76-80 | the allocator returns the old counter plus one and leaves the counter equal to it: successive ids are contiguous and increasing; the store invariant is kept |
| `Store.IncidentStore.List` | app.py:101-146 | total counts the records matching the filters; every listed record is stored and matches; for page, per_page >= 1 the page is exactly the filtered window from (page-1)*per_page, cut at the end, at most per_page (<= 100) records; for per_page >= 1 total_pages is the ceiling of total / per_page, 0 exactly when total is 0 |
| `Store.IncidentStore.Get` | app.py:159-166 | returns the first record with the id, or NotFound naming the id; changes nothing |
| `Store.IncidentStore.Create` | app.py:187-195 | appends exactly one record at the end, with id counter+1, the given title, status and severity; it returns that record; its id was never issued before and was not in the list, and the first record with it is now the appended one |
| `Store.IncidentStore.Update` | app.py:215-223 | replaces the status of the first record with the id and returns it, all else unchanged; NotFound with the store unchanged otherwise; keeps the invariant |
| `Store.IncidentStore.Delete` | app.py:238-246 | pops the first record with the id and returns it, the rest in order; the id is then absent; NotFound with the store unchanged otherwise; keeps the invariant |
| `Store.CreateThenGet` | app.py:187-195 | a get of a just-created record's id returns that record |
| `Store.DeleteThenCreate` | app.py:76-80 | a record created after a delete never gets the deleted id |

## Left out

- Concurrency: the `threading.Lock` around the counter (app.py:22, app.py:78) is not modelled. Every operation runs sequentially and atomically.
- The HTTP layer is not modelled: FastAPI routing, status codes (201, 404, 422), error messages and JSON serialisation. NotFound is a `Result` value carrying the id.
- Pydantic validation is not modelled: the 422 path for missing or mistyped fields, and type coercion. Required fields are constructor parameters of `IncidentCreate` and `IncidentUpdate`. The status default "open" is a default constructor argument.
- Bearer-token checking (`verify_token`, `HTTPBearer`) is not modelled. It never changes a result.
- The `root` and `health_check` endpoints are not modelled. They return constant or trivial responses.
- Unicode lower-casing is not modelled. `str.lower()` becomes ASCII lower-casing, so non-ASCII case pairs are not folded.
- Object identity is not modelled. The handlers return the very dict held in the list, while the model returns a copy of the record's value. Later mutation through a shared reference is therefore not captured.
- Store.IncidentStore.List: states the page window only for `page >= 1` and `per_page >= 1`, and total_pages only for `per_page >= 1`; that pages reassemble the filtered list is stated by `Listing.PagesReassemble` about `Paginate`. Other page values are modelled through `PySlice`, but no property is proved about them beyond page 0 being empty (`Listing.PageZeroIsEmpty`).
- Listing.Paginate: requires `per_page != 0`, so the division by zero at app.py:134 that a request with `per_page=0` raises (an HTTP 500) is not modelled; `Store.IncidentStore.List` has the same precondition.
