# Versioned refbook lookup, modelled in Dafny

The service looks things up in versioned reference dictionaries ("refbooks").
A refbook is a named code list. It has dated versions, and each version holds
code/value elements. Three read-only HTTP handlers answer:

- **refbook listing** (`RefbookList.get`): every refbook as `(id, code, name)`.
  An optional `date` parameter must have the `YYYY-M-D` shape.
- **element listing** (`ElementList.get`): the `(code, value)` pairs of one
  version. That version is picked either by its name or as the current one:
  the version with the latest `date_start` on or before today.
- **existence check** (`CheckElement.get`): whether that version holds an
  element with exactly this code and this value.

The model is pure. The store is three sequences of records with a validity
predicate taken from the schema: keys, unique constraints, field bounds and
foreign keys. The cascading deletes are functions that return a new store.
Each handler is a function that returns a `Result`. The clock is replaced by a
`today` parameter. Query parameters are `Option<string>`, and "given" means
present and non-empty, as Python's truth test on them is.

Files:

- `collections.dfy`: `Option`, the row filter behind every ORM `filter`, and key uniqueness.
- `dates.dfy`: dates, their order, calendar validity and the `parse_date` recogniser.
- `models.dfy`: the `Refbook`, `Version` and `Element` records, `Valid`, and the cascading deletes.
- `resolve.dfy`: the version resolution rule shared by the two element handlers.
- `views.dfy`: the three handlers and the properties relating them to the store.
- `scenarios.dfy`: the test fixture and the handlers' answers on it.

The one resolution rule is `Resolution.Resolve`. Its central lemma,
`ResolveCurrentIsLatestStarted`, says that in a valid store it returns `v`
exactly when `v` is a version of the refbook that has started by `today` and
no other version of that refbook starts in the interval (v's start, today].
The existence check builds its own single query. It orders by descending
start date even when a version name is given. `CheckQueryIsResolve` proves
that this query picks the same version as `Resolve`.

Three behaviours of the code that the model keeps as written:

- With no `date`, the listing still narrows the prefetched versions, to today.
  The output never shows them either way.
- A well-shaped `date` that names no calendar day, such as `2022-02-30`, is not
  `InvalidDate`. Django's `parse_date` raises for it, and the handler does not
  catch the exception. The model calls this outcome `ImpossibleDate`; over HTTP
  it is a server error.
- The existence check has a single "no valid version" message (`NoValidVersion`).
  The element listing tells a missing named version (`NamedVersionMissing`)
  apart from a missing current version (`NoCurrentVersion`).

## Model

| member | source | states |
|---|---|---|
| `Dates.ParseDate` | med_refbook/views.py:42-46 | whatever `parse_date` returns as a date is a real calendar date (year 1 to 9999, a real month and day); which text gives which outcome is stated by the two lemmas below |
| `Dates.ParseDateRecognisesShape` | med_refbook/views.py:42-46 | a `date` text is rejected as malformed exactly when it lacks the `YYYY-M-D` shape (four digits, dash, one or two digits, dash, one or two digits) |
| `Dates.ParseDateOfShape` | med_refbook/views.py:42-46 | a text of the `YYYY-M-D` shape (one- or two-digit month and day) parses to the date its digit groups write when that is a calendar day, and raises (out of range) otherwise |
| `Dates.ParseFormatRoundTrip` | med_refbook/views.py:43-46 | every calendar date written `YYYY-MM-DD`, the format the error message asks for, parses back to the same date |
| `Models.Valid` | med_refbook/models.py:12-109 | a stored row set the schema admits: primary keys, `unique` and `unique_together` hold, every `CharField` is non-blank within its `max_length`, every `date_start` is a calendar date, and every foreign key points at a row |
| `Models.ValidStoreConstraints` | med_refbook/models.py:12-109 | in a valid store refbook codes are unique; within a refbook version names and start dates are unique; within a version element codes are unique; each version has exactly one refbook and each element exactly one version |
| `Models.DeleteRefbook` | med_refbook/models.py:46-52 | deleting a refbook removes exactly it, exactly its versions and exactly the elements of those versions; every other row stays |
| `Models.DeleteRefbookKeepsValid` | med_refbook/models.py:46-52 | deleting a refbook from a valid store leaves a valid store: no version without its refbook, no element without its version |
| `Models.DeleteVersion` | med_refbook/models.py:83-89 | deleting a version removes exactly it and exactly its elements; the refbooks and every other row stay |
| `Models.DeleteVersionKeepsValid` | med_refbook/models.py:83-89 | deleting a version from a valid store leaves a valid store: no element is left pointing at the removed version |
| `Models.ElementsOfUntouched` | med_refbook/models.py:83-89 | removing the elements of other versions leaves a version's element list unchanged, order included |
| `Resolution.First` | med_refbook/views.py:92-93 | `.first()` of an unordered query (ordered by primary key) yields a row of it with the least id, and nothing only when the query is empty |
| `Resolution.Latest` | med_refbook/views.py:97-99 | ordering by descending `date_start` and taking the first yields a row with the latest start date, and nothing only when the query is empty |
| `Resolution.Resolve` | med_refbook/views.py:91-101 | the resolved version belongs to the refbook; by name it carries that name, and it is missing exactly when the refbook has no version of that name; as current it has started and no started version of the refbook starts later, and it is missing exactly when none has started |
| `Resolution.ResolveCurrentIsLatestStarted` | med_refbook/views.py:96-101 | in a valid store the current version is `v` if and only if `v` has started by today and no other version of the refbook starts in (v's start, today] |
| `Resolution.ResolveNamedIsTheNamedVersion` | med_refbook/views.py:91-95 | in a valid store resolving a name yields `v` if and only if `v` is that refbook's version of that name |
| `Resolution.CheckQuery` | med_refbook/views.py:151-155 | the existence check's query as written: with a name it yields that refbook's version of that name with the latest start, and nothing exactly when there is none; without a name it yields a started version of the refbook with the latest start, and nothing exactly when none has started |
| `Resolution.CheckQueryIsResolve` | med_refbook/views.py:151-158 | in a valid store the existence check's single ordered query picks the same version as the shared rule |
| `Views.RefbookQuery` | med_refbook/views.py:47-50 | the listing query has one row per stored refbook, in order, and attaches exactly that refbook's versions started by the date |
| `Views.Summaries` | med_refbook/serializers.py:6-9 | the listing serializer shows one `(id, code, name)` per query row, in the rows' order |
| `Views.RefbookList` | med_refbook/views.py:41-52 | no `date` always lists; the only errors are the date errors; a listing has as many entries as there are refbooks |
| `Views.RefbookListDateParameter` | med_refbook/views.py:42-46 | a given `date` yields InvalidDate exactly when it lacks the `YYYY-M-D` shape; a well-shaped one lists exactly when the date its digit groups write is a calendar day, and otherwise fails with ImpossibleDate; every `YYYY-MM-DD` calendar date lists |
| `Views.RefbookListIgnoresDate` | med_refbook/views.py:47-52 | any two successful listings of one store are equal, whatever the date and today |
| `Views.RefbookListEveryRefbookOnce` | med_refbook/views.py:47-52 | in a valid store a listing shows every stored refbook's (id, code, name), shows nothing else, and repeats no id |
| `Views.RefbookQueryNarrowsVersionsOnly` | med_refbook/views.py:47-50 | the query rows for any two dates hold the same refbooks in the same order, and an earlier date attaches no version a later one does not |
| `Views.ElementList` | med_refbook/views.py:87-107 | RefbookNotFound exactly when no refbook has the id; VersionNotFound (named) when the refbook has no version of the name; VersionNotFound (current) when none of its versions has started; a success is never empty |
| `Views.ElementViews` | med_refbook/serializers.py:12-15 | the element serializer shows one `(code, value)` per element, in the query's order |
| `Views.ElementViewsShowPairs` | med_refbook/serializers.py:12-15 | the serialized elements contain a `(code, value)` pair exactly when some element of the query has that code and value |
| `Views.ViewsOfVersion` | med_refbook/views.py:102-107 | in a valid store the listing of a version's elements shows exactly its (code, value) pairs and no code twice |
| `Views.ElementListShowsResolvedVersion` | med_refbook/views.py:91-107 | in a valid store, for the named or current version `v`: ElementsNotFound exactly when `v` has no elements, otherwise exactly `v`'s (code, value) pairs with no code twice |
| `Views.CheckElement` | med_refbook/views.py:140-161 | MissingParameters exactly when `code` or `value` is absent or empty; then RefbookNotFound exactly when the refbook is missing; the only errors are these and VersionNotFound |
| `Views.HasEntry` | med_refbook/views.py:159-160 | true exactly when some element of the version has both this code and this value |
| `Views.CheckElementAnswersForResolvedVersion` | med_refbook/views.py:151-161 | in a valid store, for the named or current version `v`, the answer is `Ok(b)` where `b` says whether `v` holds an element with exactly this code and value |
| `Views.HandlersResolveAlike` | med_refbook/views.py:151-158 | with code and value given, the existence check fails exactly when the element listing fails for a reason other than an empty version |
| `Views.DeletedRefbookNotFound` | med_refbook/models.py:46-52 | after a refbook is deleted, both element handlers answer RefbookNotFound for it |
| `Views.DeleteRefbookKeepsResolution` | med_refbook/models.py:46-52 | deleting a refbook leaves the version resolved for any other refbook unchanged |
| `Views.DeleteRefbookKeepsResolvedElements` | med_refbook/models.py:46-52 | deleting a refbook leaves every other refbook present or absent as before, its resolved version unchanged, and that version's element list unchanged |
| `Views.DeleteRefbookKeepsOtherListings` | med_refbook/models.py:46-52 | deleting a refbook leaves the element listing of every other refbook unchanged |
| `Views.DeleteRefbookKeepsOtherChecks` | med_refbook/models.py:46-52 | deleting a refbook leaves every existence check on other refbooks unchanged |
| `Views.EmptiedVersionVersusDeletedVersion` | med_refbook/views.py:102-105 | a version emptied of elements lists as ElementsNotFound; a deleted version lists as VersionNotFound |
| `Scenarios.Fixture` | med_refbook/tests.py:14-31 | the test fixture is a valid store |
| `Scenarios.ListingWithValidDate` | med_refbook/tests.py:39-49 | listing with `2022-10-01` returns refbooks 1 and 2 in order |
| `Scenarios.ListingWithInvalidDate` | med_refbook/tests.py:52-60 | listing with `invalid-date` is InvalidDate |
| `Scenarios.ElementsOfNamedVersion` | med_refbook/tests.py:73-81 | refbook 1, version `v1`, lists the single element `J00` |
| `Scenarios.ElementsOfCurrentVersion` | med_refbook/tests.py:84-93 | refbook 1 with no version lists `J00` from its current version |
| `Scenarios.UnknownRefbook` | med_refbook/tests.py:96-102 | refbook 999 is RefbookNotFound for both element handlers |
| `Scenarios.UnknownVersion` | med_refbook/tests.py:105-112 | version `v3.0` of refbook 1 is VersionNotFound (named) |
| `Scenarios.EmptiedVersion` | med_refbook/tests.py:115-123 | with version `v1`'s elements removed, its listing is ElementsNotFound |
| `Scenarios.CheckInCurrentVersion` | med_refbook/tests.py:126-150 | `J00`/`Test Value 1.0` exists in the current version; `J01`/`Nonexistent Value` does not, and that is `false`, not an error |
| `Scenarios.CheckInNamedVersion` | med_refbook/tests.py:153-164 | `J01`/`Test Value 2.0` exists in version `v1` of refbook 2 |
| `Scenarios.CheckWithoutParameters` | med_refbook/tests.py:179-187 | the check without `code` and `value` is MissingParameters |
| `Scenarios.CurrentVersionOfSecondRefbook` | med_refbook/tests.py:19-27 | refbook 2's current version is `v1` on 2022-12-31, `v2` from 2023-01-01, and there is none on 2022-09-30 |

## Left out

- HTTP and framework glue is not modelled: URL routing, `APIView` and `Response`, status codes, and the OpenAPI schema decorators. Each error kind stands for its response.
- The localised message texts are not modelled. Only the error kind and the `VersionMiss` variant are kept.
- The clock is not modelled: `now().date()` is the `today` parameter. It is not required to be a calendar date.
- The ORM's row order is not modelled. Queries without `order_by` return rows in stored-sequence order; only `.first()` on such a query takes the least primary key, as Django orders it. The properties about them speak of membership and uniqueness, not of a particular order.
- Ties in `.order_by('-date_start').first()` are broken towards the later stored row. A valid store has no ties among one refbook's versions.
- `Dates.ParseDate` models only the regular-expression shape of Django's `parse_date` (`\d{4}-\d{1,2}-\d{1,2}$`) and `datetime.date`'s range check. It leaves out three things: the extra forms `date.fromisoformat` accepts (such as `YYYYMMDD`), the trailing newline that `$` tolerates, and non-ASCII decimal digits.
- `blank=False` and `max_length` are part of `Valid`. In Django, `blank` is checked by form validation, not by the database. The model treats both as constraints that every stored row meets.
- The admin module is not part of this model. Neither are the generated migration or the serializers as classes; the serializers are folded into `Summary` and `View`.
- Concurrency and storage failures are not modelled. The handlers are pure reads of one store snapshot.
- `Refbook.description` is carried in the record but no handler reads it.
