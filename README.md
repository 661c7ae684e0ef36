# Truck inventory: the record store and its validation

The inventory manager keeps a list of heavy-truck records in the browser. It has a
form to create or edit a record and a table to list and delete records. Its
presentation layer is React/MUI, but it contains a small record store, and this
project models that store:

- the truck record and the manufacturer enumeration (`Trucks`);
- the form (`TruckForm`): its default values, the per-field rules (make required;
  id required, matching `^[A-Za-z]{3}[0-9]{3}$`, and unique in create mode; date
  required), and the collection updaters that run when a form passes validation
  (insert appends, update replaces in place);
- the table (`TruckList`): deletion by id as a filter, and the delete-confirmation
  dialog state;
- the application (`TruckApp`): `parseTruckDate`, the `ensure` fallback truck,
  which truck the form receives in edit mode, and an `Inventory` class. The class
  holds the three pieces of component state (the collection, the edit selector
  `{edit, id}` and the dialog `{show, id}`) and has one method per event handler.

Dates are a plain `(year, month, day)` record. The host's conversions are
function parameters: `new Date(text)` is `parse` and the date formatting used
when the list is stored is `format`. `new Date()` is a `now` parameter. Stored
data is an optional input to the constructor.

Three behaviours of the code differ from what one might expect of a record store;
the model follows the code:

- Lower-case ids such as `xyz999` pass the id pattern (`TruckForm.IdFormatExamples`).
  One might expect only upper-case letters to be accepted.
- While a truck is being edited, the uniqueness rule is skipped entirely. It does
  not just exclude the edited truck. So an edit can rename a truck to an id that
  another truck holds (`TruckForm.EditSubmissionCanDuplicateIds`). Pairwise distinct
  ids are therefore kept only by creation and deletion, not by editing.
- Update with a missing original id is not a no-op in the code (see Findings).

## Model

| member | source | states |
|---|---|---|
| `Trucks.FindIndex` | src/components/Form.tsx:73 | `findIndex` by id: -1 exactly when no truck holds the id, otherwise the first position holding it |
| `Trucks.Find` | src/App.tsx:99 | `find` by id: none exactly when the id is absent, otherwise the truck at the first position holding it |
| `TruckForm.IdFormatExactly` | src/components/Form.tsx:137 | the id pattern accepts exactly six characters: three ASCII letters of either case, then three ASCII digits |
| `TruckForm.IdFormatExamples` | src/components/Form.tsx:137 | `ABC123`, lower-case `xyz999` and the fallback `abc123` pass; the empty id and ids with a misplaced digit, or too short or too long, fail |
| `TruckForm.IsIdFormat` | src/components/Form.tsx:137 | the `pattern` rule: the anchored regex `^[A-Za-z]{3}[0-9]{3}$` as a list of repeated character classes; characterised by `IdFormatExactly` |
| `TruckForm.IsUnique` | src/components/Form.tsx:60-65 | in edit mode every id is accepted, including ids other trucks hold; in create mode the id is accepted exactly when no truck holds it |
| `TruckForm.InitialValues` | src/components/Form.tsx:46-58 | create mode shows make null, id empty, not available, today's date; edit mode shows exactly the edited truck's fields |
| `TruckForm.IdFieldError` | src/components/Form.tsx:136-142 | the id field's rules tried in the order required, pattern, unique, reporting the first that fails; characterised by `IdErrorKinds` |
| `TruckForm.Validate` | src/components/Form.tsx:95-142 | the make `required` rule (lines 95-97), the id rules (lines 136-142) and the date `required` rule (line 221), one error per field; characterised by `ValidateAcceptsExactly` and `UntouchedCreateFormRefused` |
| `TruckForm.ValidateAcceptsExactly` | src/components/Form.tsx:93-142 | a form passes exactly when a make is chosen, the id matches the pattern, a date is present (rule at line 221), and, in create mode only, no truck holds the id |
| `TruckForm.IdErrorKinds` | src/components/Form.tsx:136-176 | which id message appears in create mode: "enter id" exactly for the empty id, the format message exactly for a non-empty malformed id, "occupied" exactly for a well-formed id some truck holds |
| `TruckForm.UntouchedCreateFormRefused` | src/components/Form.tsx:36-41 | the untouched create form fails: the make error and the id-required error are reported, the date passes |
| `TruckForm.Insert` | src/components/Form.tsx:80 | insert appends: the length grows by one, every earlier truck keeps its position, the new truck is last |
| `TruckForm.InsertKeepsIdsDistinct` | src/components/Form.tsx:60-80 | appending a truck whose id passed the create-mode uniqueness check keeps the ids pairwise distinct |
| `TruckForm.Clamp` | src/components/Form.tsx:74 | a slice position: a position within the array is kept, a negative one counts from the end, and the result never exceeds the length |
| `TruckForm.JsSlice` | src/components/Form.tsx:74 | `slice(start, end)`: within bounds it is the plain subsequence, `slice(0, -1)` of a non-empty array drops the last element, and a start at or past the end gives the empty array |
| `TruckForm.UpdateAsWritten` | src/components/Form.tsx:72-75 | the edit updater exactly as written, splicing at `findIndex` with no check for -1; characterised by `UpdateAsWrittenMissingId` (absent id: 2n trucks) and `UpdateAsWrittenAgreesWhenFound` (present id: equals `Update`) |
| `TruckForm.UpdateAsWrittenMissingId` | src/components/Form.tsx:72-75 | the updater as written, when the original id is absent: `[t]` for an empty list, otherwise all but the last truck, then `t`, then the whole list (length 2n) |
| `TruckForm.Update` | src/components/Form.tsx:72-75 | update keeps the length; at the first position of the ORIGINAL id (not the new record's id) it places the new record and leaves every other position untouched; with the id absent it changes nothing |
| `TruckForm.UpdateAsWrittenAgreesWhenFound` | src/components/Form.tsx:73-74 | when the original id is present, the updater as written equals `Update` |
| `TruckForm.AsTruck` | src/components/Form.tsx:67 | the record `onSubmit` receives: the form's make, id, availability and (present) date as a truck |
| `TruckForm.Submit` | src/components/Form.tsx:67-82 | `handleSubmit(onSubmit)` (line 243): validate, then insert in create mode or update by the edited truck's original id in edit mode. Edit mode applies the corrected `Update` (see Findings), so when the original id is absent it keeps the list where the code as written yields 2n trucks. Characterised by `RefusedSubmissionKeepsTrucks`, `CreateSubmissionKeepsIdsDistinct`, `EditSubmissionCanDuplicateIds` and `UnchangedEditKeepsTrucks` |
| `TruckForm.RefusedSubmissionKeepsTrucks` | src/components/Form.tsx:243 | a submission with a null make or an empty id is refused, and a refused submission leaves the collection unchanged |
| `TruckForm.CreateSubmissionKeepsIdsDistinct` | src/components/Form.tsx:60-82 | a create-mode save keeps the ids distinct, and when it passes it adds exactly one truck |
| `TruckForm.EditSubmissionCanDuplicateIds` | src/components/Form.tsx:60-63 | with two trucks of distinct ids, editing the first and giving it the second's id passes validation and yields two trucks with one id |
| `TruckForm.UnchangedEditKeepsTrucks` | src/components/Form.tsx:67-75 | saving an edit form whose values were not changed passes and leaves the collection exactly as it was |
| `TruckList.Delete` | src/components/List.tsx:35-37 | after delete, no truck has the id, and what remains is a subsequence of the list (the original order is kept) |
| `TruckList.DeleteKeepsOthers` | src/components/List.tsx:36 | nothing else is removed: every truck with another id occurs as often as before |
| `TruckList.DeleteKeepsOnlyMembers` | src/components/List.tsx:36 | every truck left after delete was in the list before |
| `TruckList.DeleteAbsentIsIdentity` | src/components/List.tsx:36 | deleting an id no truck holds leaves the list unchanged |
| `TruckList.DeleteIdempotent` | src/components/List.tsx:36 | deleting the same id twice gives the same list as deleting it once |
| `TruckList.DeletePresentDistinct` | src/components/List.tsx:36 | with distinct ids and the id present, the length drops by exactly one |
| `TruckList.DeleteKeepsIdsDistinct` | src/components/List.tsx:36 | deleting keeps the ids pairwise distinct |
| `TruckApp.ParseTruckDate` | src/App.tsx:33-47 | keeps the length and order; each record keeps its make, id and availability, and only its date is replaced by the parsed date |
| `TruckApp.Persisted` | src/App.tsx:55 | the stored shape has the same length and order; each record keeps its fields, and its date is written as text |
| `TruckApp.PersistRoundTrip` | src/App.tsx:49-56 | storing the list and loading it back through `parseTruckDate` gives the same list, given that date parsing inverts date formatting |
| `TruckApp.Loaded` | src/App.tsx:49-51 | with nothing stored the collection starts empty; otherwise it is `parseTruckDate` of the stored records: one truck per stored record, in order, each with the record's make, id and availability and its parsed date |
| `TruckApp.Ensure` | src/App.tsx:58-72 | a present truck is returned unchanged; when the truck is missing, the result is a Belaz with id `abc123`, available, dated now |
| `TruckApp.FallbackFormAccepted` | src/App.tsx:62-69 | saving the fallback truck's edit form unchanged passes validation |
| `TruckApp.FormTruckFor` | src/App.tsx:96-106 | create mode gives the form no truck; edit mode gives it the first truck with the selected id, or the fallback when no truck holds it |
| `TruckApp.Inventory.FormTruck` | src/App.tsx:96-105 | the `truck` prop the form receives for the current collection and selector: `FormTruckFor` of the two fields |
| `TruckApp.RenameThenSaveAgain` | src/App.tsx:96-100 | after an edit renames the selected truck, the form receives the fallback; saving that passes; the updater as written would then double the list |
| `TruckApp.Inventory.constructor` | src/App.tsx:49-52 | start-up: the loaded collection, the edit selector `{false, ""}`, and the dialog closed `{false, ""}` as its initial state at src/components/List.tsx:40-41 |
| `TruckApp.Inventory.InsertNewTruck` | src/App.tsx:81-83 | "Insert new truck" sets the selector to `{false, ""}`, so the form gets no truck; nothing else changes |
| `TruckApp.Inventory.EditRow` | src/components/List.tsx:76-78 | a row's Edit button selects `{true, row id}`; with distinct ids the form then receives that row's truck; nothing else changes |
| `TruckApp.Inventory.Submit` | src/components/Form.tsx:67-82 | Save validates against the current list and form mode and then inserts or updates; a refused save changes nothing; the selector and the dialog are untouched |
| `TruckApp.Inventory.HandleDelete` | src/components/List.tsx:31-38 | the collection becomes the filtered list, so no truck has the id |
| `TruckApp.Inventory.ConfirmDeleteRow` | src/components/List.tsx:83-85 | a row's Delete button opens the dialog as `{true, row id}`; the collection is untouched |
| `TruckApp.Inventory.DismissDeleteDialog` | src/components/List.tsx:99-112 | Disagree or closing the dialog resets it to `{false, ""}` and never changes the collection |
| `TruckApp.Inventory.AgreeDelete` | src/components/List.tsx:116-120 | Agree deletes exactly the dialog's id and then resets the dialog to `{false, ""}` |

## Left out

- Rendering is not modelled: the MUI layout, table cells, dialogs, the date picker and the snackbar messages (`enqueueSnackbar`). It has no contract beyond the state changes modelled.
- Browser storage I/O is not modelled: `localStorage.getItem` and `localStorage.setItem`. The stored value is an optional input, and `Persisted` models only the shape in which records are stored.
- The JSON text encoding is not modelled: `JSON.stringify` and `JSON.parse`. These are host library calls. Malformed stored data, which would make `JSON.parse` throw, is not modelled.
- JavaScript `Date` semantics are not modelled: `new Date(text)`, `new Date()` and `toISOString`. They depend on the host and its time zone, so they are the parameters `parse`, `format` and `now`. An invalid date, for which `toISOString` throws, is not modelled.
- React scheduling and react-hook-form internals are not modelled: when effects and validation run, `reValidateMode` and `setValue`. Only the resulting values, rules and updaters are modelled. Each field reports its first failing rule in the order required, pattern, validate.
- The unused `message` parameter of `ensure` is not modelled.
- The commented-out JSX in `Form.tsx` is dead code and is not modelled.
- TruckForm.Submit and TruckApp.Inventory.Submit: in edit mode they apply the corrected `Update`, which is a no-op when the original id is absent. The code as written splices the record in (see Findings). That written behaviour is `TruckForm.UpdateAsWritten`.

## Findings

| source | as written | input that shows it | evidently intended | confidence | as-written member | corrected member |
|---|---|---|---|---|---|---|
| src/components/Form.tsx:73-74 | the edit updater splices the record in at `findIndex(...)`, with no check for -1 | a non-empty list with no truck of the edited id. This happens once an edit renames the selected truck: the form then falls back to `abc123`, and saving it gives `prev.slice(0, -1)`, then the record, then all of `prev`, which is 2n trucks | replace the edited truck in place, and change nothing when it is absent | not executed; high that the doubling follows from the code as written | `TruckForm.UpdateAsWritten` (shown by `TruckForm.UpdateAsWrittenMissingId`, `TruckApp.RenameThenSaveAgain`) | `TruckForm.Update` |
