# Student register: a verified model of its record management

The student register is a single-page browser application. It keeps a list of
student records in memory, and every record has seven fields:

- id
- name
- email
- phone
- course
- semester
- GPA

Its forms add a record and edit a record. The record table can be searched,
sorted by a column, and records can be deleted after a confirmation dialog.
This project models the record-management logic behind those screens and
proves what it guarantees.

The modules:

- `Wrappers`: the `Option` type.
- `Strings`: the string operations the logic uses:
  - whitespace and digit classes;
  - ASCII `toLowerCase` and `trim`;
  - `includes`;
  - the `<`/`>` order on strings;
  - the decimal value of a digit string.
- `Records`: the `Student` record and the seven `Field`s.
  - The `Form` inputs and the record a submit handler builds from them.
  - The three seed records.
  - The identity invariant: no two records share an id.
  - Removal at a position.
- `Validator`: the format rules of the seven fields, written as character predicates instead of regular expressions.
  - The add form's validator `ValidateForm` is a method. It checks every field and accumulates a verdict and a per-field error map.
  - The edit form's validator `ValidateEditForm` stops at the first failing field.
  - The messages each form shows.
- `Search`: the search box's order-preserving, case-insensitive filter.
- `Sorting`: the sort key of a column and the ordering a sort establishes. It also holds an insertion sort that produces it and the per-column direction toggle.
- `Register`: the class `StudentRegister`. Its fields:
  - `students`: the record list;
  - `sortDirection`: the map from column to direction;
  - `indexToDelete`: the pending deletion.

  Each of the page's handlers is a method that updates those fields. The methods keep the invariant `Valid()`, which says:
  - ids are unique;
  - every stored record passed validation;
  - a pending deletion names an existing record.

A semester is a whole number and a GPA a number of hundredths (`"3.5"` is 350).
An empty semester or GPA field is `None`.

## Model

| member | source | states |
|---|---|---|
| Strings.LowerChar | app.js:369-370 | an upper-case letter becomes the lower-case letter at the same place of the alphabet; no upper-case letter is left, letters stay letters, and every other character is kept |
| Strings.ToLowerIdempotent | app.js:332 | lowercasing keeps the length, leaves no upper-case letter, and lowercasing twice is lowercasing once |
| Strings.Trim | app.js:143-146 | the result is the slice of the input that starts at the first non-space, neither starts nor ends with whitespace, and only whitespace was cut; it is empty exactly when the input is all whitespace |
| Strings.TrimIdempotent | app.js:143-146 | trimming an already trimmed value changes nothing |
| Strings.ContainsOccurs | app.js:341-344 | `includes` holds exactly when the term occurs at some position of the text |
| Strings.ContainsEmpty | app.js:341-344 | every text includes the empty term |
| Strings.LexLeTotal | app.js:374-376 | any two strings are ordered one way or the other |
| Strings.LexLeTransitive | app.js:374-376 | the string order is transitive |
| Strings.DigitsValue | app.js:365-367 | the value of a digit string stays below ten to the power of its length |
| Strings.DigitsValueHead | app.js:365-367 | the leading digit of a digit string weighs ten to the power of the number of digits after it |
| Strings.DigitsValueOrder | app.js:365-367 | two digit strings of the same length compare by value exactly as they compare as text |
| Records.FormRoundTrip | app.js:142-150 | filling the edit form from a record a form built and submitting it unchanged gives back the same record |
| Records.RemoveAt | app.js:418 | `splice(i, 1)` removes exactly element `i`: one shorter, earlier elements kept, later ones shifted down by one, the same records less the removed one |
| Records.RemoveAppended | app.js:162 | deleting the record just pushed gives back the list before the push |
| Records.RemoveAtUnique | app.js:418 | removing a record keeps ids unique and its id leaves the register |
| Records.UniqueIdsPermutation | app.js:360 | any reordering of a register with unique ids has unique ids |
| Records.AppendUnique | app.js:155-162 | pushing a record whose id no record holds keeps ids unique |
| Records.ReplaceUnique | app.js:518-525 | replacing position `k` by a record whose id no other position holds keeps ids unique |
| Records.SampleDataUnique | app.js:40-68 | the three seed records have different ids |
| Validator.FirstAt | app.js:200 | the position of the first `@`, or the length when there is none |
| Validator.EmailSplitMatchesPattern | app.js:200 | splitting at the first `@` accepts exactly the strings with an `@` after at least one character, a later dot with text on both sides, and no other `@` or whitespace |
| Validator.EmailFromParts | app.js:200 | `local@host.tld` from three non-empty parts without `@` or whitespace is accepted |
| Validator.CheckMeaning | app.js:178-236 | a field passes exactly when its rule holds, and fails with the "required" reason exactly when it is empty |
| Validator.AllRules | app.js:175-239 | a record is valid exactly when all seven rules hold |
| Validator.CheckField | app.js:178-236 | one block of the add-form validator records the field's verdict beside that field only, and clears the running flag exactly when the field fails |
| Validator.ValidateForm | app.js:175-239 | the result is true exactly when all seven rules hold, and every field carries exactly its own error (required when empty, the format or range error otherwise, none when it passes) |
| Validator.ThreeFieldsRejected | app.js:187-212 | a record with a bad name, a bad email and a short phone fails on exactly those three fields with their format errors |
| Validator.ValidateEditForm | app.js:540-578 | the edit form accepts exactly the records the add form accepts; when it refuses, it names a failing field before which every field passes |
| Validator.EditAlertsReuseMessages | app.js:540-578 | the edit form's alerts for email, phone, semester and GPA are the add form's format messages and its course alert is the add form's course message, while its id and name alerts differ from the add form's |
| Sorting.KeyOf | app.js:360-371 | id, semester and GPA compare as numbers; the other columns compare as text of the field's length with no upper-case letter left |
| Sorting.KeyIgnoresCase | app.js:368-371 | lowercasing a record's text fields changes none of its sort keys |
| Sorting.BeforeIgnoresCase | app.js:368-377 | in every column and direction two records are ordered as their lowercased copies are |
| Sorting.IdOrderOfEqualLength | app.js:364-367 | ids of the same length sort ascending in their text order, which is their numeric order |
| Sorting.KeyLeTotal | app.js:373-377 | any two keys are ordered one way or the other |
| Sorting.KeyLeTransitive | app.js:373-377 | the key order is transitive |
| Sorting.BeforeTotal | app.js:373-377 | in either direction, of two records one may stand before the other |
| Sorting.BeforeTransitive | app.js:373-377 | in either direction, standing before is transitive |
| Sorting.Insert | app.js:360-377 | inserting into a sorted list gives a sorted list with the record added |
| Sorting.SortBy | app.js:360-377 | the result is a permutation of the records, ordered by the column's key in the given direction |
| Sorting.SortByKeepsRecords | app.js:360 | sorting keeps the length and exactly the records of the register |
| Sorting.NextDirAlternates | app.js:357 | the first click on a column sorts ascending, and every later click reverses the previous direction |
| Sorting.NextDirOthersUnchanged | app.js:357 | a click on one column leaves every other column's direction as it was |
| Search.Filter | app.js:340-345 | the hits are exactly the records that match, and there are no more of them than records |
| Search.Search | app.js:332-345 | an empty (lowercased, trimmed) term shows the whole register; otherwise exactly the records whose lowercased name, id, email or course contains the term |
| Search.FilterAppend | app.js:340 | the filter keeps register order: filtering a concatenation concatenates the filtered parts |
| Search.FilterIdempotent | app.js:340-345 | searching the hits again with the same term finds all of them |
| Search.FilterAllMatch | app.js:340-345 | when every record matches, the filter shows the whole register in order |
| Search.MatchesOccurs | app.js:341-344 | a hit is a record in one of whose four searched fields, lowercased, the term occurs at some position |
| Search.SearchIgnoresCase | app.js:332 | typing the term in upper or lower case gives the same hits |
| Register.ValidFromParts | app.js:175-239 | a record with well-formed id, name and phone, a course, in-range semester and GPA, and an email built as `local@host.tld` passes validation |
| Register.FirstSampleValid | app.js:41-49 | the first seed record passes validation |
| Register.SecondSampleValid | app.js:50-58 | the second seed record passes validation |
| Register.ThirdSampleValid | app.js:59-67 | the third seed record passes validation |
| Register.SampleDataValid | app.js:40-68 | every seed record passes validation |
| Register.FindIndex | app.js:155 | the first position holding the id (passing over `skip`), or none exactly when no other position holds it |
| Register.DuplicateIdReported | app.js:154-158 | both forms report a taken id with the same text, the add form beside the id field only, and that text differs from every other message about the id and from the success alert |
| Register.KeepOwnIdAllowed | app.js:518 | editing a record while keeping its own id never counts as a duplicate |
| Register.StudentRegister.constructor | app.js:5 | the register starts empty, unsorted, with nothing pending |
| Register.StudentRegister.LoadSampleData | app.js:37-70 | an empty register receives the three seed records; a non-empty one is left alone |
| Register.StudentRegister.SubmitAdd | app.js:142-162 | the record built from the form is refused with its per-field errors when invalid; a valid record with a taken id is refused; otherwise it is appended after the unchanged earlier records; a refusal changes nothing; the invariant holds |
| Register.StudentRegister.SubmitEdit | app.js:505-525 | the record built from the form is refused naming the first failing field when invalid; one whose id another position holds is refused; otherwise only position `index` changes, to the new record; the invariant holds |
| Register.StudentRegister.DeleteStudent | app.js:387-392 | the pending index becomes `index`, the record shown is the one there, and the register is unchanged |
| Register.StudentRegister.CloseDeleteModal | app.js:409-413 | nothing is pending afterwards and the register is unchanged |
| Register.StudentRegister.ConfirmDelete | app.js:416-424 | with a pending index exactly that record is removed and nothing stays pending; with none nothing changes |
| Register.StudentRegister.SortTable | app.js:355-382 | the column's direction toggles and no other column's changes; the records are permuted into that column's order; the ids stay unique |

## Left out

- Rendering and the browser are not modelled:
  - the DOM;
  - navigation and the menu;
  - `displayStudents` and its `indexOf` button wiring;
  - the success toasts and their timers;
  - modal styling, `alert`, and event-listener wiring.
  - `showError`/`clearErrors` are stood in for by the error map that `ValidateForm` returns, which starts empty as after `clearErrors`.
  - An edit-form refusal returns the failing field. `EditAlert` gives the text the alert would show.
- Opening and closing the edit dialog (`editStudent`, `closeEditModal`) only move values between the table and the form. The form filled in from a record is `ToForm`, and the record a submitted form yields is `FromForm`; the dialog itself is not modelled.
- Numbers are not floating point:
  - a semester is a whole number and a GPA a number of hundredths;
  - `parseFloat` on an id is its exact decimal value, with no loss of precision for very long ids;
  - loose string-to-number comparison is not modelled;
  - the case where a non-numeric semester or GPA makes both range comparisons false, so the field passes, is not modelled.
- Strings are simplified:
  - whitespace is the fixed ASCII set (space, tab, line feed, carriage return, vertical tab, form feed), not every Unicode space;
  - `toLowerCase` folds only `A`–`Z`;
  - strings compare by code point, not by UTF-16 code unit.
- Regular expressions are replaced by the character predicates they stand for. No regex engine is modelled.
- Register.StudentRegister.SortTable: the order among records with equal keys is not stated. The comparator never returns 0, so JavaScript leaves that order to the engine. The insertion sort is one admissible arrangement, and only "sorted permutation" is promised.
- Register.StudentRegister.SubmitEdit: the index is an in-range position. The string-versus-number comparison `i != index` is taken as integer inequality.
- Register.StudentRegister.DeleteStudent: the index is an in-range position, as the table's buttons supply it.
- Register.FindIndex: `find` returns the record. The model returns its position, and only whether one exists is used.
- The second `studentIndexToDelete = null` after `closeDeleteModal` inside `confirmDelete` is folded into one reset, because both set the same value.
- The two forms keep their two validators. The add form collects every failing field; the edit form stops at the first one. Both are modelled, and they are proved to accept the same records.
- Editing has no "not found" failure. The index always comes from an existing row.
