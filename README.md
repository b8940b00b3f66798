# Employee directory: collection, pager, form and string helpers

A Dafny model of the logic of a small React employee-directory application. The
application fetches a list of users, normalises each record (splitting the
combined `name` into a first and a last name, defaulting the department to
"General"), shows the collection three records per page with Previous/Next
buttons, deletes records by id, and adds or edits records through a modal form
that allocates a new id as one past the largest id and refuses to submit while
any of its four fields is empty. Two string helpers check the shape of an
e-mail address and compute the initials of a name.

Files and modules:

- `wrappers.dfy` — `Wrappers.Option`, standing for `null`/`undefined` versus a value.
- `text.dfy` — `Text`: `split` with a one-character separator, `join`, ASCII `\s`
  and `toUpperCase`, the lemmas that tie split and join together, and the position
  of the first occurrence of a character, by which "the first space" of a name is
  specified.
- `helper.dfy` — `Helpers`: `validateEmail` and `getInitials` from `src/utils/helper.js`.
- `records.dfy` — `Records`: the employee record, the form mode, unique ids and
  order-preserving subsequences.
- `directory.dfy` — `Directory`: `src/components/UserList.jsx`. The pure parts
  (normalisation, delete filter, page window, button guards) are functions; the
  component state is the class `UserList`, whose handlers are methods.
- `form.dfy` — `Form`: `src/components/UserForm.jsx`. Id allocation, one-field
  edits, the required-field guard, the edit merge and the add append are
  functions; the mounted form is the class `UserForm`, whose submit commits into
  a `UserList`. It includes the example session (fetch Ann Lee with id 7, add
  Bo Ray, who receives id 8) written as a method whose assertions are proved.

Some behaviour of the code worth stating plainly:

- Submitting runs a single check, "some field is empty", with the one message
  "Please fill out all fields."; there are no per-field messages, and the e-mail
  pattern is not applied on submit.
- Departments are not restricted to the five options of the select element;
  those options are markup, and the change handler stores any value it is given.
- Previous is enabled when `page !== 1` (rather than `page > 1`); the two agree
  because the page never drops below 1.
- The next id is one past the largest id present now, not past every id ever
  handed out. Deleting a record whose id is below the largest frees nothing for
  reuse, but deleting the record with the largest id lets the next add receive
  that id once more ({1, 2, 3} without 3 gives next id 3).

## Model

| member | source | states |
|---|---|---|
| `Text.ToUpper` | src/utils/helper.js:9 | lower-case ASCII letters map to the upper-case letter 32 code points below; every other character is unchanged |
| `Text.IndexOf` | src/components/UserList.jsx:24 | the result is absent exactly when the character does not occur; otherwise it is an occurrence with no occurrence before it |
| `Text.IndexOfFirst` | src/components/UserList.jsx:24 | an occurrence with none before it is the one `IndexOf` returns |
| `Text.Split` | src/components/UserList.jsx:24 | `split` yields at least one piece and no piece contains the separator |
| `Text.SplitWithoutSeparator` | src/components/UserList.jsx:24 | a string without the separator splits into itself alone |
| `Text.SplitAtFirst` | src/components/UserList.jsx:24 | the split of a string holding the separator is the text before the first separator followed by the split of the text after it |
| `Text.Join` | src/components/UserList.jsx:28 | joining no pieces gives ""; otherwise the result starts with the first piece and its length is the pieces' total length plus one separator per pair of neighbours |
| `Text.JoinPrefixFirst` | src/components/UserList.jsx:28 | prefixing the first piece prefixes the join |
| `Text.JoinSplit` | src/components/UserList.jsx:24-28 | joining the pieces of a split with the separator gives back the original string |
| `Text.JoinSingletons` | src/utils/helper.js:9 | joining one-character pieces with "" yields one character per piece, in order |
| `Text.SplitFirstEmpty` | src/utils/helper.js:8-9 | the first piece is empty exactly when the string is empty or starts with the separator |
| `Text.SplitNoEmptyPiece` | src/utils/helper.js:8-9 | a split has no empty word exactly when the string is non-empty with no leading, trailing or doubled separator |
| `Helpers.EmailShape` | src/utils/helper.js:2 | the strings the anchored pattern matches, as local part, '@' and dotted domain; each holds an '@' and has at least five characters |
| `Helpers.NoAtBefore` | src/utils/helper.js:2 | a prefix made of `[^\s@]` characters holds no '@' |
| `Helpers.ValidateEmail` | src/utils/helper.js:1-4 | accepted exactly when the string is a non-empty `[^\s@]` local part, an '@', and a `[^\s@]` domain with a '.' that is neither its first nor its last character |
| `Helpers.ValidateEmailParts` | src/utils/helper.js:2-3 | `local + "@" + domain` is accepted exactly when `local` is a non-empty run of `[^\s@]` and `domain` is a valid domain part, in both directions |
| `Helpers.NoAtIn` | src/utils/helper.js:2 | a run of `[^\s@]` characters contains no '@' |
| `Helpers.NoWhitespaceIn` | src/utils/helper.js:2 | a local part and a domain of `[^\s@]` characters joined by '@' hold no whitespace |
| `Helpers.AcceptedHasOneAtAndNoWhitespace` | src/utils/helper.js:2 | every accepted string contains exactly one '@' and no whitespace |
| `Helpers.RejectsWithoutAt` | src/utils/helper.js:2 | the empty string and every string without '@' are rejected |
| `Helpers.GetInitials` | src/utils/helper.js:6-10 | an absent or empty name gives ""; otherwise one character per space-separated word, the upper-cased first character of that word, in order |
| `Records.SubsequenceKeepsUnique` | src/components/UserList.jsx:45 | dropping records without reordering keeps ids unique and introduces no new record |
| `Directory.SplitName` | src/components/UserList.jsx:24-28 | the first name is the text before the first space and has no space; the last name is all text after the first space, or "N/A" when that is empty or there is no space |
| `Directory.SplitNameRoundTrip` | src/components/UserList.jsx:24-28 | when there is text after the first space, first name + " " + last name is the original name |
| `Directory.SplitNameAt` | src/components/UserList.jsx:24-28 | a space-free first part, a space and a non-empty rest split back into those two parts |
| `Directory.SplitNameSeveralWords` | src/components/UserList.jsx:24-28 | "John Smith Jr" splits into "John" and "Smith Jr" |
| `Directory.SplitNameOneWord` | src/components/UserList.jsx:28 | "Madonna" splits into "Madonna" and "N/A" |
| `Directory.Truthy` | src/components/UserList.jsx:29 | an absent or empty department is falsy, any other string truthy |
| `Directory.NormalizeUser` | src/components/UserList.jsx:25-30 | the record keeps the raw id, e-mail, name and other fields, takes its names from the split, and keeps a truthy department or else gets "General" |
| `Directory.Normalize` | src/components/UserList.jsx:23-31 | one normalised record per raw record, same number and order, so the ids are unique exactly when the fetched ids are |
| `Directory.DeleteById` | src/components/UserList.jsx:45 | every record whose id differs survives as often as it occurs, every record with the id is dropped; deleting an absent id changes nothing |
| `Directory.DeleteKeepsOrder` | src/components/UserList.jsx:45 | the survivors are a subsequence of the collection: their relative order is kept |
| `Directory.SubsequenceOfTail` | src/components/UserList.jsx:45 | a subsequence of the tail is a subsequence of the whole |
| `Directory.DeleteKeepsUnique` | src/components/UserList.jsx:45 | deletion keeps ids unique and leaves no record with the deleted id |
| `Directory.Slice` | src/components/UserList.jsx:62 | `slice` with clamped bounds: as many records as lie between the clamped bounds, each the record at that offset from `begin` |
| `Directory.Window` | src/components/UserList.jsx:61-62 | the page window has length min(3, max(0, count - (page-1)*3)) and is the run of records starting at (page-1)*3, all in range |
| `Directory.CanGoPrevious` | src/components/UserList.jsx:101 | on a 1-based page, Previous is enabled exactly when an earlier page exists |
| `Directory.CanGoNext` | src/components/UserList.jsx:114 | on a 1-based page, Next is enabled exactly when the following page's window is non-empty |
| `Directory.UserList.constructor` | src/components/UserList.jsx:11-18 | the initial state: no records, loading, no error, page 1, modal closed, add mode, no selection |
| `Directory.UserList.PaginatedUsers` | src/components/UserList.jsx:61-62 | min(3, max(0, count - (page - 1) * 3)) records, consecutive in the collection from index (page - 1) * 3 |
| `Directory.UserList.FetchUsers` | src/components/UserList.jsx:20-38 | success replaces the collection with the normalised records and leaves the error unset; failure keeps the collection and sets "Failed to fetch users"; loading ends either way |
| `Directory.UserList.HandleDelete` | src/components/UserList.jsx:44-47 | the collection becomes the filtered one, unique ids stay unique, the page is untouched |
| `Directory.UserList.HandleEdit` | src/components/UserList.jsx:49-53 | selects the record, sets edit mode and opens the modal |
| `Directory.UserList.HandleAdd` | src/components/UserList.jsx:55-59 | sets add mode, clears the selection and opens the modal |
| `Directory.UserList.CloseModal` | src/components/UserForm.jsx:50 | the modal is closed |
| `Directory.UserList.Previous` | src/components/UserList.jsx:101-102 | pressed only while enabled, it decrements the page and the page stays at least 1 |
| `Directory.UserList.Next` | src/components/UserList.jsx:114-115 | pressed only while enabled, it increments the page and the new window is non-empty |
| `Form.SetField` | src/components/UserForm.jsx:25 | the named field takes the value; every other field, the id, the name and the other keys are unchanged |
| `Form.BlankForm` | src/components/UserForm.jsx:6 | first name, last name and e-mail empty, department "General", no name or other keys, so the guard refuses it |
| `Form.MissingField` | src/components/UserForm.jsx:30 | the submit guard holds exactly when one of the four inputs is empty |
| `Form.MaxId` | src/components/UserForm.jsx:14 | at least 0 and at least every id, and either 0 or some record's id |
| `Form.NextId` | src/components/UserForm.jsx:14-15 | at least 1, greater than every id, one past an existing id unless it is 1, and 1 on an empty collection |
| `Form.NextIdAfterDelete` | src/components/UserForm.jsx:13-17 | deleting any id other than the largest leaves the next id unchanged, so those freed ids are not reused |
| `Form.NextIdAfterDeleteExample` | src/components/UserForm.jsx:14-15 | ids {1, 2, 3} without 2 give next id 4 |
| `Form.NextIdReusesDeletedLargest` | src/components/UserForm.jsx:13-17 | deleting the largest id while the id just below it remains makes the next id the deleted one again |
| `Form.DeleteLargestLeavesSmaller` | src/components/UserForm.jsx:14 | after the largest id is deleted, every surviving id is below it |
| `Form.MaxIdAtLeast` | src/components/UserForm.jsx:14 | the largest id is at least the id of every record |
| `Form.MaxIdAtMost` | src/components/UserForm.jsx:14 | a non-negative bound on every id bounds the largest id |
| `Form.Merge` | src/components/UserForm.jsx:39 | the four fields and the id come from the form data; a missing name comes from the record; other keys are united, the form's value winning where both have one and the record's kept where only it has one |
| `Form.MergeWithCopy` | src/components/UserForm.jsx:39 | merging a record with an unedited copy of itself gives the record |
| `Form.ApplyEdit` | src/components/UserForm.jsx:37-41 | same length and order; records with another id are unchanged; records with the id become the merge |
| `Form.EditKeepsIds` | src/components/UserForm.jsx:37-41 | when the form keeps the record's id, no id changes, unique ids stay unique and the edited record reads back the form's values |
| `Form.EditWithCopyChangesNothing` | src/components/UserForm.jsx:37-41 | on a collection with unique ids, an edit that submits an unedited copy of a record leaves the collection as it was |
| `Form.AppendNew` | src/components/UserForm.jsx:45-46 | one record more, the earlier records unchanged in order, the last being the form data with the new id |
| `Form.AddKeepsUnique` | src/components/UserForm.jsx:45-46 | appending with the allocated id keeps ids unique |
| `Form.UserForm.constructor` | src/components/UserForm.jsx:4-21 | the form data is the selected record, or empty strings with department "General"; in add mode the next id is allocated from the collection, which is left unchanged |
| `Form.UserForm.HandleChange` | src/components/UserForm.jsx:23-26 | only the named field of the form data changes |
| `Form.UserForm.HandleSubmit` | src/components/UserForm.jsx:28-51 | with a field empty: the one message, collection and modal unchanged; otherwise the edit or the append is committed and the modal closes; unique ids stay unique when the add form's id was allocated from the current collection |
| `Form.UserForm.HandleClose` | src/components/UserForm.jsx:127-132 | the modal closes and nothing is committed |
| `Form.AnnIsNormalized` | src/components/UserList.jsx:23-31 | the raw record 7 "Ann Lee" normalises to Ann, Lee, department "General" |
| `Form.AddBeforeFetchDuplicatesId` | src/components/UserForm.jsx:10-21 | opening the add form before the fetch lands and then submitting leaves two records with id 1 |

## Left out

- The HTTP request and the asynchronous scheduling of the fetch: `FetchUsers` takes the request's outcome as an argument. A malformed body (a record without `name`) throws inside the `try` and lands in the error state; the model covers that case only as a `FetchFailed` outcome.
- Toast notifications, the loading spinner and all rendering and styling: they are output only.
- `Navbar.jsx`, `User.jsx` and `App.jsx` contain no logic; the `/add` and `/edit/:id` routes mount the form without a list and are not modelled.
- The browser's own `type="email"` and `required` checks: they are not code of the application, and `validateEmail` is never called by the form.
- Unicode `\s` and Unicode `toUpperCase`: the model uses their ASCII parts.
- Strings are sequences of Unicode characters, not of UTF-16 code units. For a word starting with a character outside the Basic Multilingual Plane, `word[0]` (src/utils/helper.js:9) is half of a surrogate pair, while `GetInitials` takes the whole character.
- React's asynchronous state updates: each setter is an immediate assignment, and the functional updaters see the latest collection.
- The form's mount and its effect are one step (the constructor), since the effect runs before any input can reach the form.
- The other fields of a fetched record are modelled as a string-valued map; nested values (address, company) are not distinguished from strings.
- Ids are unbounded integers; JavaScript numbers that are not integers are not modelled.
- Directory.Window: requires page >= 1, which `UserList.Valid` keeps; JavaScript's `slice` with a negative start counts from the end, and that case is not modelled.
- Directory.UserList.Previous and Directory.UserList.Next: require their button to be enabled, since a disabled button delivers no click.
- Helpers.GetInitials: requires no leading, trailing or doubled space in a non-empty name, because there the source reads `word[0]` of an empty word and throws.
- Form.UserForm.HandleSubmit: promises unique ids only when the id allocated at mount is still one past the largest id at submit. The add button works while the fetch is pending, and the fetch can land after the form has allocated its id; the source then appends a duplicate id (see Findings).

## Findings

| source | as written | input that shows it | evidently intended | confidence | as-written member | corrected member |
|---|---|---|---|---|---|---|
| src/components/UserForm.jsx:10-21 | the add form allocates its id once, at mount, from the collection as it is then; the effect does not depend on the collection, and the add button (src/components/UserList.jsx:107-112) is available while the fetch is pending | open the add form before the fetch returns (id 1 from the empty collection), let the fetch bring in a record with id 1, fill in the form and submit: two records have id 1; an edit of either of them then overwrites both, since the edit merges the form data into every record with that id (`Form.ApplyEdit`) | the new record's id is one past the largest id of the collection it is appended to, which keeps ids unique | high, by proof; not executed | `Form.AddBeforeFetchDuplicatesId` | `Form.AddKeepsUnique` |
