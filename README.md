# Employee directory core, modelled in Dafny

The system is a small single-page employee directory. A module-level store,
`src/store.js`, holds an ordered array of employee records. Each record has an
id and eight text fields. Every mutation writes the whole array to browser
storage. The store normalises and checks phone numbers against the canonical
pattern `+(90) ddd ddd dd dd`. It refuses duplicate emails and duplicate
normalised phones.

Two components sit on top of the store:

- The list view, `src/components/employee-list.js`, filters a snapshot by a
  lower-cased search text, pages it (9 rows, or 6 or 4 cards depending on the
  viewport width) and deletes records through a confirm dialog.
- The form, `src/components/employee-form.js`, creates a record, or edits the
  one named by the route `edit/<id>`. Validation runs in a fixed order:
  required fields, then email, then raw-phone uniqueness. Editing saves only
  after a confirmation.

`src/localization.js` holds an English and a Turkish table. It chooses the
start-up locale, switches locale, and looks keys up, falling back to the key
itself.

The model has one module per concern:

| file | module | what it holds |
|---|---|---|
| `wrappers.dfy` | `Wrappers` | `Option` |
| `employees.dfy` | `Employees` | the eight fields, `Details`, `Employee` |
| `seqs.dfy` | `Seqs` | order-preserving `Filter` |
| `phone.dfy` | `PhoneFormat` | `normalizePhone`, `PHONE_PATTERN`, `validateAndFormatPhone` |
| `store.dfy` | `Store` | the store's checks and effects on `seq<Employee>`, its invariant, and the class `EmployeeStore` |
| `list.dfy` | `ListView` | search, page size, page count, page slice, page buttons, and the class `EmployeeList` |
| `form.dfy` | `Form` | route matching, validation, the effect of a save, and the class `EmployeeForm` |
| `localization.dfy` | `Localization` | both tables, locale choice, lookup, and the class `LocaleStore` |

The store's operations are stated as functions on sequences:

- `AddCandidate` and `NewRecord` describe an add.
- `UpdatePatch` and `ApplyUpdate` describe an update.
- `Remove` describes a delete.

The class methods are proved to change the state exactly as those functions
say. The invariant `Store.Consistent` holds when ids are pairwise distinct,
emails are pairwise distinct and non-empty phones are pairwise distinct. The
code never checks that an id is new, so each operation keeps it under a stated
condition:

- An accepted add keeps emails and non-empty phones distinct whatever id the
  record gets (`Store.AddKeepsContactsDistinct`). It keeps the whole invariant
  when that id is new (`Store.AddKeepsConsistent`).
- An accepted update keeps the invariant when the patch does not give the
  record the id of another stored record.
- A delete keeps it always.
- A form save in edit mode keeps it always, since the patch rewrites the
  record's own id. In create mode it keeps it when the fresh id is new.

Three behaviours of the code are worth stating plainly:

- Validation checks every key of the edit buffer, and those are all eight
  fields.
- When the store refuses a save, the form shows `invalidPhoneFormat`, even when
  the cause is a duplicate phone.
- The page index is clamped only after a confirmed delete. Changing the search
  text or the view mode resets it to 1 instead.

## Model

| member | source | states |
|---|---|---|
| Employees.Details.Set | src/components/employee-form.js:196 | setting one field makes it hold the new value and leaves the other seven as they were |
| Employees.AllFilled | src/components/employee-form.js:202-208 | when all eight named fields are non-empty, every field read through `Get` is non-empty |
| Employees.DetailsExtensional | src/components/employee-form.js:170 | two records agreeing on all eight fields are equal |
| Employees.FormKeysComplete | src/components/employee-form.js:170 | the key order of the buffer lists every field |
| Seqs.Filter | src/store.js:61 | the result keeps exactly the elements satisfying the predicate and is no longer than the input |
| Seqs.FilterAppend | src/store.js:61 | filtering a concatenation is the concatenation of the filtered parts, so the order is kept |
| Seqs.FilterIdempotent | src/store.js:61 | filtering twice by the same predicate equals filtering once |
| PhoneFormat.DropSpacesSpec | src/store.js:9 | dropping leading whitespace leaves a suffix that does not start with whitespace |
| PhoneFormat.DropTrailingSpacesSpec | src/store.js:9 | dropping trailing whitespace leaves a prefix that does not end with whitespace |
| PhoneFormat.CollapseSpec | src/store.js:8 | replacing whitespace runs leaves no whitespace but single spaces, never lengthens, starts with a space exactly when the input starts with whitespace, and keeps only non-space characters of the input |
| PhoneFormat.TrimSpec | src/store.js:9 | trimming yields a contiguous slice of the input with no whitespace at either end |
| PhoneFormat.NormalizePhone | src/store.js:5-10 | a normalised phone has no hyphen, no whitespace but single spaces, no space at either end, and is never longer than the raw input |
| PhoneFormat.CollapseFixed | src/store.js:8 | collapsing a single-spaced string changes nothing |
| PhoneFormat.CanonicalFixed | src/store.js:5-10 | normalising an already canonical string returns it unchanged |
| PhoneFormat.NormalizeIdempotent | src/store.js:5-10 | normalising twice equals normalising once |
| PhoneFormat.NormalizeOnlyHyphens | src/store.js:6-9 | when replacing hyphens already gives a canonical string, normalisation returns that string |
| PhoneFormat.PatternIsCanonical | src/store.js:3 | every string matching the phone pattern is canonical |
| PhoneFormat.PatternExamples | src/store.js:3 | the pattern accepts `+(90) 555 123 45 67` and rejects the 19-character strings `+(90) 555 123 456 7` and `+(90)0555 123 45 67` |
| PhoneFormat.ValidateAndFormatPhone | src/store.js:12-18 | the result is present exactly when the normalised phone matches the pattern; it is then the normalised phone, 19 characters long |
| PhoneFormat.ValidateFormatted | src/store.js:12-18 | an accepted formatted phone is accepted again unchanged |
| PhoneFormat.HyphenatedExample | src/store.js:12-18 | `+(90)-555-111-11-11` is accepted as `+(90) 555 111 11 11` |
| PhoneFormat.CollapseGroups | src/store.js:8 | five groups without whitespace, separated by whitespace runs of any length, collapse to the same groups separated by single spaces |
| PhoneFormat.NormalizeByCollapse | src/store.js:5-10 | when the collapsed string is already canonical, trimming leaves it as it is and it is the normalised phone |
| PhoneFormat.MultiSpaceExample | src/store.js:5-18 | `+(90)  555   123 45   67` normalises to `+(90) 555 123 45 67`, which is accepted |
| PhoneFormat.ShortPhoneRejected | src/store.js:14-16 | every input shorter than the 19-character template is rejected |
| PhoneFormat.MissingPrefixExample | src/store.js:14-16 | a number typed without the `+(90)` prefix is rejected |
| Store.IsUnique | src/store.js:67-71 | true exactly when no record has the value in the field, except records with the excluded id |
| Store.FindById | src/store.js:65 | absent exactly when no record has the id; otherwise the first record with the id |
| Store.FindStored | src/store.js:65 | in a consistent collection the lookup of a stored record's id returns that record |
| Store.AddCandidate | src/store.js:22-31 | an add is refused exactly when the email is stored, or a given phone fails the pattern after normalisation or is stored after normalisation |
| Store.NewRecord | src/store.js:33 | the stored record carries the candidate's fields, and its id is the caller-supplied one when given, the fresh one otherwise |
| Store.AddKeepsConsistent | src/store.js:22-36 | an accepted add with a new id keeps ids, emails and non-empty phones distinct |
| Store.AddKeepsContactsDistinct | src/store.js:22-36 | an accepted add, whatever id the new record gets, keeps emails and non-empty phones distinct |
| Store.AddRejectsDuplicateEmail | src/store.js:23 | an email already stored always makes the add fail |
| Store.Merge | src/store.js:53-55 | the patch's id and fields overwrite the record's, and the fields absent from the patch are kept |
| Store.ApplyUpdate | src/store.js:53-55 | same length; records with another id are kept, and each record with the id is the merge of the record and the patch |
| Store.UpdatePatch | src/store.js:38-51 | an update is refused exactly when the id is not stored, or another record has the patch's email, or a given phone fails the pattern after normalisation or is another record's phone after normalisation; an accepted patch keeps its id, keys and non-phone values, and a non-empty phone is stored normalised and matching the pattern |
| Store.UpdateUnknownId | src/store.js:39-42 | updating an id that is not stored is refused and would change no record |
| Store.UpdateChangesOnlyTarget | src/store.js:53-55 | an accepted update rewrites only the records with that id, field by field as the patch says, and leaves all other records as they were |
| Store.UpdateKeepsConsistent | src/store.js:38-58 | an accepted update that does not take another record's id keeps ids, emails and non-empty phones distinct |
| Store.OwnEmailUnique | src/store.js:67-68 | in a consistent collection a record's own email is unique once its own id is excluded |
| Store.OwnPhoneUnique | src/store.js:70-71 | in a consistent collection a record's own non-empty phone is unique once its own id is excluded |
| Store.UpdateOwnContactAccepted | src/store.js:43-51 | re-saving a record with its own email and its own well-formed phone is accepted |
| Store.Remove | src/store.js:61 | the result holds exactly the records whose id differs from the given one |
| Store.RemoveKeepsConsistent | src/store.js:60-63 | deleting keeps ids, emails and non-empty phones distinct |
| Store.RemoveUnknownId | src/store.js:61 | deleting an id that is not stored changes nothing |
| Store.RemoveIdempotent | src/store.js:60-63 | after a delete no record has the id, and deleting again changes nothing |
| Store.RemoveAppend | src/store.js:61 | deleting keeps the remaining records in their original order |
| Store.EmployeeStore.constructor | src/store.js:1 | the collection is what storage held, or empty, and equals the persisted copy |
| Store.EmployeeStore.GetEmployees | src/store.js:20 | returns the current collection in insertion order |
| Store.EmployeeStore.GetEmployeeById | src/store.js:65 | absent exactly when no current record has the id; otherwise a current record with that id |
| Store.EmployeeStore.IsEmailUnique | src/store.js:67-68 | true exactly when no current record has the email, except records with the excluded id |
| Store.EmployeeStore.IsPhoneUnique | src/store.js:70-71 | true exactly when no current record has the phone, except records with the excluded id |
| Store.EmployeeStore.AddEmployee | src/store.js:22-36 | succeeds exactly when `AddCandidate` accepts; it then appends the record with the formatted phone and persists; on failure nothing changes |
| Store.EmployeeStore.UpdateEmployee | src/store.js:38-58 | succeeds exactly when `UpdatePatch` accepts; it then merges the rewritten patch into the records with that id and persists; on failure nothing changes |
| Store.EmployeeStore.DeleteEmployee | src/store.js:60-63 | the collection becomes `Remove(old, id)` and is persisted |
| ListView.Lower | src/components/employee-list.js:242 | same length, each character lower-cased |
| ListView.LowerIdempotent | src/components/employee-list.js:242 | lower-casing twice equals lower-casing once |
| ListView.Filtered | src/components/employee-list.js:246-261 | an empty search returns the snapshot; otherwise a record is kept exactly when its lower-cased joined fields contain the search text |
| ListView.FilteredAppend | src/components/employee-list.js:248-260 | the search keeps snapshot order |
| ListView.PerPage | src/components/employee-list.js:263-267 | 9 exactly in list mode, 6 exactly in card mode at width 1920 or more, 4 otherwise |
| ListView.TotalPages | src/components/employee-list.js:274-276 | zero exactly for an empty list; the least page count whose pages cover every record |
| ListView.SliceBoundNarrows | src/components/employee-list.js:271 | clamped slice bounds are never further apart than the requested ones |
| ListView.JsSlice | src/components/employee-list.js:271 | a slice is no longer than its requested width, holds only elements of the input, and, for valid bounds, is the clamped subsequence |
| ListView.Paged | src/components/employee-list.js:269-272 | a page holds at most the page size and only records of the list, and page `p >= 1` is the records from `(p-1)*size` to `p*size`, clamped |
| ListView.PagesUpToPrefix | src/components/employee-list.js:269-272 | the first `k` pages concatenated are the first `k*size` records |
| ListView.AllPagesConcatenate | src/components/employee-list.js:269-276 | pages 1 to `totalPages` concatenated are exactly the filtered list |
| ListView.PagesInRangeNonEmpty | src/components/employee-list.js:269-276 | every page from 1 to `totalPages` holds at least one record |
| ListView.FifteenItemsExample | src/components/employee-list.js:269-276 | 15 records at 9 a page give 2 pages, records 1-9 and 10-15 |
| ListView.PrevPage | src/components/employee-list.js:321 | the previous page is one less, and never below 1 |
| ListView.NextPage | src/components/employee-list.js:322 | never past the last page: one more while below the last page, and the last page itself at or past it |
| ListView.PrevNextStayInRange | src/components/employee-list.js:321-322 | from a page within range, both buttons lead to a page within range |
| ListView.NextOnEmptyList | src/components/employee-list.js:322 | on an empty list the next button leads to page 0 |
| ListView.ClampPage | src/components/employee-list.js:306-313 | a page within range is kept, a page past the last one becomes the last page (page 1 when there is none), and the result is never below 1 for a positive page |
| ListView.ClampAfterShrinkExample | src/components/employee-list.js:306-313 | five records at 9 a page give one page, so page 2 becomes page 1 |
| ListView.EmployeeList.constructor | src/components/employee-list.js:214-223 | list mode, the store's snapshot, an empty search, page 1, no dialog and no target |
| ListView.EmployeeList.FilteredEmployees | src/components/employee-list.js:246-261 | the whole snapshot for an empty search; otherwise exactly the snapshot records whose lower-cased joined fields contain the search text |
| ListView.EmployeeList.CurrentPerPage | src/components/employee-list.js:263-267 | the page size is 9, 6 or 4 |
| ListView.EmployeeList.PagedEmployees | src/components/employee-list.js:269-272 | the current page holds at most one page size of records, all from the filtered list |
| ListView.EmployeeList.CurrentTotalPages | src/components/employee-list.js:274-276 | zero exactly when nothing matches; the pages hold every match |
| ListView.EmployeeList.PrevTarget | src/components/employee-list.js:321 | the previous button leads to the page before, never below 1 |
| ListView.EmployeeList.NextTarget | src/components/employee-list.js:322 | the next button leads to the page after while below the page count, and to the page count otherwise |
| ListView.EmployeeList.SetView | src/components/employee-list.js:236-239 | sets the view mode and page 1, and changes nothing else |
| ListView.EmployeeList.HandleSearch | src/components/employee-list.js:241-244 | stores the input lower-cased and page 1, and changes nothing else |
| ListView.EmployeeList.ChangePage | src/components/employee-list.js:278-280 | sets the page and changes nothing else |
| ListView.EmployeeList.ConfirmDelete | src/components/employee-list.js:294-297 | records the target and opens the dialog |
| ListView.EmployeeList.CancelDelete | src/components/employee-list.js:352 | closes the dialog and keeps the target and everything else |
| ListView.EmployeeList.ClampToLastPage | src/components/employee-list.js:306-313 | the page becomes `ClampPage` of the old page and the current page count |
| ListView.EmployeeList.DeleteConfirmed | src/components/employee-list.js:299-317 | without a target nothing changes; with one it removes that id from the store, refreshes the snapshot, closes the dialog, forgets the target and clamps the page into range |
| Form.TakeLine | src/components/employee-form.js:179 | the longest prefix without a line terminator |
| Form.MatchEditFrom | src/components/employee-form.js:179 | a capture, when present, is non-empty |
| Form.EditRouteId | src/components/employee-form.js:179 | the route's captured id, when present, is non-empty |
| Form.EditPathBindsId | src/components/employee-form.js:179 | `/edit/<id>` captures exactly `<id>` for every non-empty one-line id |
| Form.ListPathBindsNothing | src/components/employee-form.js:179-180 | `/list` captures nothing |
| Form.FirstEmpty | src/components/employee-form.js:202-208 | absent exactly when every key is filled; otherwise the first empty key in order |
| Form.FirstEmptyAt | src/components/employee-form.js:202-208 | an empty key preceded only by filled keys is the one reported |
| Form.Check | src/components/employee-form.js:201-220 | passes exactly when every field is filled and neither the email nor the raw phone conflicts with a record of another id; a missing field is the first empty one in key order; `EmailExists` means some other record has the email; `PhoneExists` means the email is free and some other record has the raw phone |
| Form.FormPatch | src/components/employee-form.js:225 | the patch carries the bound id and every field of the buffer |
| Form.SaveResult | src/components/employee-form.js:222-237 | after a save the buffer holds its fields with the phone normalised; creating appends that buffer under the fresh id; editing keeps the length and the other records, and turns every record with the bound id into the buffer under that id |
| Form.MergeWritesBuffer | src/store.js:53-55 | merging the buffer's rewritten patch into a record yields exactly the buffer, with the rewritten phone, under the bound id |
| Form.ValidatedSaveFailsOnlyForPhone | src/components/employee-form.js:222-233 | after validation passes, the store refuses exactly when the record is gone, or the phone fails the pattern or is a normalised duplicate |
| Form.AddAfterCheck | src/components/employee-form.js:227 | after validation passes in create mode, the add fails exactly for the phone |
| Form.UpdateAfterCheck | src/components/employee-form.js:225 | after validation passes in edit mode, the update fails exactly for a missing id or the phone |
| Form.SaveKeepsConsistent | src/components/employee-form.js:222-228 | a successful save keeps ids, emails and non-empty phones distinct; in create mode this needs the fresh id to be new |
| Form.TypedExamplePassesCheck | src/components/employee-form.js:214-218 | a hyphenated spelling of a stored phone passes the raw uniqueness check |
| Form.TypedExampleRefused | src/store.js:25-29 | the store refuses the same spelling as a normalised duplicate |
| Form.RawPhoneCheckMissesSpelling | src/components/employee-form.js:214-233 | together, validation accepts that buffer and the save is refused, so `invalidPhoneFormat` is shown |
| Form.EmployeeForm.constructor | src/components/employee-form.js:167-175 | create mode, an empty buffer, no error, the dialog closed and no navigation |
| Form.EmployeeForm.ConnectedCallback | src/components/employee-form.js:177-186 | when the route names a stored id, binds it and copies that record into the buffer; otherwise nothing changes |
| Form.EmployeeForm.HandleInput | src/components/employee-form.js:195-199 | sets one field of the buffer and clears the error |
| Form.EmployeeForm.Validate | src/components/employee-form.js:201-220 | true exactly when `Check` passes, leaving the error as it was; otherwise the error key and field name the first failure |
| Form.EmployeeForm.SaveEmployee | src/components/employee-form.js:222-237 | on acceptance the store and the buffer become the result of the save and the form navigates to `/list`; on refusal nothing changes but the error, `invalidPhoneFormat` |
| Form.EmployeeForm.HandleSubmit | src/components/employee-form.js:239-252 | a failed check only sets its error; a passed check opens the dialog in edit mode, and saves at once in create mode |
| Form.EmployeeForm.DialogConfirm | src/components/employee-form.js:298 | closes the dialog, then saves as `SaveEmployee` does |
| Form.EmployeeForm.DialogCancel | src/components/employee-form.js:299 | closes the dialog and keeps the buffer |
| Form.EmployeeForm.HandleCancel | src/components/employee-form.js:254-256 | navigates to `/list` without saving |
| Localization.InitialLocale | src/localization.js:101-107 | always a known code: the saved one when known, else the document language when known, else English |
| Localization.Lookup | src/localization.js:119-122 | the table's entry when there is one, even an empty one; the key itself otherwise |
| Localization.MissingKeyFallsBack | src/localization.js:121 | a key in neither table comes back unchanged in every locale |
| Localization.EmptyEntryIsKept | src/localization.js:67 | the empty Turkish entry is returned as the empty string, not replaced by its key |
| Localization.NavLangValueNamesOther | src/localization.js:4 | each table's `navLangValue` names the other known table |
| Localization.FormMessagesTranslated | src/localization.js:2-93 | every error key and field key the form can show is in both tables |
| Localization.LocaleStore.constructor | src/localization.js:101-107 | the current locale is the start-up choice |
| Localization.LocaleStore.SetLocale | src/localization.js:109-117 | a known code becomes current and saved; an unknown one changes nothing |
| Localization.LocaleStore.T | src/localization.js:119-122 | looks the key up in the current table, falling back to the key |
| Localization.LocaleStore.GetLocale | src/localization.js:126-128 | returns the current locale, which is always known |
| Localization.LocaleStore.SwitchLanguage | src/components/nav-menu.js:121-124 | the language button always switches to the other table and saves it |

## Left out

- Storage is not modelled as an API. `localStorage` and JSON are represented by the ghost fields `EmployeeStore.persisted` and `LocaleStore.saved`, and a parse failure at load is not modelled. Storage being unavailable is outside the model.
- `Date.now()` is modelled only as the `freshId` parameter. `window.innerWidth` is the `width` parameter, and `window.location.pathname` is the `path` parameter.
- `Router.go` is modelled only as the `navigation` field.
- Rendering, CSS, event listeners, `requestUpdate` and the `locale-changed` broadcast are not modelled. `console.warn` in `setLocale` is not modelled either.
- The confirm-dialog component is reduced to the two callbacks each component passes to it. The navigation menu is modelled only through its language button (`SwitchLanguage`).
- `deleteRecord` in `src/components/employee-list.js` is not modelled. No template calls it, and it depends on `window.confirm`.
- `ListView.LowerChar` lower-cases only ASCII letters, whereas `toLowerCase` maps all of Unicode.
- Records are fixed to an id and the eight named fields. Extra or missing properties (`undefined`, which the model writes as `""`) are not modelled. In edit mode the buffer also holds the record's `id`, and `validate` checks it too; the model leaves that key out because a bound id is never empty.
- `translations[code]` and `dict[key]` would also find keys inherited from `Object.prototype`. The model treats only the tables' own keys as present.
- `Math.ceil` on floating point is modelled as exact integer ceiling division.
- `Localization.FormMessagesTranslated` covers the twelve keys the form's errors and field names use, not every key the templates render.
- `Store.UpdateKeepsConsistent` and `Form.SaveKeepsConsistent`: the invariant is proved only when the patch does not give the record the id of another stored record, or when the fresh id is new. The code does not check either condition.
- `Store.AddKeepsConsistent`: the whole invariant is proved only when the new record's id is not already stored. The code takes the id from `Date.now()` or from the candidate itself and never checks it; `Store.AddKeepsContactsDistinct` covers the email and phone half for any id.
- Ids are modelled as strings only. The store compares ids with `===`, so a record stored with a numeric id never matches the string id taken from the route; the model has no numeric ids and cannot show that miss.
