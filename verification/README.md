# User table: a Dafny model

This project models the logic inside a small React user-administration app:

- **The row action menu.** `RowActionsMenu` is a state machine over the table's shared "open row id", each row's stored menu position, and the multiset of `mousedown`/`keydown` handlers attached to the document.
- **The generic table layout.** `DataTable` is a pure function from columns, rows and row actions to a header, body rows (cells plus an actions cell) or the single placeholder row.
- **The users page.** `User` contributes the status column, the case-insensitive search, removal after a delete, appending a saved user, and the list/form toggle.
- **The create/edit form.** `UserForm` covers the initial form data, `handleChange`, the status select, the email pattern `^[^\s@]+@[^\s@]+\.[^\s@]+$`, and the validation that decides whether a save request goes out.

Modules:

- `Wrappers`: `Option`.
- `JsText`: the JavaScript string operations the pages rely on, ASCII only: `trim`, the `\s` class, `toLowerCase`, `includes`, and `String(n)`.
- `Seqs`: `Array.prototype.filter` and subsequences.
- `RowActionsMenu`: the menu state machine.
- `DataTable`: the table layout.
- `UserFields`: the `UserField` record.
- `UserPage`: the users page.
- `UserForm`: the form.

DOM and network inputs are parameters:

- the trigger's bounding rectangle and the scroll offsets are integers;
- "does the menu or button contain the target" is a boolean per row;
- "the delete was confirmed and succeeded" is a boolean;
- a refetch is an event carrying the fetched list.

The email pattern is decided by a one-pass scanner (`UserForm.ValidateEmail`). Two lemmas tie the scanner to the rest of the model:

- it agrees with a direct reading of the regular expression (`UserForm.PatternMatches`);
- it agrees with a plain-words description of the accepted strings (`UserForm.EmailShape`).

## Model

| member | source | states |
|---|---|---|
| RowActionsMenu.Anchor | src/Components/RowActionsMenu.tsx:38-42 | the stored position is the trigger's bottom plus the vertical scroll, and its right edge minus the 192-pixel menu width plus the horizontal scroll |
| RowActionsMenu.AnchorExample | src/Components/RowActionsMenu.tsx:38-42 | a trigger with bottom 120 and right 300, unscrolled, anchors the menu at (120, 108) |
| RowActionsMenu.ToggleMenu | src/Components/RowActionsMenu.tsx:33-45 | toggling the open row closes it and keeps every stored position; toggling another row with a trigger opens it at the trigger's anchor and leaves other rows' positions alone; without a trigger nothing changes; the mounted rows never change |
| RowActionsMenu.SetOpen | src/Components/RowActionsMenu.tsx:30-78 | setting the open id stores the new id and leaves the mounted rows and every stored position alone |
| RowActionsMenu.SetOpenLocal | src/Components/RowActionsMenu.tsx:65-78 | changing the open id leaves the handlers of every row other than the previous and the next open row as they were |
| RowActionsMenu.SetOpenAttaches | src/Components/RowActionsMenu.tsx:65-71 | opening a mounted row that was not open attaches its mousedown and its keydown handler |
| RowActionsMenu.RerunEffectElsewhere | src/Components/RowActionsMenu.tsx:65-78 | one row's effect run and cleanup never change the handlers of another row |
| RowActionsMenu.Remount | src/Components/RowActionsMenu.tsx:73-77 | a re-render keeps the open id, mounts exactly the given rows, drops the stored positions of rows that left, and keeps those of rows that stay |
| RowActionsMenu.Step | src/Components/RowActionsMenu.tsx:33-107 | as `RowActionsMenu.StepShape`, `MouseDownRule`, `EscapeRule`, `ActionClickRule` and `StepConsistent` state: a toggle dispatches to `toggleMenu`, a mousedown closes exactly when an attached handler finds both refs and the target outside them, a keydown closes exactly on "Escape" while a handler is attached, a menu item click closes once its handler returns, and a re-render remounts; every event keeps the handlers equal to the open mounted row's |
| RowActionsMenu.Initial | src/Components/DataTable.tsx:32 | as `RowActionsMenu.InitialAtOrigin` and `DataTable.InitialStateClosed` state: the first render has no open row and no handler, and every row's menu at (0, 0) |
| RowActionsMenu.InitialAtOrigin | src/Components/RowActionsMenu.tsx:28-30 | the first render (`useState(null)` for the open id, `{top: 0, left: 0}` for each row) is consistent, has nothing open, and places every row's menu at (0, 0) |
| RowActionsMenu.StepShape | src/Components/RowActionsMenu.tsx:33-107 | only a re-render changes the mounted rows, and an event either keeps the open id, closes the menu, or opens the row it toggled |
| RowActionsMenu.ToggleOpenRowCloses | src/Components/RowActionsMenu.tsx:33-35 | toggling the open row sets the open id to none, keeps every stored position, and leaves no handler attached and no menu shown |
| RowActionsMenu.ToggleClosedRowOpens | src/Components/RowActionsMenu.tsx:36-43 | toggling a closed row whose trigger exists makes it the only open row, shows its menu at the new anchor, leaves other rows' positions alone, and attaches exactly that row's two handlers |
| RowActionsMenu.ToggleWithoutTriggerIgnored | src/Components/RowActionsMenu.tsx:36 | toggling a closed row whose trigger ref is null changes nothing |
| RowActionsMenu.ToggleTwiceCloses | src/Components/RowActionsMenu.tsx:33-45 | opening and then toggling the same row again ends with nothing open, no handler attached, and the anchor of the opening kept |
| RowActionsMenu.PositionWrittenOnlyOnOpen | src/Components/RowActionsMenu.tsx:28-43 | a row's stored position changes only when a toggle with a trigger opens that row, and it then holds that toggle's anchor |
| RowActionsMenu.AtMostOneShown | src/Components/RowActionsMenu.tsx:30 | two rows that both show their menu are the same row, because the open id is a single value |
| RowActionsMenu.MouseDownRule | src/Components/RowActionsMenu.tsx:49-57 | with a row open, a mousedown closes it exactly when both refs exist and the target is inside neither; otherwise nothing changes |
| RowActionsMenu.EscapeRule | src/Components/RowActionsMenu.tsx:60-62 | with a row open, a keydown closes it exactly when the key is "Escape"; any other key changes nothing |
| RowActionsMenu.ClosedIgnoresDocumentEvents | src/Components/RowActionsMenu.tsx:65-71 | with no row open no handler is attached, so mouse and key events change nothing |
| RowActionsMenu.ActionClickRule | src/Components/RowActionsMenu.tsx:104-107 | a menu item click closes the menu once the item's handler returns; a handler that throws leaves the state as it was |
| RowActionsMenu.SetOpenConsistent | src/Components/RowActionsMenu.tsx:65-78 | after any change of the open id, the effect re-runs and cleanups leave attached exactly the open row's two handlers |
| RowActionsMenu.ToggleConsistent | src/Components/RowActionsMenu.tsx:33-78 | a toggle of a mounted row keeps the attached handlers equal to the open row's and positions only for mounted rows |
| RowActionsMenu.RemountConsistent | src/Components/RowActionsMenu.tsx:73-77 | rows mounting and unmounting keep the attached handlers equal to the open mounted row's and positions only for mounted rows |
| RowActionsMenu.StepConsistent | src/Components/RowActionsMenu.tsx:33-78 | every event, including rows mounting and unmounting, keeps the attached handlers equal to the open mounted row's and keeps positions only for mounted rows |
| RowActionsMenu.RunConsistent | src/Components/RowActionsMenu.tsx:33-78 | any sequence of events from a consistent state keeps it consistent |
| RowActionsMenu.ReachableListeners | src/Components/RowActionsMenu.tsx:65-77 | from the table's first render, at most two handlers are ever attached, and none while no mounted row is open |
| RowActionsMenu.ListenersBelongToOpenRow | src/Components/RowActionsMenu.tsx:65-68 | every attached handler was attached by the open, mounted row |
| RowActionsMenu.ClosingDetaches | src/Components/RowActionsMenu.tsx:73-77 | when an event makes the open row stop being open, none of its handlers remain attached |
| RowActionsMenu.UnmountDetachesAll | src/Components/RowActionsMenu.tsx:73-77 | unmounting every row leaves no handler attached |
| DataTable.Header | src/Components/DataTable.tsx:40-50 | the header lists every column's title in order, then "Acciones" |
| DataTable.Layout | src/Components/DataTable.tsx:40-93 | the header has one cell more than there are columns, ending in "Acciones"; non-empty data gives one data row per element in order, each with one cell per column and an actions cell holding that element's actions, id and shared menu state; empty data gives only the placeholder row spanning every column |
| DataTable.RowsMatchHeader | src/Components/DataTable.tsx:54-92 | every body row, data or placeholder, spans as many columns as the header has cells |
| DataTable.CellFidelity | src/Components/DataTable.tsx:60-62 | cell (i, j) is the column's `render` applied to the field value and the whole row when `render` is present, and the value's `String` otherwise |
| DataTable.Stringify | src/Components/DataTable.tsx:62 | as `DataTable.StringifyFaithful` states: a string is kept and an integer becomes decimal text that reads back to it |
| DataTable.CellContent | src/Components/DataTable.tsx:60-62 | as `DataTable.CellFidelity` states: the column's `render` of the value and row when present, the value's `String` otherwise |
| DataTable.StringifyFaithful | src/Components/DataTable.tsx:62 | `String` keeps a string as it is and writes an integer as decimal text that reads back to the same integer |
| DataTable.OpenMenusFollowSharedState | src/Components/DataTable.tsx:75-79 | with the table's rows mounted, a row's actions cell shows a menu exactly when the shared open id is that row's id |
| DataTable.AtMostOneOpenRow | src/Components/DataTable.tsx:32 | with distinct row ids, at most one body row shows its menu |
| DataTable.EmptyHasNoMenus | src/Components/DataTable.tsx:84-92 | empty data gives one body row, the placeholder spanning every column, and no actions cell |
| DataTable.InitialStateClosed | src/Components/DataTable.tsx:32 | on the first render no row shows a menu and no handler is attached |
| UserPage.StatusBadge | src/Pages/User.tsx:22-31 | the status cell reads "Activo" exactly for `true`, "Inactivo" exactly for `false`, "Sin definir" exactly for a non-boolean, and is green exactly when "Activo" |
| UserPage.BadgeMatchesSelect | src/Pages/User.tsx:23-28 | the list's status label shows the same word for a user's flag as the form's status select (UserForm.tsx:185) |
| UserPage.StatusCellOfUser | src/Pages/User.tsx:19-31 | a user's status cell reads "Activo" or "Inactivo" according to the user's flag |
| UserPage.UserRowContents | src/Pages/User.tsx:15-147 | each shown user's row holds the three names as text and the status badge, its menu is bound to the user's id, and its Editar and Eliminar actions act on that user |
| UserPage.Visible | src/Pages/User.tsx:88-92 | as `UserPage.VisibleMembership` and `UserPage.Search` state: `filteredUsers` is the list filtered by the stored query, in order and with multiplicities |
| UserPage.VisibleMembership | src/Pages/User.tsx:88-92 | the table shows a user exactly when it is in the list and its lowered "first last email" contains the stored query |
| UserPage.Fetched | src/Pages/User.tsx:64-75 | as `UserPage.FetchedShowsFetched` states: a fetch replaces the list and nothing else |
| UserPage.FetchedShowsFetched | src/Pages/User.tsx:64-92 | a successful fetch replaces the list and keeps the view, the selection and the query; under an empty query the table shows the fetched list as it came |
| UserPage.Search | src/Pages/User.tsx:88-92 | the search result holds only matching users, each matching user exactly as often as in the list, in list order |
| UserPage.SearchMembership | src/Pages/User.tsx:88-92 | a user is shown exactly when it is in the list and its lowered "first last email" contains the query |
| UserPage.EmptySearchKeepsAll | src/Pages/User.tsx:88-92 | an empty query shows the whole list unchanged |
| UserPage.TypeSearch | src/Pages/User.tsx:115 | typing stores the lowered text as the query and changes nothing else |
| UserPage.SearchFindsTypedText | src/Pages/User.tsx:88-115 | text typed in any letter case finds every user whose full text contains it verbatim |
| UserPage.SearchIgnoresQueryCase | src/Pages/User.tsx:115 | typing a query or its lowercase form shows the same rows |
| UserPage.SearchIgnoresUserCase | src/Pages/User.tsx:89-91 | users whose fields differ only in letter case match the same queries |
| UserPage.SearchAfterAppend | src/Pages/User.tsx:88-92 | appending a user extends the search result by that user exactly when it matches |
| UserPage.DeleteDone | src/Pages/User.tsx:49-61 | a successful delete keeps exactly the users whose id differs from the row's, each as often as before and in their original order; a failed or cancelled one changes nothing |
| UserPage.SaveDone | src/Pages/User.tsx:160-166 | a save appends the returned user at the end, keeps the earlier users as they were, and returns to the list with nothing selected |
| UserPage.DeleteAfterSave | src/Pages/User.tsx:54 | deleting a just-saved user's id leaves the same list as deleting that id before the save |
| UserPage.EditSaveDuplicatesId | src/Pages/User.tsx:166 | saving an edited user appends a second entry with the same id at the end of the list, while the old entry stays |
| UserPage.Edit | src/Pages/User.tsx:43-46 | pressing edit shows the form with that row as its initial data and leaves the list and the query alone |
| UserPage.Cancel | src/Pages/User.tsx:160-163 | closing the form goes back to the list with no initial data and leaves the list and the query alone |
| UserPage.OpenCreate | src/Pages/User.tsx:119 | "Crear Usuario" shows the form, keeps whatever initial data was selected, and leaves the list and the query alone |
| UserPage.EditThenCancel | src/Pages/User.tsx:43-46 | edit shows the form with the row as its initial data; cancel goes back to the list with nothing selected and the list unchanged |
| UserPage.StepKeepsListClear | src/Pages/User.tsx:43-166 | no page event leaves a selected user while the list is shown |
| UserPage.RunKeepsListClear | src/Pages/User.tsx:43-166 | along any sequence of page events, the list view never carries a selected user |
| UserPage.CreateOpensEmptyForm | src/Pages/User.tsx:119 | "Crear Usuario" pressed on a reachable list view opens the form with null initial data |
| UserForm.InitialData | src/Pages/UserForm.tsx:32-38 | given initial data the form starts as a copy of it; without, it starts with id 0, empty strings and `false` |
| UserForm.Init | src/Pages/UserForm.tsx:32-41 | the form starts with no errors and is in edit mode exactly when initial data is given |
| UserForm.HandleChange | src/Pages/UserForm.tsx:64-67 | a change sets the field named by the input to the new value and leaves every other field, the errors and the mode unchanged |
| UserForm.ChangeStatus | src/Pages/UserForm.tsx:186-188 | choosing a status option sets the flag to whether "Activo" was chosen and changes nothing else |
| UserForm.StatusRoundTrip | src/Pages/UserForm.tsx:185-188 | choosing the option shown for a flag gives that flag back, and showing the flag of a chosen option gives that option back |
| UserForm.CleanIff | src/Pages/UserForm.tsx:46 | a string is a run of `[^\s@]` exactly when each of its characters is neither whitespace nor '@' |
| UserForm.TailAccepts | src/Pages/UserForm.tsx:46 | after the domain's '.', the scanner accepts exactly the strings with no whitespace and no '@' |
| UserForm.HostAccepts | src/Pages/UserForm.tsx:46 | inside the domain, the scanner accepts exactly the clean strings with a '.' before their last character |
| UserForm.AtSignAccepts | src/Pages/UserForm.tsx:46 | right after the '@', the scanner accepts exactly the strings that `[^\s@]+\.[^\s@]+` matches |
| UserForm.LocalAccepts | src/Pages/UserForm.tsx:46 | inside the local part, the scanner accepts exactly the strings that split at an '@' into a clean prefix and a matching domain |
| UserForm.ValidateEmail | src/Pages/UserForm.tsx:45-48 | as `UserForm.ValidateEmailMatches` and `UserForm.ValidateEmailIff` state: the check accepts exactly the pattern's matches, which are exactly the strings of the plain-words shape |
| UserForm.ValidateEmailMatches | src/Pages/UserForm.tsx:45-48 | the email check accepts exactly the strings the anchored pattern matches |
| UserForm.MatchHasShape | src/Pages/UserForm.tsx:46 | a string the pattern matches has no whitespace, exactly one '@' with something before it, and a domain with a '.' that is neither first nor last |
| UserForm.ShapeMatches | src/Pages/UserForm.tsx:46 | every string of that shape matches the pattern |
| UserForm.ValidateEmailIff | src/Pages/UserForm.tsx:45-48 | the email check accepts exactly the strings of that shape |
| UserForm.ExampleAccepted | src/Pages/UserForm.tsx:45-48 | "ana@mail.co" passes the email check |
| UserForm.Validate | src/Pages/UserForm.tsx:74-81 | a first or last name error is present exactly when that name trims to nothing; an email error is present exactly when the email trims to nothing or fails the pattern |
| UserForm.FirstNameError | src/Pages/UserForm.tsx:75 | the first name gets an error exactly when it is empty or all whitespace, and the error says the name is required |
| UserForm.LastNameError | src/Pages/UserForm.tsx:76 | the last name gets an error exactly when it is empty or all whitespace, and the error says it is required |
| UserForm.EmailErrors | src/Pages/UserForm.tsx:77-81 | the email gets "required" exactly when it is all whitespace, "format" exactly when it is not but lacks the accepted shape, and no error exactly when it has that shape |
| UserForm.PaddedEmailMalformed | src/Pages/UserForm.tsx:77-80 | a non-blank email with leading or trailing whitespace gets the format error, because the pattern sees the untrimmed text |
| UserForm.PaddedExampleTrimsValid | src/Pages/UserForm.tsx:77-79 | " ana@mail.co" trims to an address the pattern accepts |
| UserForm.PaddedEmailExample | src/Pages/UserForm.tsx:77-80 | a form whose email is " ana@mail.co" is rejected with the format error |
| UserForm.Submit | src/Pages/UserForm.tsx:84-106 | a request is sent exactly when validation finds no error; otherwise the new errors replace the old ones and nothing is sent; a sent request carries the form data, as a PUT to the user's id in edit mode and as a POST otherwise |
| UserForm.SubmitSendsOnlyValid | src/Pages/UserForm.tsx:74-88 | a request is sent only when both names have a non-space character and the email has the accepted shape |
| UserForm.EmptyFormBlocked | src/Pages/UserForm.tsx:32-88 | `handleSubmit` run on a new, untouched form sends nothing and reports all three required-field errors |
| UserForm.Press | src/Pages/UserForm.tsx:133-205 | pressing the submit button reaches `handleSubmit` exactly when all three `required` text inputs are non-empty, and then does what `handleSubmit` does |
| UserForm.UntouchedFormStoppedByBrowser | src/Pages/UserForm.tsx:32-176 | on a new, untouched form the browser's `required` check stops the submit before `handleSubmit` runs |
| UserForm.PressedRequiredMeansWhitespace | src/Pages/UserForm.tsx:74-176 | when a submit through the button is blocked, every "required" message belongs to a field that is non-empty but all whitespace |
| JsText.Trim | src/Pages/UserForm.tsx:75-77 | as `JsText.TrimStartShape` and `JsText.TrimEndShape` state: trimming removes leading and trailing whitespace runs and nothing else |
| JsText.Lower | src/Pages/User.tsx:90 | as `JsText.LowerIdempotent` and `JsText.LowerKeepsIncludes` state: lowering is idempotent and keeps occurrences |
| JsText.Includes | src/Pages/User.tsx:91 | as `JsText.IncludesIff` states: the needle is found exactly when it occurs at some index |
| JsText.TrimStartShape | src/Pages/UserForm.tsx:75-77 | trimming the start removes a run of leading whitespace and nothing else, leaving a suffix that does not start with whitespace |
| JsText.TrimEndShape | src/Pages/UserForm.tsx:75-77 | trimming the end removes a run of trailing whitespace and nothing else, leaving a prefix that does not end with whitespace |
| JsText.BlankIffAllSpace | src/Pages/UserForm.tsx:75-77 | `!s.trim()` holds exactly when every character of `s` is whitespace |
| JsText.IncludesIff | src/Pages/User.tsx:91 | `includes` finds the needle exactly when it occurs at some index of the text |
| JsText.LowerKeepsIncludes | src/Pages/User.tsx:90-91 | lowering both sides keeps an occurrence |
| JsText.LowerIdempotent | src/Pages/User.tsx:90 | lowering twice is lowering once |
| JsText.IntToStringRoundTrip | src/Components/DataTable.tsx:62 | the decimal text of an integer parses back to that integer |
| Seqs.Filter | src/Pages/User.tsx:54 | `filter` keeps the passing elements, each as often as it occurs, in order, and drops the rest |
| Seqs.FilterConcat | src/Pages/User.tsx:54 | filtering a concatenation is concatenating the filtered parts |

## Left out

- Network calls are not modelled: the GET, POST, PUT and DELETE requests and the mapping of fetched records. A delete arrives as "confirmed and succeeded", a save as the user the server returned, and a refetch as the fetched list.
- `confirm`, `alert` and `console` are not modelled; they are dialogs and logging. A cancelled confirm is the same as a failed delete.
- The loading flags and the spinner are not modelled; they only choose what is drawn while waiting.
- The `scroll-locked` class on the document root is not modelled. When the open row switches, the old row's effect re-runs its else-branch and can remove the class the new row just added. Who wins depends on React's effect order across sibling rows.
- Fixed positioning, icons, CSS classes, animations and the presentational components are not modelled: ButtonGradient, CancelButton, Spinner, InputLabel, InputError, SelectInput, TextInput and InputSearch.
- Real coordinates are floating-point; the model takes whole pixels.
- Whitespace (`\s` and `trim`) and `toLowerCase` cover only ASCII. JavaScript's Unicode whitespace and case mapping are not modelled.
- `String(value)` is modelled for integers, strings, booleans, `null` and `undefined`; numbers with fractions are not.
- The `status === undefined` check of `handleSubmit` is not modelled. `status` is typed `boolean`, so the check never fires.
- The form's `useEffect` that copies `initialData` again after mounting is not modelled. It writes the same values `InitialData` already gives, because the form is re-mounted whenever the page switches to it.
- `RowActionsMenu.Step` ignores events aimed at elements that are not rendered: a toggle of an unmounted row, or a click on a closed row's menu item.
- RowActionsMenu.ReachableListeners: the menu model keeps one stored position and one handler effect per row id, while the source keeps them per component instance. With two rows sharing an id, both instances show their menu when that id is open, each at its own last anchor, or at (0, 0) if that instance was never opened, and four handlers are attached. The model assumes distinct row ids, although such lists can occur (`UserPage.EditSaveDuplicatesId`).
- UserForm.EmptyFormBlocked: states what `handleSubmit` does if it runs on an untouched form. Through the button, the browser's `required` check stops that form first (`UserForm.UntouchedFormStoppedByBrowser`), and a "required" message can only appear for a whitespace-only value (`UserForm.PressedRequiredMeansWhitespace`).
- DataTable.StringifyFaithful: `Value.Num` stands for integer-valued JavaScript numbers of magnitude below 1e21 that a double holds exactly (at most 2^53 in magnitude). Beyond that, `String` writes exponent form or the number has already lost precision, so the round trip is claimed only within that range.
- The search box's own text is not modelled. InputSearch keeps it in its own state (src/Components/InputSearch.tsx:18) and unmounts with the list view, so after the form closes the box starts empty while the page's stored query keeps its value (`UserPage.Cancel`): the list comes back filtered under an empty box.
- `DataTable.AtMostOneOpenRow` assumes distinct row ids. The source uses the id as the React key and does not check that ids are distinct.
- Error keys are a three-value datatype rather than the strings "firstName", "lastName" and "email". Messages are a datatype whose `Text` is the Spanish message.
- A menu item's handler runs before the close, so a handler that throws leaves the menu open. `RowActionsMenu.ActionClickRule` states this behaviour of the code, not a close that always happens.
