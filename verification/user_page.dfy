/**
 * The users page: the table's columns for `UserField`, the search over the
 * loaded list, removal after a delete, appending a saved user, and the switch
 * between the list and the form.
 */
module UserPage {
  import opened Wrappers
  import opened JsText
  import opened Seqs
  import opened UserFields
  import DataTable
  import UserForm
  import Menu = RowActionsMenu

  // ---------------------------------------------------------------------------
  // Columns and row actions

  /** The fields the columns name. */
  datatype UserKey = FirstName | LastName | Email | Status

  /** `row[key]` */
  function Field(u: UserField, k: UserKey): DataTable.Value {
    match k
    case FirstName => DataTable.Str(u.firstName)
    case LastName => DataTable.Str(u.lastName)
    case Email => DataTable.Str(u.email)
    case Status => DataTable.Bool(u.status)
  }

  /** `row.id`, the key of the row's action menu. */
  function IdOf(u: UserField): Menu.RowId {
    Menu.NumId(u.id)
  }

  datatype Tone = Positive | Negative | Muted

  /** The `<span>` the status column renders: green, red or grey italic text. */
  datatype Badge = Badge(tone: Tone, text: string)

  /** The status column's `render`: a boolean shows as active or inactive, anything else as undefined. */
  function StatusBadge(value: DataTable.Value, row: UserField): (b: Badge)
    ensures b.text == "Activo" <==> value == DataTable.Bool(true)
    ensures b.text == "Inactivo" <==> value == DataTable.Bool(false)
    ensures b.text == "Sin definir" <==> !value.Bool?
    ensures b.tone == Positive <==> b.text == "Activo"
  {
    if value.Bool? then
      if value.b then Badge(Positive, "Activo") else Badge(Negative, "Inactivo")
    else Badge(Muted, "Sin definir")
  }

  const Columns: seq<DataTable.Column<UserField, UserKey, Badge>> := [
    DataTable.Column(FirstName, "Nombre", None),
    DataTable.Column(LastName, "Apellido", None),
    DataTable.Column(Email, "Email", None),
    DataTable.Column(Status, "Estado", Some(StatusBadge))
  ]

  /** What a row action does to the page. */
  datatype UserAction = EditUser(user: UserField) | DeleteUser(user: UserField)

  function RowActions(u: UserField): seq<DataTable.RowAction<UserAction>> {
    [DataTable.RowAction("Editar", EditUser(u), false), DataTable.RowAction("Eliminar", DeleteUser(u), true)]
  }

  // ---------------------------------------------------------------------------
  // Page state

  /**
   * `users` the loaded list, `showForm` whether the form replaces the list,
   * `selected` the user being edited, `searchText` the stored query.
   */
  datatype Page = Page(users: seq<UserField>, showForm: bool, selected: Option<UserField>, searchText: string)

  const Initial := Page([], false, None, "")

  /** The text a search is matched against, before lowering. */
  function FullText(u: UserField): string {
    u.firstName + " " + u.lastName + " " + u.email
  }

  predicate Matches(query: string, u: UserField) {
    Includes(Lower(FullText(u)), query)
  }

  /** `users.filter(...)`: the users whose lowered full text contains `query`, in list order. */
  function Search(users: seq<UserField>, query: string): (r: seq<UserField>)
    ensures forall i :: 0 <= i < |r| ==> Matches(query, r[i])
    ensures forall u :: multiset(r)[u] == if Matches(query, u) then multiset(users)[u] else 0
    ensures SubsequenceOf(r, users)
  {
    Filter(users, u => Matches(query, u))
  }

  /** `filteredUsers`: the rows the table shows. */
  function Visible(p: Page): seq<UserField> {
    Search(p.users, p.searchText)
  }

  /** The search box's change handler stores the typed text lowered. */
  function TypeSearch(p: Page, typed: string): (p': Page)
    ensures p'.users == p.users && p'.showForm == p.showForm && p'.selected == p.selected
    ensures p'.searchText == Lower(typed)
  {
    p.(searchText := Lower(typed))
  }

  /** `handleEdit`: remember the row and show the form. */
  function Edit(p: Page, row: UserField): (p': Page)
    ensures p'.showForm && FormInitialData(p') == Some(row)
    ensures p'.users == p.users && p'.searchText == p.searchText
  {
    p.(selected := Some(row), showForm := true)
  }

  /** The form's `onCancel`: back to the list, nothing selected. */
  function Cancel(p: Page): (p': Page)
    ensures !p'.showForm && FormInitialData(p') == None
    ensures p'.users == p.users && p'.searchText == p.searchText
  {
    p.(showForm := false, selected := None)
  }

  /** "Crear Usuario": show the form, leaving `selected` as it is. */
  function OpenCreate(p: Page): (p': Page)
    ensures p'.showForm && FormInitialData(p') == FormInitialData(p)
    ensures p'.users == p.users && p'.searchText == p.searchText
  {
    p.(showForm := true)
  }

  /** The form's `initialData` prop. */
  function FormInitialData(p: Page): Option<UserField> {
    p.selected
  }

  /**
   * `handleDelete` after the confirmation and the request: when both
   * succeeded, every user with the row's id is dropped; otherwise nothing
   * changes.
   */
  function DeleteDone(p: Page, row: UserField, succeeded: bool): (p': Page)
    ensures succeeded ==> forall u :: u in p'.users <==> u in p.users && u.id != row.id
    ensures succeeded ==> forall u :: multiset(p'.users)[u] == if u.id != row.id then multiset(p.users)[u] else 0
    ensures SubsequenceOf(p'.users, p.users)
    ensures !succeeded ==> p' == p
    ensures p'.showForm == p.showForm && p'.selected == p.selected && p'.searchText == p.searchText
  {
    if succeeded then
      var r := Filter(p.users, (u: UserField) => u.id != row.id);
      assert forall u :: u in r <==> u in p.users && u.id != row.id by {
        forall u ensures u in r <==> u in p.users && u.id != row.id {
          FilterMembership(p.users, (u: UserField) => u.id != row.id, u);
        }
      }
      p.(users := r)
    else
      SubsequenceReflexive(p.users);
      p
  }

  /**
   * A successful save: `updateUserList` appends the server's copy, then
   * `onCancel` returns to the list.  The refetch it also starts arrives later
   * as `Fetched`.
   */
  function SaveDone(p: Page, saved: UserField): (p': Page)
    ensures |p'.users| == |p.users| + 1
    ensures p'.users[..|p.users|] == p.users && p'.users[|p.users|] == saved
    ensures !p'.showForm && p'.selected == None && p'.searchText == p.searchText
  {
    Cancel(p.(users := p.users + [saved]))
  }

  /** `fetchData` succeeded with this list. */
  function Fetched(p: Page, users: seq<UserField>): Page {
    p.(users := users)
  }

  datatype PageEvent =
    | EditClicked(row: UserField)
    | DeleteFinished(row: UserField, succeeded: bool)
    | CreateClicked
    | FormCancelled
    | FormSaved(saved: UserField)
    | SearchTyped(typed: string)
    | UsersFetched(users: seq<UserField>)

  function StepPage(p: Page, e: PageEvent): Page {
    match e
    case EditClicked(row) => Edit(p, row)
    case DeleteFinished(row, ok) => DeleteDone(p, row, ok)
    case CreateClicked => OpenCreate(p)
    case FormCancelled => Cancel(p)
    case FormSaved(saved) => SaveDone(p, saved)
    case SearchTyped(typed) => TypeSearch(p, typed)
    case UsersFetched(users) => Fetched(p, users)
  }

  function RunPage(p: Page, events: seq<PageEvent>): Page
    decreases |events|
  {
    if |events| == 0 then p else RunPage(StepPage(p, events[0]), events[1..])
  }

  /** While the list is shown, no user is selected. */
  ghost predicate ListClearsSelection(p: Page) {
    !p.showForm ==> p.selected == None
  }

  // ---------------------------------------------------------------------------
  // Properties

  /** The status cell reads "Activo" or "Inactivo" after the user's flag. */
  lemma StatusCellOfUser(u: UserField)
    ensures StatusBadge(Field(u, Status), u).text == (if u.status then "Activo" else "Inactivo")
  {
  }

  /** The list's status label and the form's status select show the same word for the same flag. */
  lemma BadgeMatchesSelect(u: UserField)
    ensures StatusBadge(Field(u, Status), u).text == UserForm.StatusOption(u.status)
  {
  }

  /** Each shown user's row: the three names as text, the status badge, and the Editar/Eliminar actions on that user. */
  lemma UserRowContents(p: Page, menu: Menu.MenuState, i: int)
    requires 0 <= i < |Visible(p)|
    ensures var u := Visible(p)[i];
      var row := DataTable.Layout(Columns, Visible(p), RowActions, Field, IdOf, menu).body[i];
      && row.cells == [
           DataTable.Text(u.firstName), DataTable.Text(u.lastName), DataTable.Text(u.email),
           DataTable.Rendered(StatusBadge(DataTable.Bool(u.status), u))]
      && row.actionsCell.rowId == Menu.NumId(u.id)
      && row.actionsCell.actions[0].effect == EditUser(u)
      && row.actionsCell.actions[1].effect == DeleteUser(u)
  {
    var u := Visible(p)[i];
    var row := DataTable.Layout(Columns, Visible(p), RowActions, Field, IdOf, menu).body[i];
    forall j | 0 <= j < 4
      ensures row.cells[j] == DataTable.CellContent(Columns[j], u, Field)
    {
      DataTable.CellFidelity(Columns, Visible(p), RowActions, Field, IdOf, menu, i, j);
    }
  }

  /** The table shows a user exactly when it is in the list and its lowered full text contains the stored query. */
  lemma VisibleMembership(p: Page, u: UserField)
    ensures u in Visible(p) <==> u in p.users && Includes(Lower(FullText(u)), p.searchText)
  {
    SearchMembership(p.users, p.searchText, u);
  }

  /**
   * A successful fetch replaces the list and keeps the view, the selection
   * and the query; under an empty query the table shows the fetched list as it came.
   */
  lemma FetchedShowsFetched(p: Page, users: seq<UserField>)
    ensures var q := Fetched(p, users);
      q.users == users && q.showForm == p.showForm && q.selected == p.selected && q.searchText == p.searchText
    ensures p.searchText == "" ==> Visible(Fetched(p, users)) == users
  {
    if p.searchText == "" {
      EmptySearchKeepsAll(users);
    }
  }

  /** An empty search keeps every user, in order. */
  lemma EmptySearchKeepsAll(users: seq<UserField>)
    ensures Search(users, "") == users
  {
    forall i | 0 <= i < |users| ensures Matches("", users[i]) {
      IncludesEmpty(Lower(FullText(users[i])));
    }
    FilterAllPass(users, u => Matches("", u));
  }

  /** A user is kept exactly when it is in the list and matches. */
  lemma SearchMembership(users: seq<UserField>, query: string, u: UserField)
    ensures u in Search(users, query) <==> u in users && Matches(query, u)
  {
    FilterMembership(users, v => Matches(query, v), u);
  }

  /** Text typed in any case finds every user whose full text contains it verbatim. */
  lemma SearchFindsTypedText(p: Page, typed: string, u: UserField)
    requires u in p.users
    requires Includes(FullText(u), typed)
    ensures u in Visible(TypeSearch(p, typed))
  {
    LowerKeepsIncludes(FullText(u), typed);
    LowerIdempotent(FullText(u));
    SearchMembership(p.users, Lower(typed), u);
  }

  /** Typing a query or its lowered form selects the same rows. */
  lemma SearchIgnoresQueryCase(p: Page, typed: string)
    ensures Visible(TypeSearch(p, typed)) == Visible(TypeSearch(p, Lower(typed)))
  {
    LowerIdempotent(typed);
  }

  /** A user whose fields differ from another's only in letter case matches the same queries. */
  lemma SearchIgnoresUserCase(query: string, u: UserField, v: UserField)
    requires Lower(u.firstName) == Lower(v.firstName)
    requires Lower(u.lastName) == Lower(v.lastName)
    requires Lower(u.email) == Lower(v.email)
    ensures Matches(query, u) <==> Matches(query, v)
  {
    LowerConcat(u.firstName + " " + u.lastName + " ", u.email);
    LowerConcat(u.firstName + " " + u.lastName, " ");
    LowerConcat(u.firstName + " ", u.lastName);
    LowerConcat(u.firstName, " ");
    LowerConcat(v.firstName + " " + v.lastName + " ", v.email);
    LowerConcat(v.firstName + " " + v.lastName, " ");
    LowerConcat(v.firstName + " ", v.lastName);
    LowerConcat(v.firstName, " ");
  }

  /** Appending a user extends the search result by that user exactly when it matches. */
  lemma SearchAfterAppend(users: seq<UserField>, query: string, u: UserField)
    ensures Search(users + [u], query) == Search(users, query) + (if Matches(query, u) then [u] else [])
  {
    FilterConcat(users, [u], v => Matches(query, v));
  }

  /** Deleting a freshly saved user's id leaves what deleting that id left before the save. */
  lemma DeleteAfterSave(p: Page, u: UserField)
    ensures DeleteDone(SaveDone(p, u), u, true).users == DeleteDone(p, u, true).users
  {
    FilterConcat(p.users, [u], (v: UserField) => v.id != u.id);
  }

  /**
   * Saving in edit mode appends the updated copy without removing the old
   * one, so until the refetch arrives the list holds the id twice.
   */
  lemma EditSaveDuplicatesId(p: Page, previous: UserField, saved: UserField)
    requires previous in p.users && saved.id == previous.id
    ensures var users := SaveDone(p, saved).users;
      exists i, j :: 0 <= i < j < |users| && users[i].id == users[j].id == saved.id
  {
    var users := SaveDone(p, saved).users;
    var i :| 0 <= i < |p.users| && p.users[i] == previous;
    assert users[i] == previous && users[|p.users|] == saved;
  }

  /** Every page event keeps the list view free of a selection. */
  lemma StepKeepsListClear(p: Page, e: PageEvent)
    requires ListClearsSelection(p)
    ensures ListClearsSelection(StepPage(p, e))
  {
  }

  /** From the first render, the list view never carries a selected user. */
  lemma {:induction false} RunKeepsListClear(p: Page, events: seq<PageEvent>)
    requires ListClearsSelection(p)
    ensures ListClearsSelection(RunPage(p, events))
    decreases |events|
  {
    if |events| > 0 {
      StepKeepsListClear(p, events[0]);
      RunKeepsListClear(StepPage(p, events[0]), events[1..]);
    }
  }

  /** "Crear Usuario", pressed in the list view of any reachable page, opens the form with no initial data. */
  lemma CreateOpensEmptyForm(events: seq<PageEvent>)
    requires !RunPage(Initial, events).showForm
    ensures var p := OpenCreate(RunPage(Initial, events));
      p.showForm && FormInitialData(p) == None
  {
    RunKeepsListClear(Initial, events);
  }

  /** Edit shows the form with the row as initial data; cancelling returns to the list with nothing selected. */
  lemma EditThenCancel(p: Page, row: UserField)
    ensures Edit(p, row).showForm && FormInitialData(Edit(p, row)) == Some(row)
    ensures var q := Cancel(Edit(p, row));
      !q.showForm && FormInitialData(q) == None && q.users == p.users
  {
  }
}
