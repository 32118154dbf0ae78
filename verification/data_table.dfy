/**
 * The generic table: a header row of column titles plus "Acciones", then one
 * body row per data element (its column cells and an actions cell holding the
 * row's action menu), or a single placeholder row when there is no data.
 */
module DataTable {
  import opened Wrappers
  import opened JsText
  import Menu = RowActionsMenu

  /** The JavaScript values a row field can hold, as far as this table cares. */
  datatype Value = Num(n: int) | Str(s: string) | Bool(b: bool) | Null | Undefined

  /**
   * `Column<T>`: `key` names a field of the row type `T`; `render`, when
   * present, turns the field's value and the whole row into content of type `N`.
   */
  datatype Column<!T, K, N> = Column(key: K, title: string, render: Option<(Value, T) -> N>)

  /** `RowAction` without its icon: the label shown (`caption`), the host's effect, and the danger styling flag. */
  datatype RowAction<E> = RowAction(caption: string, effect: E, danger: bool)

  /** A data cell's content: the column's `render` output, or the value as text. */
  datatype Content<N> = Rendered(node: N) | Text(text: string)

  /** The actions cell: the menu bound to `rowId`, its actions, and where its menu is drawn if open. */
  datatype ActionsCell<A> = ActionsCell(rowId: Menu.RowId, actions: seq<A>, menu: Option<Menu.Position>)

  datatype BodyRow<N, A> =
    | DataRow(cells: seq<Content<N>>, actionsCell: ActionsCell<A>)
    | Placeholder(colSpan: nat, message: string)

  datatype Table<N, A> = Table(header: seq<string>, body: seq<BodyRow<N, A>>)

  const ActionsTitle := "Acciones"
  const NoDataMessage := "No hay datos para mostrar"

  /** `String(value)` */
  function Stringify(v: Value): string {
    match v
    case Num(n) => IntToString(n)
    case Str(s) => s
    case Bool(b) => if b then "true" else "false"
    case Null => "null"
    case Undefined => "undefined"
  }

  /** `String` keeps strings as they are and writes integers in decimal that reads back to the same number. */
  lemma StringifyFaithful(v: Value)
    ensures v.Str? ==> Stringify(v) == v.s
    ensures v.Num? ==> ParseInt(Stringify(v)) == Some(v.n)
  {
    if v.Num? {
      IntToStringRoundTrip(v.n);
    }
  }

  /** One data cell: `render(row[key], row)` if the column has `render`, else `String(row[key])`. */
  function CellContent<T, K, N>(col: Column<T, K, N>, row: T, field: (T, K) -> Value): Content<N> {
    var value := field(row, col.key);
    match col.render
    case Some(render) => Rendered(render(value, row))
    case None => Text(Stringify(value))
  }

  /** The header: every column's title in order, then "Acciones". */
  function Header<T, K, N>(columns: seq<Column<T, K, N>>): (h: seq<string>)
    ensures |h| == |columns| + 1
    ensures forall i :: 0 <= i < |columns| ==> h[i] == columns[i].title
    ensures h[|columns|] == ActionsTitle
  {
    if |columns| == 0 then [ActionsTitle] else [columns[0].title] + Header(columns[1..])
  }

  /** The body row of one data element. */
  function RowOf<T, K, N, A>(
    columns: seq<Column<T, K, N>>, row: T, rowActions: T -> seq<A>,
    field: (T, K) -> Value, idOf: T -> Menu.RowId, menu: Menu.MenuState): BodyRow<N, A>
  {
    DataRow(
      seq(|columns|, j requires 0 <= j < |columns| => CellContent(columns[j], row, field)),
      ActionsCell(idOf(row), rowActions(row), Menu.Shown(menu, idOf(row))))
  }

  /**
   * The table for `columns` and `data`, with `rowActions` applied to each
   * row and every row's menu reading the one shared menu state.
   */
  function Layout<T, K, N, A>(
    columns: seq<Column<T, K, N>>, data: seq<T>, rowActions: T -> seq<A>,
    field: (T, K) -> Value, idOf: T -> Menu.RowId, menu: Menu.MenuState): (t: Table<N, A>)
    ensures |t.header| == |columns| + 1 && t.header[|columns|] == ActionsTitle
    ensures |data| == 0 ==> t.body == [Placeholder(|columns| + 1, NoDataMessage)]
    ensures |data| > 0 ==> |t.body| == |data|
    ensures |data| > 0 ==> forall i :: 0 <= i < |data| ==>
      && t.body[i].DataRow?
      && |t.body[i].cells| == |columns|
      && t.body[i].actionsCell == ActionsCell(idOf(data[i]), rowActions(data[i]), Menu.Shown(menu, idOf(data[i])))
  {
    Table(
      Header(columns),
      if |data| > 0
      then seq(|data|, i requires 0 <= i < |data| => RowOf(columns, data[i], rowActions, field, idOf, menu))
      else [Placeholder(|columns| + 1, NoDataMessage)])
  }

  /** Columns a row occupies: its data cells plus the actions cell, or the placeholder's span. */
  function Width<N, A>(r: BodyRow<N, A>): nat {
    match r
    case DataRow(cells, _) => |cells| + 1
    case Placeholder(span, _) => span
  }

  /** Every body row spans exactly as many columns as the header has cells. */
  lemma RowsMatchHeader<T, K, N, A>(
    columns: seq<Column<T, K, N>>, data: seq<T>, rowActions: T -> seq<A>,
    field: (T, K) -> Value, idOf: T -> Menu.RowId, menu: Menu.MenuState)
    ensures var t := Layout(columns, data, rowActions, field, idOf, menu);
      forall i :: 0 <= i < |t.body| ==> Width(t.body[i]) == |t.header|
  {
  }

  /**
   * Cell (i, j) shows column j of data element i: the column's `render`
   * output, given the raw value and the whole row, when it has one; the
   * value's `String` otherwise.
   */
  lemma CellFidelity<T, K, N, A>(
    columns: seq<Column<T, K, N>>, data: seq<T>, rowActions: T -> seq<A>,
    field: (T, K) -> Value, idOf: T -> Menu.RowId, menu: Menu.MenuState, i: int, j: int)
    requires 0 <= i < |data| && 0 <= j < |columns|
    ensures var c := Layout(columns, data, rowActions, field, idOf, menu).body[i].cells[j];
      && (columns[j].render.Some? ==> c == Rendered(columns[j].render.value(field(data[i], columns[j].key), data[i])))
      && (columns[j].render.None? ==> c == Text(Stringify(field(data[i], columns[j].key))))
  {
  }

  /** With the table's rows mounted, a row shows its menu exactly when its id is the shared open id. */
  lemma OpenMenusFollowSharedState<T, K, N, A>(
    columns: seq<Column<T, K, N>>, data: seq<T>, rowActions: T -> seq<A>,
    field: (T, K) -> Value, idOf: T -> Menu.RowId, menu: Menu.MenuState, i: int)
    requires menu.mounted == set r | r in data :: idOf(r)
    requires 0 <= i < |data|
    ensures var cell := Layout(columns, data, rowActions, field, idOf, menu).body[i].actionsCell;
      cell.menu.Some? <==> menu.open == Some(idOf(data[i]))
  {
    assert data[i] in data;
  }

  /** With distinct row ids, at most one body row shows its menu. */
  lemma AtMostOneOpenRow<T, K, N, A>(
    columns: seq<Column<T, K, N>>, data: seq<T>, rowActions: T -> seq<A>,
    field: (T, K) -> Value, idOf: T -> Menu.RowId, menu: Menu.MenuState, i: int, k: int)
    requires forall a, b :: 0 <= a < b < |data| ==> idOf(data[a]) != idOf(data[b])
    requires 0 <= i < |data| && 0 <= k < |data|
    ensures var t := Layout(columns, data, rowActions, field, idOf, menu);
      t.body[i].actionsCell.menu.Some? && t.body[k].actionsCell.menu.Some? ==> i == k
  {
    var t := Layout(columns, data, rowActions, field, idOf, menu);
    if t.body[i].actionsCell.menu.Some? && t.body[k].actionsCell.menu.Some? && i != k {
      Menu.AtMostOneShown(menu, idOf(data[i]), idOf(data[k]));
    }
  }

  /** The placeholder table has no actions cell, hence no menu trigger. */
  lemma EmptyHasNoMenus<T, K, N, A>(
    columns: seq<Column<T, K, N>>, rowActions: T -> seq<A>,
    field: (T, K) -> Value, idOf: T -> Menu.RowId, menu: Menu.MenuState)
    ensures var t := Layout(columns, [], rowActions, field, idOf, menu);
      |t.body| == 1 && !t.body[0].DataRow? && t.body[0].colSpan == |columns| + 1
  {
  }

  /** The table starts with no row open and no handler attached, whatever rows it shows. */
  lemma InitialStateClosed<T, K, N, A>(
    columns: seq<Column<T, K, N>>, data: seq<T>, rowActions: T -> seq<A>,
    field: (T, K) -> Value, idOf: T -> Menu.RowId, i: int)
    requires 0 <= i < |data|
    ensures var rows := set r | r in data :: idOf(r);
      && Layout(columns, data, rowActions, field, idOf, Menu.Initial(rows)).body[i].actionsCell.menu == None
      && Menu.Initial(rows).listeners == multiset{}
  {
  }
}
