/**
  The rendered table as the save handler reads it back, and the commit that
  turns it into a fresh collection. Each rendered row is a sequence of cells;
  a data cell carries its data-key and its text content, the action cell
  (data-cluster) holds the Save and Delete buttons.
 */
module Table {
  import opened Rows

  /** One td of a rendered row; the action cell's Delete button carries data-index. */
  datatype Cell = DataCell(key: Field, text: string) | ActionCell(deleteIndex: nat)

  type RenderedRow = seq<Cell>

  /** The record object the save handler's reduce builds: data-key to text content. */
  type Record = map<Field, string>

  /** What a template interpolation shows for a property the record lacks. */
  const Undefined: string := "undefined"

  /** The cells renderTable writes for the row at position index, in template order. */
  function RenderRow(r: Row, index: nat): RenderedRow {
    [ DataCell(Title, r.title), DataCell(Date, r.date), DataCell(Description, r.description),
      DataCell(Tags, r.tags), DataCell(Value, r.value), ActionCell(index) ]
  }

  /** One rendered row per stored row, in storage order. */
  function Render(data: seq<Row>): (table: seq<RenderedRow>)
    ensures |table| == |data|
  {
    seq(|data|, j requires 0 <= j < |data| => RenderRow(data[j], j))
  }

  /** The reduce callback: the action cell is skipped, a data cell sets its key. */
  function Step(acc: Record, cell: Cell): Record {
    match cell
    case ActionCell(_) => acc
    case DataCell(k, text) => acc[k := text]
  }

  /** The reduce over a row's cells, left to right from the empty object. */
  function Collect(cells: RenderedRow): Record
    decreases |cells|
  {
    if |cells| == 0 then map[]
    else Step(Collect(cells[..|cells| - 1]), cells[|cells| - 1])
  }

  /** A stored record read as a row; an absent key reads as "undefined". */
  function ToRow(rec: Record): (r: Row)
    ensures forall f :: Get(r, f) == if f in rec then rec[f] else Undefined
  {
    var at := (f: Field) => if f in rec then rec[f] else Undefined;
    Row(at(Title), at(Date), at(Description), at(Tags), at(Value))
  }

  /** The save handler's rows.map: one record per rendered row, in rendered order. */
  function Commit(table: seq<RenderedRow>): (data: seq<Row>)
    ensures |data| == |table|
  {
    seq(|table|, i requires 0 <= i < |table| => ToRow(Collect(table[i])))
  }

  /** The user typing into every data cell keyed f of one row. */
  function EditRow(cells: RenderedRow, f: Field, text: string): RenderedRow {
    seq(|cells|, j requires 0 <= j < |cells| =>
      if Keyed(cells[j], f) then DataCell(f, text) else cells[j])
  }

  /** The user typing text into the contenteditable cell keyed f of rendered row i. */
  function Edit(table: seq<RenderedRow>, i: nat, f: Field, text: string): (table': seq<RenderedRow>)
    requires i < |table|
    requires Editable(f)
    ensures |table'| == |table|
  {
    table[i := EditRow(table[i], f, text)]
  }

  predicate Keyed(c: Cell, k: Field) {
    c.DataCell? && c.key == k
  }

  /** Cell j is keyed k and no later cell of the row is. */
  predicate LastKeyed(cells: RenderedRow, k: Field, j: int) {
    && 0 <= j < |cells|
    && Keyed(cells[j], k)
    && forall j' :: j < j' < |cells| ==> !Keyed(cells[j'], k)
  }

  /** The row's cells with the action cells dropped. */
  function DataCells(cells: RenderedRow): RenderedRow
    decreases |cells|
  {
    if |cells| == 0 then []
    else DataCells(cells[..|cells| - 1]) + (if cells[|cells| - 1].DataCell? then [cells[|cells| - 1]] else [])
  }

  /** The record built from a row has key k exactly when some data cell of the row is keyed k. */
  lemma {:induction false} CollectKeys(cells: RenderedRow, k: Field)
    ensures k in Collect(cells) <==> exists j :: 0 <= j < |cells| && Keyed(cells[j], k)
    decreases |cells|
  {
    if |cells| > 0 {
      var n := |cells| - 1;
      var prefix := cells[..n];
      CollectKeys(prefix, k);
      if Keyed(cells[n], k) {
        assert Keyed(cells[n], k);
      } else {
        assert k in Collect(cells) <==> k in Collect(prefix);
        if k in Collect(prefix) {
          var j :| 0 <= j < n && Keyed(prefix[j], k);
          assert Keyed(cells[j], k);
        }
        if exists j :: 0 <= j < |cells| && Keyed(cells[j], k) {
          var j :| 0 <= j < |cells| && Keyed(cells[j], k);
          assert j < n && Keyed(prefix[j], k);
        }
      }
    }
  }

  /** When cell j is the last keyed k, the record holds its text under k. */
  lemma {:induction false} CollectLast(cells: RenderedRow, k: Field, j: int)
    requires LastKeyed(cells, k, j)
    ensures k in Collect(cells) && Collect(cells)[k] == cells[j].text
    decreases |cells|
  {
    var n := |cells| - 1;
    if j < n {
      assert !Keyed(cells[n], k);
      var prefix := cells[..n];
      assert LastKeyed(prefix, k, j) by {
        assert prefix[j] == cells[j];
        forall j' | j < j' < |prefix|
          ensures !Keyed(prefix[j'], k)
        {
          assert prefix[j'] == cells[j'];
        }
      }
      CollectLast(prefix, k, j);
    }
  }

  /** The action cell contributes nothing: the record depends only on the data cells. */
  lemma {:induction false} ActionCellsIgnored(cells: RenderedRow)
    ensures Collect(cells) == Collect(DataCells(cells))
    decreases |cells|
  {
    if |cells| > 0 {
      var n := |cells| - 1;
      ActionCellsIgnored(cells[..n]);
      if cells[n].DataCell? {
        var d := DataCells(cells[..n]) + [cells[n]];
        assert d[..|d| - 1] == DataCells(cells[..n]);
      } else {
        assert DataCells(cells) == DataCells(cells[..n]) + [] == DataCells(cells[..n]);
        assert Collect(cells) == Step(Collect(cells[..n]), cells[n]) == Collect(cells[..n]);
      }
    }
  }

  /**
    Committing stores one row per rendered row, in rendered order; field k of a
    stored row is the text of the last cell keyed k, or "undefined" if none is.
   */
  lemma CommitFields(table: seq<RenderedRow>, i: nat, k: Field)
    requires i < |table|
    ensures Get(Commit(table)[i], k) == Undefined <== !exists j :: 0 <= j < |table[i]| && Keyed(table[i][j], k)
    ensures forall j :: LastKeyed(table[i], k, j) ==> Get(Commit(table)[i], k) == table[i][j].text
  {
    CollectKeys(table[i], k);
    forall j | LastKeyed(table[i], k, j)
      ensures Get(Commit(table)[i], k) == table[i][j].text
    {
      CollectLast(table[i], k, j);
    }
  }

  /** Reading back an unedited rendering gives the collection it was rendered from. */
  lemma RenderCommit(data: seq<Row>)
    ensures Commit(Render(data)) == data
  {
    var table := Render(data);
    forall i | 0 <= i < |data|
      ensures Commit(table)[i] == data[i]
    {
      forall k: Field
        ensures Get(Commit(table)[i], k) == Get(data[i], k)
      {
        RenderedFieldIsLast(data[i], i, k);
        CommitFields(table, i, k);
      }
      RowExtensional(Commit(table)[i], data[i]);
    }
  }

  /** The position of the data cell renderTable writes for field k. */
  function Column(k: Field): nat {
    match k
    case Title => 0
    case Date => 1
    case Description => 2
    case Tags => 3
    case Value => 4
  }

  /** In a rendered row, field k has exactly one cell, holding the field's text. */
  lemma RenderedFieldIsLast(r: Row, index: nat, k: Field)
    ensures LastKeyed(RenderRow(r, index), k, Column(k))
    ensures RenderRow(r, index)[Column(k)].text == Get(r, k)
  {
  }

  /** After one edit, field k's cell is still the only one keyed k, now with the typed text if k is the edited field. */
  lemma EditedFieldIsLast(r: Row, index: nat, f: Field, text: string, k: Field)
    ensures LastKeyed(EditRow(RenderRow(r, index), f, text), k, Column(k))
    ensures EditRow(RenderRow(r, index), f, text)[Column(k)].text == Get(With(r, f, text), k)
  {
  }

  /** Committing after one edit stores the collection with exactly that field of that row changed. */
  lemma EditCommit(data: seq<Row>, i: nat, f: Field, text: string)
    requires i < |data|
    requires Editable(f)
    ensures Commit(Edit(Render(data), i, f, text)) == data[i := With(data[i], f, text)]
  {
    var table := Edit(Render(data), i, f, text);
    var want := data[i := With(data[i], f, text)];
    forall i' | 0 <= i' < |data|
      ensures Commit(table)[i'] == want[i']
    {
      forall k: Field
        ensures Get(Commit(table)[i'], k) == Get(want[i'], k)
      {
        if i' == i {
          EditedFieldIsLast(data[i], i, f, text, k);
        } else {
          RenderedFieldIsLast(data[i'], i', k);
        }
        CommitFields(table, i', k);
      }
      RowExtensional(Commit(table)[i'], want[i']);
    }
  }

  /** Rendered row j has one action cell, last, and its Delete button carries j. */
  lemma DeleteIndexIsPosition(data: seq<Row>, j: nat)
    requires j < |data|
    ensures |Render(data)[j]| == 6
    ensures Render(data)[j][5] == ActionCell(j)
    ensures forall c :: 0 <= c < 5 ==> Render(data)[j][c].DataCell?
  {
  }
}
