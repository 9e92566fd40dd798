/**
  The three mutations of the table. Add and delete read the collection fresh
  from the store, change it in memory and write the whole of it back; commit
  rebuilds the collection from the rendered table alone and overwrites the store.
 */
module Mutations {
  import opened Rows
  import opened Store
  import opened Table

  /** Array.prototype.splice(index, 1) on a non-negative index: an index past the end removes nothing. */
  function Splice<T>(data: seq<T>, index: nat): (r: seq<T>)
    ensures index < |data| ==> |r| == |data| - 1
    ensures index < |data| ==> forall j :: 0 <= j < |r| ==> r[j] == if j < index then data[j] else data[j + 1]
    ensures index >= |data| ==> r == data
  {
    if index < |data| then data[..index] + data[index + 1..] else data
  }

  /** The removed element and the rest are, as a bag, the original collection. */
  lemma SpliceRemovesOne<T>(data: seq<T>, index: nat)
    requires index < |data|
    ensures multiset(Splice(data, index)) + multiset{data[index]} == multiset(data)
  {
    assert data == data[..index] + [data[index]] + data[index + 1..];
  }

  /** The add-row handler: append a row with empty editable fields and the given date. */
  function AddRow(st: Store, date: string): (st': Store)
    ensures |Load(st')| == |Load(st)| + 1
    ensures Load(st')[..|Load(st)|] == Load(st)
    ensures forall f :: Editable(f) ==> Get(Load(st')[|Load(st)|], f) == ""
    ensures Get(Load(st')[|Load(st)|], Date) == date
  {
    Save(st, Load(st) + [NewRow(date)])
  }

  /** deleteRow: remove the row at index, or nothing when index is past the end. */
  function DeleteRow(st: Store, index: nat): (st': Store)
    ensures index < |Load(st)| ==> Load(st') == Load(st)[..index] + Load(st)[index + 1..]
    ensures index < |Load(st)| ==> |Load(st')| == |Load(st)| - 1
    ensures index >= |Load(st)| ==> Load(st') == Load(st)
  {
    Save(st, Splice(Load(st), index))
  }

  /** The save handler: the rendered table, read back row by row, replaces the stored collection. */
  function CommitEdits(st: Store, table: seq<RenderedRow>): (st': Store)
    ensures |Load(st')| == |table|
  {
    Save(st, Commit(table))
  }

  /** On an empty store the added row becomes the only row. */
  lemma AddToEmpty(st: Store, date: string)
    requires Load(st) == []
    ensures Load(AddRow(st, date)) == [NewRow(date)]
  {
  }

  /** Deleting the row just added restores the collection read before the add. */
  lemma AddThenDelete(st: Store, date: string)
    ensures Load(DeleteRow(AddRow(st, date), |Load(st)|)) == Load(st)
  {
  }

  /** The Delete button of rendered row j carries j, and one deleteRow call with it removes exactly stored row j. */
  lemma DeleteButtonRemovesItsRow(st: Store, j: nat)
    requires j < |Load(st)|
    ensures Render(Load(st))[j][5].ActionCell?
    ensures Load(DeleteRow(st, Render(Load(st))[j][5].deleteIndex)) == Load(st)[..j] + Load(st)[j + 1..]
  {
    DeleteIndexIsPosition(Load(st), j);
  }

  /**
    renderTable binds listeners once per rendered row, each time to every Delete
    button present so far: after rendering n rows, the button of row j carries
    one listener for each of rows j to n - 1.
   */
  function DeleteListeners(n: nat, j: nat): (count: nat)
    ensures j <= n ==> count == n - j
    ensures j > n ==> count == 0
  {
    if n == 0 then 0 else DeleteListeners(n - 1, j) + (if j <= n - 1 then 1 else 0)
  }

  /** count calls of deleteRow with the same index, one after another. */
  function DeleteRepeatedly(st: Store, index: nat, count: nat): Store
    decreases count
  {
    if count == 0 then st else DeleteRepeatedly(DeleteRow(st, index), index, count - 1)
  }

  /**
    A click on rendered row j's Delete button as the program binds it: every
    listener on that button runs deleteRow with the button's index.
   */
  function DeleteClickAsWritten(st: Store, j: nat): Store {
    DeleteRepeatedly(st, j, DeleteListeners(|Load(st)|, j))
  }

  /** Repeating a delete at j removes the next rows one by one. */
  lemma {:induction false} DeleteRepeatedlyDropsRun(st: Store, j: nat, count: nat)
    requires j + count <= |Load(st)|
    ensures Load(DeleteRepeatedly(st, j, count)) == Load(st)[..j] + Load(st)[j + count..]
    decreases count
  {
    if count > 0 {
      var st' := DeleteRow(st, j);
      var d := Load(st);
      var d' := Load(st');
      assert d' == d[..j] + d[j + 1..];
      DeleteRepeatedlyDropsRun(st', j, count - 1);
      assert d'[..j] == d[..j];
      assert d'[j + count - 1..] == d[j + count..];
    }
  }

  /** One click on the Delete button of row j, as bound, removes row j and every row after it. */
  lemma DeleteClickRemovesTail(st: Store, j: nat)
    requires j < |Load(st)|
    ensures Load(DeleteClickAsWritten(st, j)) == Load(st)[..j]
  {
    DeleteRepeatedlyDropsRun(st, j, |Load(st)| - j);
    assert Load(st)[|Load(st)|..] == [];
  }

  /** With two rows, one click on the first row's Delete button empties the table. */
  lemma DeleteClickTwoRows(a: Row, b: Row)
    ensures Load(DeleteClickAsWritten(Save(Empty, [a, b]), 0)) == []
    ensures Load(DeleteRow(Save(Empty, [a, b]), 0)) == [b]
  {
    DeleteClickRemovesTail(Save(Empty, [a, b]), 0);
  }

  /** The save handler reads only the table: whatever the store held before is discarded. */
  lemma CommitReplacesWholesale(st1: Store, st2: Store, table: seq<RenderedRow>)
    ensures CommitEdits(st1, table) == CommitEdits(st2, table)
  {
  }

  /** Each stored row's field k is the text of the rendered row's last cell keyed k. */
  lemma CommitStoresCellText(st: Store, table: seq<RenderedRow>, i: nat, k: Field, j: nat)
    requires i < |table|
    requires LastKeyed(table[i], k, j)
    ensures Get(Load(CommitEdits(st, table))[i], k) == table[i][j].text
  {
    CommitFields(table, i, k);
  }

  /** Saving a freshly rendered, unedited table leaves the stored collection as it was. */
  lemma CommitUnedited(st: Store)
    ensures Load(CommitEdits(st, Render(Load(st)))) == Load(st)
  {
    RenderCommit(Load(st));
  }

  /** Saving after one cell edit stores the collection with exactly that field of that row changed. */
  lemma CommitOneEdit(st: Store, i: nat, f: Field, text: string)
    requires i < |Load(st)|
    requires Editable(f)
    ensures Load(CommitEdits(st, Edit(Render(Load(st)), i, f, text))) == Load(st)[i := With(Load(st)[i], f, text)]
  {
    EditCommit(Load(st), i, f, text);
  }
}
