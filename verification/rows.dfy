/**
  The one entity of the editable table: a record of five free-text fields.
  Position in the collection is its only identity.
 */
module Rows {

  /** The five field keys, in column order; a rendered data cell names one of them in its data-key. */
  datatype Field = Title | Date | Description | Tags | Value

  datatype Row = Row(title: string, date: string, description: string, tags: string, value: string)

  /** Every column but the date is rendered contenteditable. */
  predicate Editable(f: Field) {
    f != Date
  }

  /** The text of field f of a row. */
  function Get(r: Row, f: Field): string {
    match f
    case Title => r.title
    case Date => r.date
    case Description => r.description
    case Tags => r.tags
    case Value => r.value
  }

  /** The row with field f replaced by text. */
  function With(r: Row, f: Field, text: string): (r': Row)
    ensures Get(r', f) == text
    ensures forall g :: g != f ==> Get(r', g) == Get(r, g)
  {
    match f
    case Title => r.(title := text)
    case Date => r.(date := text)
    case Description => r.(description := text)
    case Tags => r.(tags := text)
    case Value => r.(value := text)
  }

  /** The row the add-row handler builds: every editable field empty, the date as given. */
  function NewRow(date: string): Row {
    Row("", date, "", "", "")
  }

  /** Two rows that agree on every field are the same row. */
  lemma RowExtensional(a: Row, b: Row)
    requires forall f :: Get(a, f) == Get(b, f)
    ensures a == b
  {
    assert Get(a, Title) == Get(b, Title);
    assert Get(a, Date) == Get(b, Date);
    assert Get(a, Description) == Get(b, Description);
    assert Get(a, Tags) == Get(b, Tags);
    assert Get(a, Value) == Get(b, Value);
  }
}
