/** The in-memory data frame the statistics helpers work on: an ordered
    sequence of named, typed columns whose cells are numbers or labels. */
module Frame {

  /** One cell. Pandas compares an integer key with an equal float
      (`1 == 1.0`), so every number, integral or not, is a `Num`. */
  datatype Value = Num(x: real) | Label(text: string)

  /** The column kind: `Numeric` is a dtype whose kind is integer or float
      (`dtype.kind in 'if'`), `Categorical` is every other dtype. */
  datatype Kind = Numeric | Categorical

  datatype Column = Column(name: string, kind: Kind, values: seq<Value>)

  type Dataset = seq<Column>

  datatype Option<T> = None | Some(value: T)

  /** The KeyError the source raises: an absent column, or a cell that the
      code-to-label dictionary does not contain. */
  datatype Error = MissingColumn(name: string) | MissingKey

  datatype Result<T> = Ok(value: T) | Err(error: Error)

  /** What the statistics library returns: the statistic and its p-value. */
  datatype Test = Test(stat: real, p: real)

  /** Column labels are unique (with a repeated label, `data_frame[name]`
      is a frame and the source's `.dtype` access fails). */
  predicate DistinctNames(data: Dataset)
  {
    forall i, j :: 0 <= i < j < |data| ==> data[i].name != data[j].name
  }

  /** `data_frame[name]`: the column labelled `name`, absent if none is. */
  function Find(data: Dataset, name: string): (r: Option<Column>)
    ensures r.Some? <==> exists i :: 0 <= i < |data| && data[i].name == name
    ensures r.Some? ==> r.value in data && r.value.name == name
  {
    if data == [] then None
    else if data[0].name == name then Some(data[0])
    else
      var rest := Find(data[1..], name);
      assert forall i :: 1 <= i < |data| ==> data[i] == data[1..][i - 1];
      rest
  }

  predicate HasColumn(data: Dataset, name: string)
  {
    Find(data, name).Some?
  }

  /** The cells of column `name`, or no cells when there is no such column. */
  function CellsOf(data: Dataset, name: string): seq<Value>
  {
    match Find(data, name)
    case Some(c) => c.values
    case None => []
  }

  lemma {:induction false} FindDistinct(data: Dataset, i: int)
    requires DistinctNames(data)
    requires 0 <= i < |data|
    ensures Find(data, data[i].name) == Some(data[i])
  {
    if i > 0 {
      assert data[0].name != data[i].name;
      assert DistinctNames(data[1..]) by {
        forall k, l | 0 <= k < l < |data| - 1
          ensures data[1..][k].name != data[1..][l].name
        {
          assert data[1..][k] == data[k + 1] && data[1..][l] == data[l + 1];
        }
      }
      FindDistinct(data[1..], i - 1);
    }
  }

  /** `table[name] = values` for a label the frame has: the cells of column
      `name` replaced; every column keeps its label, its kind and its
      position. An absent label leaves the frame as it is. */
  function SetColumn(data: Dataset, name: string, values: seq<Value>): (r: Dataset)
    ensures |r| == |data|
    ensures forall i :: 0 <= i < |data| ==> r[i].name == data[i].name && r[i].kind == data[i].kind
  {
    if data == [] then []
    else
      [if data[0].name == name then data[0].(values := values) else data[0]]
        + SetColumn(data[1..], name, values)
  }

  /** Assigning a column leaves every other column as it was, and the
      assigned column holds the new cells. */
  lemma {:induction false} SetColumnFind(data: Dataset, name: string, values: seq<Value>, other: string)
    ensures HasColumn(SetColumn(data, name, values), other) == HasColumn(data, other)
    ensures other != name ==> Find(SetColumn(data, name, values), other) == Find(data, other)
    ensures HasColumn(data, name) ==> CellsOf(SetColumn(data, name, values), name) == values
  {
    if data != [] {
      SetColumnFind(data[1..], name, values, other);
      SetColumnFind(data[1..], name, values, name);
    }
  }
}
