/** `kruskal_one` and `kruskal_all`: a Kruskal-Wallis H row for every
    non-numeric column other than the target, computed between the target's
    cells and the column's codes. */
module Kruskal {
  import opened Frame
  import opened Encoder
  import opened ColumnScan

  datatype KruskalRow = KruskalRow(feature: string, h: real, p: real)

  /** `stats.kruskal(target, column, nan_policy="omit")`, a library call
      that the model takes as a parameter. */
  type KruskalTest = (seq<Value>, seq<Value>) -> Test

  /** The row for one column: the test of the target against the column's
      codes. */
  function RowFor(c: Column, target: seq<Value>, kruskal: KruskalTest): (row: KruskalRow)
    ensures row.feature == c.name
    ensures row.h == kruskal(target, Encode(c.values)).stat && row.p == kruskal(target, Encode(c.values)).p
  {
    var test := kruskal(target, Encode(c.values));
    KruskalRow(c.name, test.stat, test.p)
  }

  /** The report `kruskal_all` builds: one row per selected column, in scan
      order, with that column's name and the H and p-value of the target
      tested against the column's codes. */
  function KruskalRows(cols: Dataset, target: seq<Value>, kruskal: KruskalTest): (rows: seq<KruskalRow>)
    ensures |rows| == |cols|
    ensures forall k :: 0 <= k < |rows| ==>
              rows[k].feature == cols[k].name &&
              rows[k].h == kruskal(target, Encode(cols[k].values)).stat &&
              rows[k].p == kruskal(target, Encode(cols[k].values)).p
  {
    seq(|cols|, k requires 0 <= k < |cols| => RowFor(cols[k], target, kruskal))
  }

  lemma RowsSnoc(cols: Dataset, c: Column, target: seq<Value>, kruskal: KruskalTest)
    ensures KruskalRows(cols + [c], target, kruskal) == KruskalRows(cols, target, kruskal) + [RowFor(c, target, kruskal)]
  {
  }

  /** The summary table built from the three aligned lists. */
  function Table(names: seq<string>, hvalue: seq<real>, pvalue: seq<real>): (t: seq<KruskalRow>)
    requires |names| == |hvalue| == |pvalue|
    ensures |t| == |names|
  {
    seq(|names|, k requires 0 <= k < |names| => KruskalRow(names[k], hvalue[k], pvalue[k]))
  }

  lemma TableSnoc(names: seq<string>, hvalue: seq<real>, pvalue: seq<real>, n: string, h: real, p: real)
    requires |names| == |hvalue| == |pvalue|
    ensures Table(names + [n], hvalue + [h], pvalue + [p]) == Table(names, hvalue, pvalue) + [KruskalRow(n, h, p)]
  {
  }

  /** `kruskal_one`: number the column's labels, replace the column by its
      codes in a copy of the frame, and test the copy's target column
      against the coded column. The caller's frame is a value and is not
      changed; the target's cells reach the test unchanged unless the target
      is the coded column itself. */
  method KruskalOne(data: Dataset, column: string, target: string, kruskal: KruskalTest)
    returns (r: Result<Test>)
    requires DistinctNames(data)
    ensures !HasColumn(data, column) ==> r == Err(MissingColumn(column))
    ensures HasColumn(data, column) && !HasColumn(data, target) ==> r == Err(MissingColumn(target))
    ensures r.Ok? <==> HasColumn(data, column) && HasColumn(data, target)
    ensures r.Ok? ==>
              var codes := Encode(CellsOf(data, column));
              r.value == kruskal(if target == column then codes else CellsOf(data, target), codes)
  {
    var cells := Find(data, column);
    if cells.None? {
      return Err(MissingColumn(column));
    }
    var toNum, toCat := WriteNames(cells.value.values);
    var table := data;
    // `swap(table, column, to_num)`: the dictionary stands where the flag
    // `to_numbers` is expected, and is true exactly when it is non-empty.
    SwapWithDictionaryFlag(cells.value.values);
    var swapped := Swap(Find(table, column).value.values, |toNum| > 0);
    table := SetColumn(table, column, swapped.value);
    SetColumnFind(data, column, swapped.value, target);
    SetColumnFind(data, column, swapped.value, column);
    var targetCells := Find(table, target);
    if targetCells.None? {
      return Err(MissingColumn(target));
    }
    return Ok(kruskal(targetCells.value.values, Find(table, column).value.values));
  }

  /** `kruskal_all`: the report in column scan order, without sorting. */
  method KruskalAll(data: Dataset, target: string, kruskal: KruskalTest)
    returns (r: Result<seq<KruskalRow>>)
    requires DistinctNames(data)
    ensures r.Err? <==> |Selected(data, target, Categorical)| > 0 && !HasColumn(data, target)
    ensures r.Err? ==> r.error == MissingColumn(target)
    ensures r.Ok? ==> r.value == KruskalRows(Selected(data, target, Categorical), CellsOf(data, target), kruskal)
  {
    ghost var t := CellsOf(data, target);
    var names: seq<string> := [];
    var hvalue: seq<real> := [];
    var pvalue: seq<real> := [];
    for i := 0 to |data|
      invariant |names| == |hvalue| == |pvalue|
      invariant Table(names, hvalue, pvalue) == KruskalRows(Selected(data[..i], target, Categorical), t, kruskal)
      invariant |Selected(data[..i], target, Categorical)| > 0 ==> HasColumn(data, target)
    {
      SelectedSnoc(data, target, Categorical, i);
      var name := data[i].name;
      if data[i].kind != Numeric {
        if name != target {
          FindDistinct(data, i);
          var test := KruskalOne(data, name, target, kruskal);
          if test.Err? {
            SelectedPrefix(data, target, Categorical, i + 1);
            return Err(test.error);
          }
          AppendRow(data, target, kruskal, i, names, hvalue, pvalue, test.value);
          names := names + [name];
          hvalue := hvalue + [test.value.stat];
          pvalue := pvalue + [test.value.p];
        }
      }
    }
    assert data[..|data|] == data;
    return Ok(Table(names, hvalue, pvalue));
  }

  /** One pass of the loop of `kruskal_all` over a qualifying column: the
      lists extended by its test still spell out the report so far. */
  lemma AppendRow(data: Dataset, target: string, kruskal: KruskalTest, i: int,
                  names: seq<string>, hvalue: seq<real>, pvalue: seq<real>, test: Test)
    requires 0 <= i < |data| && |names| == |hvalue| == |pvalue|
    requires Table(names, hvalue, pvalue) ==
               KruskalRows(Selected(data[..i], target, Categorical), CellsOf(data, target), kruskal)
    requires Qualifies(data[i], target, Categorical)
    requires test == kruskal(CellsOf(data, target), Encode(data[i].values))
    ensures Table(names + [data[i].name], hvalue + [test.stat], pvalue + [test.p]) ==
              KruskalRows(Selected(data[..i + 1], target, Categorical), CellsOf(data, target), kruskal)
  {
    SelectedSnoc(data, target, Categorical, i);
    TableSnoc(names, hvalue, pvalue, data[i].name, test.stat, test.p);
    RowsSnoc(Selected(data[..i], target, Categorical), data[i], CellsOf(data, target), kruskal);
  }

  /** The report has one row per non-numeric column other than the target,
      in the order of the columns, each naming its column. */
  lemma KruskalRowsFeatures(data: Dataset, targetName: string, target: seq<Value>, kruskal: KruskalTest)
    ensures var cols := Selected(data, targetName, Categorical);
            var rows := KruskalRows(cols, target, kruskal);
            var pos := SelectedPositions(data, targetName, Categorical);
            |rows| == |pos| &&
            (forall k :: 0 <= k < |rows| ==>
               rows[k].feature == data[pos[k]].name && data[pos[k]].kind != Numeric &&
               rows[k].feature != targetName) &&
            (forall k, l :: 0 <= k < l < |rows| ==> pos[k] < pos[l]) &&
            (forall i :: 0 <= i < |data| && data[i].kind != Numeric && data[i].name != targetName ==>
               i in pos)
  {
    var pos := SelectedPositions(data, targetName, Categorical);
    forall i | 0 <= i < |data| && data[i].kind != Numeric && data[i].name != targetName
      ensures i in pos
    {
      assert Qualifies(data[i], targetName, Categorical);
    }
  }

  /** The end-to-end frame X, Y (target) and Z: one row, for Z, with the test
      of Y's cells against Z's codes, which are 1, 2, 1, 2, 1. */
  lemma KruskalExample(kruskal: KruskalTest)
    ensures var data := [Column("X", Numeric, [Num(1.0), Num(2.0), Num(3.0), Num(4.0), Num(5.0)]),
                         Column("Y", Numeric, [Num(2.0), Num(4.0), Num(6.0), Num(8.0), Num(10.0)]),
                         Column("Z", Categorical, [Label("a"), Label("b"), Label("a"), Label("b"), Label("a")])];
            var rows := KruskalRows(Selected(data, "Y", Categorical), CellsOf(data, "Y"), kruskal);
            var codes := Encode(data[2].values);
            |rows| == 1 &&
            rows[0] == KruskalRow("Z", kruskal(data[1].values, codes).stat, kruskal(data[1].values, codes).p) &&
            |codes| == 5 && codes[0] == codes[2] == codes[4] == Num(1.0) && codes[1] == codes[3] == Num(2.0)
  {
    var x := Column("X", Numeric, [Num(1.0), Num(2.0), Num(3.0), Num(4.0), Num(5.0)]);
    var y := Column("Y", Numeric, [Num(2.0), Num(4.0), Num(6.0), Num(8.0), Num(10.0)]);
    var z := Column("Z", Categorical, [Label("a"), Label("b"), Label("a"), Label("b"), Label("a")]);
    var data := [x, y, z];
    assert [x][..0] == [];
    assert Selected([x], "Y", Categorical) == [];
    assert [x, y][..1] == [x];
    assert Selected([x, y], "Y", Categorical) == [];
    assert data[..2] == [x, y];
    assert Selected(data, "Y", Categorical) == [z];
    AlternatingCodes(Label("a"), Label("b"));
  }

  /** Two distinct cells alternating as a, b, a, b, a are coded 1, 2, 1, 2, 1:
      a is seen first, and b is the first new cell after it. */
  lemma AlternatingCodes(a: Value, b: Value)
    requires a != b
    ensures var e := Encode([a, b, a, b, a]);
            e[0] == e[2] == e[4] == Num(1.0) && e[1] == e[3] == Num(2.0)
  {
    var s := [a, b, a, b, a];
    var m := LabelToCode(Unique(s));
    FirstCellGetsOne(s);
    assert FirstAt(s, 1);
    FirstSeenCode(s, 1);
    assert s[..1] == [a];
    assert Unique([a]) == [a] by {
      UniqueSnoc([], a);
      assert [] + [a] == [a];
    }
    assert m[a] == 1 && m[b] == 2;
  }
}
