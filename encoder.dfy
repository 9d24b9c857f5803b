/** The categorical encoder: `write_names` numbers the distinct values of a
    column 1, 2, ... in order of first appearance, and `swap` replaces every
    cell by its code (or every code by its label) with a strict lookup. */
module Encoder {
  import opened Frame

  predicate NoDup<T(==, !new)>(s: seq<T>)
  {
    forall i, j :: 0 <= i < j < |s| ==> s[i] != s[j]
  }

  /** `Series.unique()`: the distinct values of `s` in order of first
      appearance; a cell is kept exactly when it did not occur before it. */
  function Unique<T(==, !new)>(s: seq<T>): (u: seq<T>)
    ensures forall x :: x in u <==> x in s
    ensures NoDup(u)
    ensures |u| <= |s|
    decreases |s|
  {
    if s == [] then []
    else
      var init, x := s[..|s| - 1], s[|s| - 1];
      assert s == init + [x];
      if x in init then Unique(init) else Unique(init) + [x]
  }

  /** The dictionary `numbers` of `write_names` after the loop has visited
      `u`: each visited value is mapped to the counter at its visit. */
  function LabelToCode<T(==, !new)>(u: seq<T>): (m: map<T, int>)
    ensures forall v :: v in m <==> v in u
    ensures forall v :: v in m ==> 1 <= m[v] <= |u| && u[m[v] - 1] == v
  {
    if u == [] then map[]
    else
      var init := u[..|u| - 1];
      assert u == init + [u[|u| - 1]];
      LabelToCode(init)[u[|u| - 1] := |u|]
  }

  /** The dictionary `names` of `write_names` after the loop has visited `u`. */
  function CodeToLabel<T(!new)>(u: seq<T>): (m: map<int, T>)
    ensures forall c :: c in m <==> 1 <= c <= |u|
    ensures forall i :: 0 <= i < |u| ==> m[i + 1] == u[i]
  {
    if u == [] then map[]
    else
      var init := u[..|u| - 1];
      assert forall i :: 0 <= i < |u| - 1 ==> init[i] == u[i];
      CodeToLabel(init)[|u| := u[|u| - 1]]
  }

  /** Over values without repeats, the code of the i-th value is i + 1. */
  lemma CodeOfIndex<T(!new)>(u: seq<T>)
    requires NoDup(u)
    ensures forall i :: 0 <= i < |u| ==> LabelToCode(u)[u[i]] == i + 1
  {
    var numbers := LabelToCode(u);
    forall i | 0 <= i < |u| ensures numbers[u[i]] == i + 1 {
      assert u[i] in u;
      var k := numbers[u[i]] - 1;
      assert u[k] == u[i];
    }
  }

  /** The codes handed out are exactly 1..|u|, the keys of the inverse map. */
  lemma CodesAreDense<T(!new)>(u: seq<T>)
    requires NoDup(u)
    ensures forall c :: c in LabelToCode(u).Values <==> 1 <= c <= |u|
    ensures LabelToCode(u).Values == CodeToLabel(u).Keys
  {
    var numbers := LabelToCode(u);
    CodeOfIndex(u);
    forall c | 1 <= c <= |u| ensures c in numbers.Values {
      assert numbers[u[c - 1]] == c;
    }
  }

  /** Decoding a code gives the value it was assigned to. */
  lemma DecodeOfCode<T(!new)>(u: seq<T>)
    ensures forall v :: v in LabelToCode(u) ==>
              LabelToCode(u)[v] in CodeToLabel(u) && CodeToLabel(u)[LabelToCode(u)[v]] == v
  {
    var numbers, names := LabelToCode(u), CodeToLabel(u);
    forall v | v in numbers ensures numbers[v] in names && names[numbers[v]] == v {
      assert names[(numbers[v] - 1) + 1] == u[numbers[v] - 1];
    }
  }

  /** Encoding a label gives back its code. */
  lemma CodeOfLabel<T(!new)>(u: seq<T>)
    requires NoDup(u)
    ensures forall c :: c in CodeToLabel(u) ==>
              CodeToLabel(u)[c] in LabelToCode(u) && LabelToCode(u)[CodeToLabel(u)[c]] == c
  {
    var numbers, names := LabelToCode(u), CodeToLabel(u);
    CodeOfIndex(u);
    forall c | c in names ensures names[c] in numbers && numbers[names[c]] == c {
      assert names[c] == u[c - 1];
    }
  }

  lemma MapsSnoc<T(!new)>(u: seq<T>, i: int)
    requires 0 <= i < |u|
    ensures LabelToCode(u[..i + 1]) == LabelToCode(u[..i])[u[i] := i + 1]
    ensures CodeToLabel(u[..i + 1]) == CodeToLabel(u[..i])[i + 1 := u[i]]
  {
    assert u[..i + 1][..i] == u[..i];
  }

  /** `write_names`: one pass over the distinct values that builds the
      label-to-code and code-to-label dictionaries with a counter from 1. */
  method WriteNames<T(==, !new)>(column: seq<T>) returns (numbers: map<T, int>, names: map<int, T>)
    ensures numbers == LabelToCode(Unique(column)) && names == CodeToLabel(Unique(column))
    ensures forall v :: v in numbers <==> v in column
    ensures forall c :: c in names <==> 1 <= c <= |Unique(column)|
    ensures numbers.Values == names.Keys
    ensures forall v :: v in numbers ==> numbers[v] in names && names[numbers[v]] == v
    ensures forall c :: c in names ==> names[c] in numbers && numbers[names[c]] == c
  {
    var uniques := Unique(column);
    numbers, names := map[], map[];
    var catNr := 1;
    for i := 0 to |uniques|
      invariant catNr == i + 1
      invariant numbers == LabelToCode(uniques[..i])
      invariant names == CodeToLabel(uniques[..i])
    {
      var name := uniques[i];
      // The source guards with `name != np.nan`, which holds for every
      // number, every label and NaN (NaN is unequal to everything), so no
      // such value is skipped.
      MapsSnoc(uniques, i);
      numbers := numbers[name := catNr];
      names := names[catNr := name];
      catNr := catNr + 1;
    }
    assert uniques[..|uniques|] == uniques;
    CodesAreDense(uniques);
    DecodeOfCode(uniques);
    CodeOfLabel(uniques);
  }

  lemma TakeSnoc<T>(s: seq<T>, j: int)
    requires 0 <= j < |s|
    ensures s[..j + 1] == s[..j] + [s[j]]
  {
  }

  /** The number of codes is the number of distinct values in the column. */
  lemma {:induction false} DistinctCount<T(!new)>(s: seq<T>)
    ensures |Unique(s)| == |set x | x in s|
  {
    NoDupCard(Unique(s));
    assert (set x | x in Unique(s)) == (set x | x in s);
  }

  lemma {:induction false} NoDupCard<T(!new)>(u: seq<T>)
    requires NoDup(u)
    ensures |set x | x in u| == |u|
  {
    if u != [] {
      var init := u[..|u| - 1];
      assert NoDup(init);
      NoDupCard(init);
      assert (set x | x in u) == (set x | x in init) + {u[|u| - 1]};
      assert u[|u| - 1] !in (set x | x in init);
    }
  }

  lemma UniqueSnoc<T(!new)>(s: seq<T>, x: T)
    ensures Unique(s + [x]) == if x in s then Unique(s) else Unique(s) + [x]
  {
    assert (s + [x])[..|s|] == s;
  }

  /** The distinct values of a prefix are a prefix of the distinct values. */
  lemma {:induction false} UniquePrefix<T(!new)>(s: seq<T>, j: int)
    requires 0 <= j <= |s|
    ensures Unique(s[..j]) <= Unique(s)
    decreases |s| - j
  {
    if j < |s| {
      UniquePrefix(s, j + 1);
      UniqueSnoc(s[..j], s[j]);
      TakeSnoc(s, j);
    } else {
      assert s[..j] == s;
    }
  }

  /** No cell before position j holds the value at j. */
  predicate FirstAt<T(==, !new)>(s: seq<T>, j: int)
    requires 0 <= j < |s|
  {
    forall k :: 0 <= k < j ==> s[k] != s[j]
  }

  lemma FirstAtNotIn<T(!new)>(s: seq<T>, j: int)
    requires 0 <= j < |s|
    ensures FirstAt(s, j) <==> s[j] !in s[..j]
  {
    if s[j] in s[..j] {
      var k :| 0 <= k < j && s[..j][k] == s[j];
      assert s[k] == s[j];
    }
  }

  /** A cell that is the first occurrence of its value gets one plus the
      number of distinct values before it: the first value seen gets 1, the
      next new one 2, and so on. */
  lemma FirstSeenCode<T(!new)>(s: seq<T>, j: int)
    requires 0 <= j < |s| && FirstAt(s, j)
    ensures s[j] in LabelToCode(Unique(s))
    ensures LabelToCode(Unique(s))[s[j]] == |Unique(s[..j])| + 1
  {
    FirstAtNotIn(s, j);
    UniqueSnoc(s[..j], s[j]);
    TakeSnoc(s, j);
    UniquePrefix(s, j + 1);
    var k := |Unique(s[..j])|;
    assert Unique(s)[k] == Unique(s[..j + 1])[k] == s[j];
    CodeOfIndex(Unique(s));
  }

  lemma TakeTake<T>(s: seq<T>, i: int, j: int)
    requires 0 <= i <= j <= |s|
    ensures s[..j][..i] == s[..i]
  {
  }

  /** Codes follow first-occurrence order: of two first occurrences, the
      earlier one has the smaller code. */
  lemma CodesFollowFirstOccurrence<T(!new)>(s: seq<T>, i: int, j: int)
    requires 0 <= i < j < |s|
    requires FirstAt(s, i) && FirstAt(s, j)
    ensures LabelToCode(Unique(s))[s[i]] < LabelToCode(Unique(s))[s[j]]
  {
    FirstSeenCode(s, i);
    FirstSeenCode(s, j);
    FirstAtNotIn(s, i);
    UniqueSnoc(s[..i], s[i]);
    TakeSnoc(s, i);
    TakeTake(s, i + 1, j);
    UniquePrefix(s[..j], i + 1);
  }

  lemma FirstCellGetsOne<T(!new)>(s: seq<T>)
    requires |s| > 0
    ensures LabelToCode(Unique(s))[s[0]] == 1
  {
    FirstSeenCode(s, 0);
  }

  /** `"a", "b", "a", "c"` is numbered a: 1, b: 2, c: 3. */
  lemma WriteNamesExample()
    ensures LabelToCode(Unique(["a", "b", "a", "c"])) == map["a" := 1, "b" := 2, "c" := 3]
    ensures CodeToLabel(Unique(["a", "b", "a", "c"])) == map[1 := "a", 2 := "b", 3 := "c"]
  {
    NumberThree("a", "b", "c");
  }

  /** Three distinct values seen as a, b, a, c are numbered 1, 2, 3. */
  lemma NumberThree<T(!new)>(a: T, b: T, c: T)
    requires a != b && a != c && b != c
    ensures LabelToCode(Unique([a, b, a, c])) == map[a := 1, b := 2, c := 3]
    ensures CodeToLabel(Unique([a, b, a, c])) == map[1 := a, 2 := b, 3 := c]
  {
    UniqueThree(a, b, c);
    MapsThree(a, b, c);
  }

  lemma UniqueThree<T(!new)>(a: T, b: T, c: T)
    requires a != b && a != c && b != c
    ensures Unique([a, b, a, c]) == [a, b, c]
  {
    assert Unique([a]) == [a] by {
      UniqueSnoc([], a);
      assert [] + [a] == [a];
    }
    assert Unique([a, b]) == [a, b] by {
      UniqueSnoc([a], b);
      assert [a] + [b] == [a, b] && b !in [a];
    }
    assert Unique([a, b, a]) == [a, b] by {
      UniqueSnoc([a, b], a);
      assert [a, b] + [a] == [a, b, a] && a in [a, b];
    }
    assert Unique([a, b, a, c]) == Unique([a, b, a]) + [c] by {
      UniqueSnoc([a, b, a], c);
      assert [a, b, a] + [c] == [a, b, a, c] && c !in [a, b, a];
    }
    assert [a, b] + [c] == [a, b, c];
  }

  lemma MapsThree<T(!new)>(a: T, b: T, c: T)
    ensures LabelToCode([a, b, c]) == map[a := 1, b := 2, c := 3]
    ensures CodeToLabel([a, b, c]) == map[1 := a, 2 := b, 3 := c]
  {
    MapsSnoc([a, b, c], 0);
    MapsSnoc([a, b, c], 1);
    MapsSnoc([a, b, c], 2);
    assert [a, b, c][..0] == [] && [a, b, c][..3] == [a, b, c];
  }

  /** The cell is an integral number c with 1 <= c <= k, i.e. a key of a
      code-to-label dictionary over k values. */
  predicate IsCode(v: Value, k: int)
  {
    v.Num? && v.x.Floor as real == v.x && 1 <= v.x.Floor <= k
  }

  /** `apply(lambda x: to_num[x])`: the column with every cell replaced by
      its code, a whole number between 1 and the number of distinct cells. */
  function Encode(column: seq<Value>): (r: seq<Value>)
    ensures |r| == |column|
    ensures forall i :: 0 <= i < |r| ==> IsCode(r[i], |Unique(column)|)
  {
    var toNum := LabelToCode(Unique(column));
    seq(|column|, i requires 0 <= i < |column| => Num(toNum[column[i]] as real))
  }

  /** Cell i of the encoded column is the code `write_names` gave the
      original cell. */
  lemma EncodeCell(column: seq<Value>, i: int)
    requires 0 <= i < |column|
    ensures Encode(column)[i] == Num(LabelToCode(Unique(column))[column[i]] as real)
  {
  }

  /** Equal cells get equal codes and different cells different codes. */
  lemma EncodeInjective(column: seq<Value>, i: int, j: int)
    requires 0 <= i < |column| && 0 <= j < |column|
    ensures Encode(column)[i] == Encode(column)[j] <==> column[i] == column[j]
  {
    var m := LabelToCode(Unique(column));
    var a, b := column[i], column[j];
    assert a in m && b in m;
    if Encode(column)[i] == Encode(column)[j] {
      assert (m[a] as real) == (m[b] as real);
      CodeDeterminesLabel(Unique(column), a, b);
    }
  }

  /** Two labels with the same code are the same label. */
  lemma CodeDeterminesLabel<T(!new)>(u: seq<T>, a: T, b: T)
    requires a in LabelToCode(u) && b in LabelToCode(u)
    requires LabelToCode(u)[a] == LabelToCode(u)[b]
    ensures a == b
  {
    var m := LabelToCode(u);
    assert u[m[a] - 1] == a && u[m[b] - 1] == b;
  }

  /** `apply(lambda x: to_cat[x])` with `to_cat` built from the same
      column: it succeeds exactly when every cell is a code 1..K, K the
      number of distinct cells, and then each code c becomes the c-th
      distinct cell. */
  function Decode(column: seq<Value>): (r: Result<seq<Value>>)
    ensures r.Ok? <==> forall i :: 0 <= i < |column| ==> IsCode(column[i], |Unique(column)|)
    ensures r.Err? ==> r.error == MissingKey
    ensures r.Ok? ==> |r.value| == |column|
    ensures r.Ok? ==> forall i :: 0 <= i < |column| ==> r.value[i] == Unique(column)[column[i].x.Floor - 1]
  {
    var u := Unique(column);
    var toCat := CodeToLabel(u);
    if forall i :: 0 <= i < |column| ==> IsCode(column[i], |u|) then
      Ok(seq(|column|, i requires 0 <= i < |column| && IsCode(column[i], |u|) => toCat[column[i].x.Floor]))
    else
      Err(MissingKey)
  }

  /** `swap`: the encoding direction never fails and keeps the length; the
      decoding direction fails exactly when some cell is not a code. */
  function Swap(column: seq<Value>, toNumbers: bool): (r: Result<seq<Value>>)
    ensures toNumbers ==> r.Ok? && |r.value| == |column|
    ensures toNumbers ==> forall i :: 0 <= i < |r.value| ==> IsCode(r.value[i], |Unique(column)|)
    ensures !toNumbers ==> (r.Ok? <==> forall i :: 0 <= i < |column| ==> IsCode(column[i], |Unique(column)|))
  {
    if toNumbers then Ok(Encode(column)) else Decode(column)
  }

  /** Looking an encoded cell up in the code-to-label dictionary of the
      original column gives back the original cell: `to_cat[to_num[x]] == x`. */
  lemma EncodeRoundTrip(column: seq<Value>)
    ensures forall i :: 0 <= i < |column| ==>
              Encode(column)[i].x.Floor in CodeToLabel(Unique(column)) &&
              CodeToLabel(Unique(column))[Encode(column)[i].x.Floor] == column[i]
  {
    var u := Unique(column);
    var m, names := LabelToCode(u), CodeToLabel(u);
    var e := Encode(column);
    forall i | 0 <= i < |column|
      ensures e[i].x.Floor in names && names[e[i].x.Floor] == column[i]
    {
      assert column[i] in m;
      var c := m[column[i]];
      assert e[i] == Num(c as real);
      assert (c as real).Floor == c;
      assert names[(c - 1) + 1] == u[c - 1];
    }
  }

  /** The codes 1..n as cells. */
  function Codes(n: nat): (r: seq<Value>)
    ensures |r| == n && forall i :: 0 <= i < n ==> r[i] == Num((i + 1) as real)
  {
    seq(n, i requires 0 <= i < n => Num((i + 1) as real))
  }

  /** The distinct encoded cells are 1, 2, ..., K in this order. */
  lemma {:induction false} UniqueOfEncode(column: seq<Value>, j: int)
    requires 0 <= j <= |column|
    ensures Unique(Encode(column)[..j]) == Codes(|Unique(column[..j])|)
  {
    var e := Encode(column);
    if j > 0 {
      var p := j - 1;
      UniqueOfEncode(column, p);
      var n := |Unique(column[..p])|;
      UniqueSnoc(e[..p], e[p]);
      UniqueSnoc(column[..p], column[p]);
      TakeSnoc(e, p);
      TakeSnoc(column, p);
      FirstAtNotIn(e, p);
      FirstAtNotIn(column, p);
      forall k | 0 <= k < p ensures e[k] == e[p] <==> column[k] == column[p] {
        EncodeInjective(column, k, p);
      }
      assert FirstAt(e, p) <==> FirstAt(column, p);
      if FirstAt(column, p) {
        FirstSeenCode(column, p);
        CodesSnoc(n);
      }
    } else {
      assert e[..0] == [] && column[..0] == [];
    }
  }

  lemma CodesSnoc(n: nat)
    ensures Codes(n) + [Num((n + 1) as real)] == Codes(n + 1)
  {
  }

  /** `swap(..., to_numbers=False)` applied to an encoded column rebuilds
      its dictionaries from the codes themselves, so it returns the codes
      unchanged rather than the original labels. */
  lemma DecodeOfEncode(column: seq<Value>)
    ensures Swap(Swap(column, true).value, false) == Ok(Encode(column))
  {
    var e := Encode(column);
    UniqueOfEncode(column, |column|);
    assert e[..|column|] == e && column[..|column|] == column;
    DecodeOfCodes(e, |Unique(column)|);
  }

  /** A column whose distinct cells are the codes 1..k in order decodes to
      itself: code c is the c-th distinct cell, which is c. */
  lemma DecodeOfCodes(e: seq<Value>, k: nat)
    requires Unique(e) == Codes(k)
    requires forall i :: 0 <= i < |e| ==> IsCode(e[i], k)
    ensures Decode(e) == Ok(e)
  {
    assert |Unique(e)| == k;
    var d := Decode(e);
    assert d.Ok? && |d.value| == |e|;
    forall i | 0 <= i < |e| ensures d.value[i] == e[i] {
      var c := e[i].x.Floor;
      assert d.value[i] == Unique(e)[c - 1];
      assert Codes(k)[c - 1] == Num(c as real) == e[i];
    }
    assert d.value == e;
  }

  /** `kruskal_one` passes the dictionary `to_num` as `to_numbers`; a
      dictionary is true when it is non-empty, i.e. when the column has a
      cell, and for an empty column both directions give the empty column. */
  lemma SwapWithDictionaryFlag(column: seq<Value>)
    ensures Swap(column, |LabelToCode(Unique(column))| > 0) == Ok(Encode(column))
  {
    var m := LabelToCode(Unique(column));
    if column != [] {
      assert column[0] in m;
      assert |m.Keys| > 0;
    } else {
      assert Decode(column) == Ok([]);
    }
  }
}
