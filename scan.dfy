/** The column scan both reporters share: walk the columns in order and keep
    those of one kind whose label differs from the target. */
module ColumnScan {
  import opened Frame

  predicate Qualifies(c: Column, target: string, kind: Kind)
  {
    c.kind == kind && c.name != target
  }

  /** The columns of `kind` other than `target`, in scan order. */
  function Selected(data: Dataset, target: string, kind: Kind): (r: Dataset)
    ensures |r| <= |data|
    ensures forall k :: 0 <= k < |r| ==> Qualifies(r[k], target, kind)
  {
    if data == [] then []
    else
      var init := Selected(data[..|data| - 1], target, kind);
      var c := data[|data| - 1];
      if Qualifies(c, target, kind) then init + [c] else init
  }

  /** The positions of the selected columns: every selected column sits
      at its position, positions strictly increase (scan order), and every
      qualifying position is among them (nothing is dropped). */
  ghost function SelectedPositions(data: Dataset, target: string, kind: Kind): (p: seq<int>)
    ensures |p| == |Selected(data, target, kind)|
    ensures forall k :: 0 <= k < |p| ==>
              0 <= p[k] < |data| && Selected(data, target, kind)[k] == data[p[k]]
    ensures forall k, l :: 0 <= k < l < |p| ==> p[k] < p[l]
    ensures forall i :: 0 <= i < |data| && Qualifies(data[i], target, kind) ==> i in p
  {
    if data == [] then []
    else
      var init := data[..|data| - 1];
      var c := data[|data| - 1];
      var p := SelectedPositions(init, target, kind);
      assert forall i :: 0 <= i < |init| ==> init[i] == data[i];
      if Qualifies(c, target, kind) then
        assert Selected(data, target, kind) == Selected(init, target, kind) + [c];
        p + [|data| - 1]
      else
        assert Selected(data, target, kind) == Selected(init, target, kind);
        p
  }

  lemma SelectedSnoc(data: Dataset, target: string, kind: Kind, i: int)
    requires 0 <= i < |data|
    ensures Qualifies(data[i], target, kind) ==>
              Selected(data[..i + 1], target, kind) == Selected(data[..i], target, kind) + [data[i]]
    ensures !Qualifies(data[i], target, kind) ==>
              Selected(data[..i + 1], target, kind) == Selected(data[..i], target, kind)
  {
    assert data[..i + 1][..i] == data[..i];
  }

  /** Selecting from a prefix of the columns gives a prefix of the selection. */
  lemma {:induction false} SelectedPrefix(data: Dataset, target: string, kind: Kind, i: int)
    requires 0 <= i <= |data|
    ensures Selected(data[..i], target, kind) <= Selected(data, target, kind)
    decreases |data| - i
  {
    if i < |data| {
      SelectedPrefix(data, target, kind, i + 1);
      SelectedSnoc(data, target, kind, i);
    } else {
      assert data[..i] == data;
    }
  }
}
