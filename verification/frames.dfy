/** The slice of pandas the scripts lean on: a table read with its first
    column as the row index, cells that are numbers or strings, and column
    selection by label or by position. */
module Frames {
  import opened Outcomes
  import opened Collections

  /** One cell. Numbers are kept as reals, so the int 1 and the float 1.0
      are the same cell, as they compare equal in Python; a string never
      equals a number. */
  datatype Value = Num(x: real) | Text(s: string)

  /** Row labels, column labels, and the cells of each column. */
  datatype Frame = Frame(index: seq<string>, names: seq<string>, columns: seq<seq<Value>>)

  predicate Valid(f: Frame) {
    |f.columns| == |f.names| && forall j :: 0 <= j < |f.columns| ==> |f.columns[j]| == |f.index|
  }

  /** `df[key]`: KeyError when no column carries the key. */
  function Column(f: Frame, key: string): (r: Result<seq<Value>>)
    requires Valid(f)
    ensures r.Ok? <==> key in f.names
    ensures r.Err? ==> r.error == KeyError(key)
    ensures r.Ok? ==> |r.value| == |f.index| && r.value == f.columns[Position(f.names, key)]
  {
    if key in f.names then Ok(f.columns[Position(f.names, key)]) else Err(KeyError(key))
  }

  /** The first of `labels` that the frame lacks. */
  function FirstMissing(names: seq<string>, labels: seq<string>): (r: nat)
    requires exists k :: 0 <= k < |labels| && labels[k] !in names
    ensures r < |labels| && labels[r] !in names
    ensures forall k :: 0 <= k < r ==> labels[k] in names
  {
    if labels[0] !in names then 0 else 1 + FirstMissing(names, labels[1..])
  }

  /** `df.loc[:, labels]` (and `df[labels]`): the named columns in the
      order asked for, every row kept. A missing label raises KeyError. */
  function SelectColumns(f: Frame, labels: seq<string>): (r: Result<Frame>)
    requires Valid(f)
    ensures r.Ok? <==> forall k :: 0 <= k < |labels| ==> labels[k] in f.names
    ensures r.Err? ==> r.error.KeyError? && r.error.key !in f.names && r.error.key in labels
    ensures r.Ok? ==> Valid(r.value) && r.value.index == f.index && r.value.names == labels
    ensures r.Ok? ==> forall k :: 0 <= k < |labels| ==> r.value.columns[k] == f.columns[Position(f.names, labels[k])]
  {
    if forall k :: 0 <= k < |labels| ==> labels[k] in f.names then
      Ok(Frame(f.index, labels, seq(|labels|, k requires 0 <= k < |labels| => f.columns[Position(f.names, labels[k])])))
    else
      Err(KeyError(labels[FirstMissing(f.names, labels)]))
  }

  /** `[df.columns[i] for i in positions]`: IndexError on a position past
      the last column. */
  function LabelsAt(names: seq<string>, positions: seq<nat>): (r: Result<seq<string>>)
    ensures r.Ok? <==> forall k :: 0 <= k < |positions| ==> positions[k] < |names|
    ensures r.Err? ==> r.error.IndexError?
    ensures r.Ok? ==> |r.value| == |positions| && forall k :: 0 <= k < |positions| ==> r.value[k] == names[positions[k]]
  {
    if forall k :: 0 <= k < |positions| ==> positions[k] < |names| then
      Ok(seq(|positions|, k requires 0 <= k < |positions| => names[positions[k]]))
    else
      Err(IndexError("df.columns[i]"))
  }

  /** The positions of the columns not labelled `key`, in order. */
  function Others(names: seq<string>, key: string): (r: seq<nat>)
    ensures forall k :: 0 <= k < |r| ==> r[k] < |names| && names[r[k]] != key
    ensures forall k, l :: 0 <= k < l < |r| ==> r[k] < r[l]
    ensures forall j :: 0 <= j < |names| && names[j] != key ==> j in r
    decreases |names|
  {
    if |names| == 0 then []
    else
      var init := Others(names[..|names| - 1], key);
      if names[|names| - 1] == key then init else init + [|names| - 1]
  }

  /** The columns at the given positions, in that order. */
  function Keep(f: Frame, keep: seq<nat>): (r: Frame)
    requires Valid(f) && forall k :: 0 <= k < |keep| ==> keep[k] < |f.names|
    ensures Valid(r) && r.index == f.index && |r.names| == |keep|
    ensures forall k :: 0 <= k < |keep| ==> r.names[k] == f.names[keep[k]] && r.columns[k] == f.columns[keep[k]]
  {
    Frame(f.index,
          seq(|keep|, k requires 0 <= k < |keep| => f.names[keep[k]]),
          seq(|keep|, k requires 0 <= k < |keep| => f.columns[keep[k]]))
  }

  /** `df.drop(key, axis=1)`: every column labelled `key` goes; a
      missing label raises KeyError. */
  function Drop(f: Frame, key: string): (r: Result<Frame>)
    requires Valid(f)
    ensures r.Ok? <==> key in f.names
    ensures r.Err? ==> r.error == KeyError(key)
    ensures r.Ok? ==> Valid(r.value) && r.value.index == f.index && key !in r.value.names
    ensures r.Ok? ==> forall j :: 0 <= j < |f.names| && f.names[j] != key ==> f.names[j] in r.value.names
    ensures r.Ok? ==> var keep := Others(f.names, key);
                      |r.value.names| == |keep| &&
                      forall k :: 0 <= k < |keep| ==> r.value.names[k] == f.names[keep[k]] && r.value.columns[k] == f.columns[keep[k]]
  {
    if key !in f.names then Err(KeyError(key))
    else
      var keep := Others(f.names, key);
      var d := Keep(f, keep);
      assert forall j :: 0 <= j < |f.names| && f.names[j] != key ==> f.names[j] in d.names by {
        forall j | 0 <= j < |f.names| && f.names[j] != key
          ensures f.names[j] in d.names
        {
          var k :| 0 <= k < |keep| && keep[k] == j;
          assert d.names[k] == f.names[j];
        }
      }
      Ok(d)
  }

  /** When the key heads the frame and appears nowhere else, dropping it
      leaves exactly the columns after the first, so feature `i` of the
      dropped frame is column `i + 1` of the original. */
  lemma {:induction false} DropHead(f: Frame, key: string)
    requires Valid(f) && |f.names| >= 1 && f.names[0] == key
    requires forall j :: 1 <= j < |f.names| ==> f.names[j] != key
    ensures Drop(f, key).Ok?
    ensures Drop(f, key).value.names == f.names[1..]
    ensures Drop(f, key).value.columns == f.columns[1..]
  {
    var keep := Others(f.names, key);
    OthersAfterHead(f.names, key);
    KeepTail(f, keep);
    assert Drop(f, key) == Ok(Keep(f, keep));
  }

  lemma KeepTail(f: Frame, keep: seq<nat>)
    requires Valid(f) && |f.names| >= 1 && keep == seq(|f.names| - 1, k => k + 1)
    ensures Keep(f, keep).names == f.names[1..] && Keep(f, keep).columns == f.columns[1..]
  {
    var d := Keep(f, keep);
    assert forall k :: 0 <= k < |keep| ==> keep[k] == k + 1;
  }

  lemma {:induction false} OthersAfterHead(names: seq<string>, key: string)
    requires |names| >= 1 && names[0] == key
    requires forall j :: 1 <= j < |names| ==> names[j] != key
    ensures Others(names, key) == seq(|names| - 1, k => k + 1)
    decreases |names|
  {
    if |names| > 1 {
      var init := names[..|names| - 1];
      OthersAfterHead(init, key);
    }
  }

  /** `df[key] = col` for a key already present: the first column
      carrying it is replaced. */
  function SetColumn(f: Frame, key: string, col: seq<Value>): (r: Frame)
    requires Valid(f) && key in f.names && |col| == |f.index|
    ensures Valid(r) && r.index == f.index && r.names == f.names
    ensures r.columns[Position(f.names, key)] == col
    ensures forall j :: 0 <= j < |f.names| && j != Position(f.names, key) ==> r.columns[j] == f.columns[j]
  {
    f.(columns := f.columns[Position(f.names, key) := col])
  }
}
