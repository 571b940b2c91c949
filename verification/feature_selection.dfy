/** Column bookkeeping of the feature-selection script
    (Feature_Selection.py): which columns each selector keeps, how the
    Fisher-test path counts its 2x2 tables, how the class labels are
    recoded, which selector a method name picks and what the output file
    is called. Every fitted model is replaced by the one result the script
    reads from it: a ranking, a support list, a mask or a p-value. */
module FeatureSelection {
  import opened Outcomes
  import opened Collections
  import opened Strings
  import opened Frames
  import opened CommandLine

  /** The label every selector drops before fitting and puts back first. */
  const ClassLabel: string := "Class"

  // ---------------------------------------------------------------------
  // Index translation (DecisionTree and Chi2)
  // ---------------------------------------------------------------------

  /** `indices[0:n]` on a list, negative `n` counting from the end. */
  function Head<T>(s: seq<T>, n: int): (r: seq<T>)
    ensures n >= 0 ==> |r| == if n <= |s| then n else |s|
    ensures n < 0 ==> |r| == if -n <= |s| then |s| + n else 0
    ensures r == s[..|r|]
  {
    if n >= 0 then (if n <= |s| then s[..n] else s)
    else if -n <= |s| then s[..|s| + n]
    else []
  }

  /** Positions of the selector's features in the frame: feature `i` of the
      frame without its first column is column `i + 1`, and column 0 goes
      in front. */
  function Translate(keep: seq<nat>): (r: seq<nat>)
    ensures |r| == |keep| + 1 && r[0] == 0
    ensures forall k :: 0 <= k < |keep| ==> r[k + 1] == keep[k] + 1
  {
    [0] + seq(|keep|, k requires 0 <= k < |keep| => keep[k] + 1)
  }

  /** What DecisionTree and Chi2 share once the selector has spoken: drop
      `Class` (KeyError when absent), translate the kept feature indices,
      look the labels up by position (IndexError past the last column) and
      select those columns. */
  function SelectByIndex(f: Frame, keep: seq<nat>): (r: Result<Frame>)
    requires Valid(f)
    ensures r.Ok? <==> ClassLabel in f.names && forall k :: 0 <= k < |keep| ==> keep[k] + 1 < |f.names|
    ensures r.Err? && ClassLabel !in f.names ==> r.error == KeyError(ClassLabel)
    ensures r.Ok? ==> Valid(r.value) && r.value.index == f.index && |r.value.names| == |keep| + 1
    ensures r.Ok? ==> r.value.names[0] == f.names[0]
    ensures r.Ok? ==> forall k :: 0 <= k < |keep| ==> r.value.names[k + 1] == f.names[keep[k] + 1]
    ensures r.Ok? && Distinct(f.names) ==> r.value.columns[0] == f.columns[0]
    ensures r.Ok? && Distinct(f.names) ==> forall k :: 0 <= k < |keep| ==> r.value.columns[k + 1] == f.columns[keep[k] + 1]
  {
    var dropped := Drop(f, ClassLabel);
    if dropped.Err? then Err(dropped.error)
    else
      TranslateInRange(keep, |f.names|);
      var good := LabelsAt(f.names, Translate(keep));
      if good.Err? then Err(good.error)
      else
        TranslatedSelection(f, keep);
        if Distinct(f.names) then
          TranslatedColumns(f, keep);
          SelectColumns(f, good.value)
        else SelectColumns(f, good.value)
  }

  /** Every translated position is a column exactly when every kept
      feature index is one past a column. */
  lemma TranslateInRange(keep: seq<nat>, width: nat)
    requires width >= 1
    ensures (forall k :: 0 <= k < |Translate(keep)| ==> Translate(keep)[k] < width) <==>
            (forall k :: 0 <= k < |keep| ==> keep[k] + 1 < width)
  {
    var t := Translate(keep);
    if forall k :: 0 <= k < |keep| ==> keep[k] + 1 < width {
      forall k | 0 <= k < |t| ensures t[k] < width {
        if k > 0 { assert t[k] == keep[k - 1] + 1; }
      }
    } else {
      var k :| 0 <= k < |keep| && keep[k] + 1 >= width;
      assert t[k + 1] == keep[k] + 1;
    }
  }

  /** What selecting the translated labels yields. */
  lemma TranslatedSelection(f: Frame, keep: seq<nat>)
    requires Valid(f) && forall k :: 0 <= k < |keep| ==> keep[k] + 1 < |f.names|
    requires |f.names| >= 1
    ensures LabelsAt(f.names, Translate(keep)).Ok?
    ensures var out := SelectColumns(f, LabelsAt(f.names, Translate(keep)).value);
      out.Ok? && Valid(out.value) && out.value.index == f.index && |out.value.names| == |keep| + 1 &&
      out.value.names[0] == f.names[0] &&
      (forall k :: 0 <= k < |keep| ==> out.value.names[k + 1] == f.names[keep[k] + 1])
  {
    TranslateInRange(keep, |f.names|);
    var t := Translate(keep);
    var good := LabelsAt(f.names, t).value;
    forall k | 0 <= k < |good| ensures good[k] in f.names {
      assert good[k] == f.names[t[k]];
    }
    var out := SelectColumns(f, good);
    assert out.Ok? && out.value.names == good;
    forall k | 0 <= k < |keep| ensures good[k + 1] == f.names[keep[k] + 1] {
      assert good[k + 1] == f.names[t[k + 1]];
    }
  }

  /** With distinct labels, the selected columns are the translated
      positions' columns. */
  lemma TranslatedColumns(f: Frame, keep: seq<nat>)
    requires Valid(f) && forall k :: 0 <= k < |keep| ==> keep[k] + 1 < |f.names|
    requires |f.names| >= 1 && Distinct(f.names)
    ensures LabelsAt(f.names, Translate(keep)).Ok?
    ensures var out := SelectColumns(f, LabelsAt(f.names, Translate(keep)).value);
      out.Ok? && |out.value.columns| == |keep| + 1 && out.value.columns[0] == f.columns[0] &&
      forall k :: 0 <= k < |keep| ==> out.value.columns[k + 1] == f.columns[keep[k] + 1]
  {
    TranslatedSelection(f, keep);
    var t := Translate(keep);
    var good := LabelsAt(f.names, t).value;
    var out := SelectColumns(f, good).value;
    DistinctPositions(f.names);
    forall k | 0 <= k < |keep| ensures out.columns[k + 1] == f.columns[keep[k] + 1] {
      assert good[k + 1] == f.names[keep[k] + 1];
    }
  }

  /** In a list without repeats, each entry is found at its own position. */
  lemma DistinctPositions(names: seq<string>)
    requires Distinct(names)
    ensures forall j :: 0 <= j < |names| ==> Position(names, names[j]) == j
  {
    forall j | 0 <= j < |names| ensures Position(names, names[j]) == j {
      var p := Position(names, names[j]);
      assert p <= j;
    }
  }

  /** Random-forest selection: the first `n` entries of the descending
      importance order, translated. */
  function DecisionTree(f: Frame, order: seq<nat>, n: int): (r: Result<Frame>)
    requires Valid(f)
    ensures r == SelectByIndex(f, Head(order, n))
    ensures r.Ok? && n >= 0 ==> |r.value.names| - 1 == if n <= |order| then n else |order|
  {
    SelectByIndex(f, Head(order, n))
  }

  /** `order` is a descending-importance ranking of `m` features: every
      feature exactly once, importances non-increasing along it. */
  predicate Ranking(order: seq<nat>, imp: seq<real>) {
    |order| == |imp| && Distinct(order) &&
    (forall k :: 0 <= k < |order| ==> order[k] < |imp|) &&
    (forall k, l :: 0 <= k < l < |order| ==> imp[order[k]] >= imp[order[l]])
  }

  /** Random-forest selection keeps the most important features: for
      `n >= 0` it returns min(n, #features) of them after the class
      column, in non-increasing importance, and none it drops outranks one
      it keeps. */
  lemma TreeKeepsTopFeatures(f: Frame, order: seq<nat>, imp: seq<real>, n: int)
    requires Valid(f) && ClassLabel in f.names && Ranking(order, imp) && |imp| + 1 == |f.names|
    ensures DecisionTree(f, order, n).Ok?
    ensures n >= 0 ==> |DecisionTree(f, order, n).value.names| - 1 == if n <= |imp| then n else |imp|
    ensures forall k, l :: 0 <= k < l < |Head(order, n)| ==> imp[Head(order, n)[k]] >= imp[Head(order, n)[l]]
    ensures forall i :: 0 <= i < |imp| && i !in Head(order, n) ==>
      forall k :: 0 <= k < |Head(order, n)| ==> imp[i] <= imp[Head(order, n)[k]]
  {
    var keep := Head(order, n);
    assert forall k :: 0 <= k < |keep| ==> keep[k] + 1 < |f.names| by {
      forall k | 0 <= k < |keep| ensures keep[k] + 1 < |f.names| {
        assert keep[k] == order[k];
      }
    }
    HeadOutranksRest(order, imp, n);
  }

  /** A prefix of a ranking is in non-increasing importance, and no
      feature outside it outranks one inside it. */
  lemma HeadOutranksRest(order: seq<nat>, imp: seq<real>, n: int)
    requires Ranking(order, imp)
    ensures forall k, l :: 0 <= k < l < |Head(order, n)| ==> imp[Head(order, n)[k]] >= imp[Head(order, n)[l]]
    ensures forall i :: 0 <= i < |imp| && i !in Head(order, n) ==>
      forall k :: 0 <= k < |Head(order, n)| ==> imp[i] <= imp[Head(order, n)[k]]
  {
    var keep := Head(order, n);
    assert forall k :: 0 <= k < |keep| ==> keep[k] == order[k];
    forall i | 0 <= i < |imp| && i !in keep
      ensures forall k :: 0 <= k < |keep| ==> imp[i] <= imp[keep[k]]
    {
      var p := EveryPositionListed(order, i);
      assert |keep| <= p;
      forall k | 0 <= k < |keep| ensures imp[i] <= imp[keep[k]] {
        assert keep[k] == order[k];
      }
    }
  }

  /** Chi-square selection: the support indices, translated. */
  function Chi2(f: Frame, support: seq<nat>): (r: Result<Frame>)
    requires Valid(f)
    ensures r == SelectByIndex(f, support)
    ensures r.Ok? <==> ClassLabel in f.names && forall k :: 0 <= k < |support| ==> support[k] + 1 < |f.names|
    ensures r.Ok? ==> |r.value.names| == |support| + 1 && r.value.names[0] == f.names[0] &&
                      forall k :: 0 <= k < |support| ==> r.value.names[k + 1] == f.names[support[k] + 1]
  {
    SelectByIndex(f, support)
  }

  /** With an increasing support list, Chi2 keeps its columns in the
      frame's own order: each output column sits further right in the
      input than the one before it. */
  lemma Chi2KeepsColumnOrder(f: Frame, support: seq<nat>)
    requires Valid(f) && Distinct(f.names) && ClassLabel in f.names
    requires forall k, l :: 0 <= k < l < |support| ==> support[k] < support[l]
    requires forall k :: 0 <= k < |support| ==> support[k] + 1 < |f.names|
    ensures Chi2(f, support).Ok?
    ensures var kept := Chi2(f, support).value.names;
      (forall k :: 0 <= k < |kept| ==> kept[k] in f.names) &&
      forall k, l :: 0 <= k < l < |kept| ==> Position(f.names, kept[k]) < Position(f.names, kept[l])
  {
    SelectedNames(f, support);
    TranslateIncreasing(support);
    PickedInOrder(f.names, Translate(support), Chi2(f, support).value.names);
  }

  /** Translation keeps an increasing index list increasing. */
  lemma TranslateIncreasing(keep: seq<nat>)
    requires forall k, l :: 0 <= k < l < |keep| ==> keep[k] < keep[l]
    ensures forall k, l :: 0 <= k < l < |Translate(keep)| ==> Translate(keep)[k] < Translate(keep)[l]
  {
    var at := Translate(keep);
    forall k, l | 0 <= k < l < |at| ensures at[k] < at[l] {
      if k > 0 { assert at[k] == keep[k - 1] + 1 && at[l] == keep[l - 1] + 1; }
    }
  }

  /** The names index selection keeps are the frame's names at the
      translated positions. */
  lemma SelectedNames(f: Frame, keep: seq<nat>)
    requires Valid(f) && SelectByIndex(f, keep).Ok?
    ensures var names := SelectByIndex(f, keep).value.names;
      |names| == |Translate(keep)| &&
      forall k :: 0 <= k < |names| ==> Translate(keep)[k] < |f.names| && names[k] == f.names[Translate(keep)[k]]
  {
    var names := SelectByIndex(f, keep).value.names;
    var at := Translate(keep);
    forall k | 0 <= k < |names| ensures at[k] < |f.names| && names[k] == f.names[at[k]] {
      if k > 0 { assert at[k] == keep[k - 1] + 1; }
    }
  }

  /** Names picked at increasing positions of a list without repeats are
      found again at increasing positions. */
  lemma PickedInOrder(names: seq<string>, at: seq<nat>, picked: seq<string>)
    requires Distinct(names) && |picked| == |at|
    requires forall k :: 0 <= k < |at| ==> at[k] < |names| && picked[k] == names[at[k]]
    requires forall k, l :: 0 <= k < l < |at| ==> at[k] < at[l]
    ensures forall k :: 0 <= k < |picked| ==> picked[k] in names
    ensures forall k, l :: 0 <= k < l < |picked| ==> Position(names, picked[k]) < Position(names, picked[l])
  {
    DistinctPositions(names);
    forall k | 0 <= k < |picked| ensures picked[k] in names && Position(names, picked[k]) == at[k] {
      assert picked[k] == names[at[k]];
    }
  }

  // ---------------------------------------------------------------------
  // L1: selection by support mask
  // ---------------------------------------------------------------------

  /** `array[mask]` with a boolean mask: the entries whose flag is set, in
      order. */
  function Masked<T>(s: seq<T>, mask: seq<bool>): (r: seq<T>)
    requires |s| == |mask|
    ensures |r| <= |s|
    decreases |s|
  {
    if |s| == 0 then []
    else Masked(s[..|s| - 1], mask[..|s| - 1]) + (if mask[|s| - 1] then [s[|s| - 1]] else [])
  }

  /** The last entry is kept after the others exactly when its flag is
      set. */
  lemma MaskedLast<T>(s: seq<T>, mask: seq<bool>)
    requires |s| == |mask| && |s| > 0
    ensures Masked(s, mask) == Masked(s[..|s| - 1], mask[..|s| - 1]) + (if mask[|s| - 1] then [s[|s| - 1]] else [])
  {
  }

  /** The positions whose flag is set, in order. */
  function TrueAt(mask: seq<bool>): (r: seq<nat>)
    ensures forall k :: 0 <= k < |r| ==> r[k] < |mask| && mask[r[k]]
    ensures forall k, l :: 0 <= k < l < |r| ==> r[k] < r[l]
    ensures forall j :: 0 <= j < |mask| && mask[j] ==> j in r
    decreases |mask|
  {
    if |mask| == 0 then []
    else
      var init := TrueAt(mask[..|mask| - 1]);
      if mask[|mask| - 1] then init + [|mask| - 1] else init
  }

  /** Masking is picking the flagged positions. */
  lemma {:induction false} MaskedPicks<T>(s: seq<T>, mask: seq<bool>)
    requires |s| == |mask|
    ensures |Masked(s, mask)| == |TrueAt(mask)|
    ensures forall k :: 0 <= k < |TrueAt(mask)| ==> Masked(s, mask)[k] == s[TrueAt(mask)[k]]
    decreases |s|
  {
    if |s| > 0 {
      var n := |s| - 1;
      MaskedPicks(s[..n], mask[..n]);
    }
  }

  predicate KnownType(kind: string) {
    kind == "c" || kind == "classification" || kind == "r" || kind == "regression"
  }

  /** What `L1` needs to succeed: a `Class` column, a known problem type,
      a mask as wide as both the label list after the first entry and the
      frame without `Class`, and no kept label that is `Class` itself. */
  predicate L1Accepts(f: Frame, mask: seq<bool>, kind: string)
    requires Valid(f)
  {
    ClassLabel in f.names && KnownType(kind) && |mask| + 1 == |f.names| &&
    |mask| == |Drop(f, ClassLabel).value.names| && ClassLabel !in Masked(f.names[1..], mask)
  }

  /** `L1`: the estimator exists only for the four type names (NameError
      on `estimator` otherwise); the kept labels are the flagged entries of
      every label after the first, the kept data the flagged columns of the
      frame without `Class`, and `Class` goes back in front, which raises
      ValueError when a kept label is already `Class`. */
  function L1(f: Frame, mask: seq<bool>, kind: string): (r: Result<Frame>)
    requires Valid(f)
    ensures r.Ok? <==> L1Accepts(f, mask, kind)
    ensures ClassLabel !in f.names ==> r == Err(KeyError(ClassLabel))
    ensures ClassLabel in f.names && !KnownType(kind) ==> r == Err(NameError("estimator"))
    ensures r.Ok? ==> Valid(r.value) && r.value.index == f.index
    ensures r.Ok? ==> r.value.names == [ClassLabel] + Masked(f.names[1..], mask)
    ensures r.Ok? ==> r.value.columns[0] == f.columns[Position(f.names, ClassLabel)]
    ensures r.Ok? ==> r.value.columns[1..] == Masked(Drop(f, ClassLabel).value.columns, mask)
  {
    if ClassLabel !in f.names then Err(KeyError(ClassLabel))
    else if !KnownType(kind) then Err(NameError("estimator"))
    else
      var x := Drop(f, ClassLabel).value;
      if |mask| != |f.names| - 1 || |mask| != |x.names| then Err(IndexError("feat_names[keep]"))
      else
        var good := Masked(f.names[1..], mask);
        if ClassLabel in good then Err(ValueError("cannot insert Class, already exists"))
        else
          MaskedPicks(x.columns, mask);
          MaskedPicks(f.names[1..], mask);
          Insert(f, Masked(x.columns, mask), good)
  }

  /** `df2.insert(0, 'Class', Y_all)` on a frame built from the kept data
      and labels. */
  function Insert(f: Frame, data: seq<seq<Value>>, good: seq<string>): (r: Result<Frame>)
    requires Valid(f) && ClassLabel in f.names && |data| == |good|
    requires forall k :: 0 <= k < |data| ==> |data[k]| == |f.index|
    ensures r.Ok? && Valid(r.value) && r.value.index == f.index
    ensures r.value.names == [ClassLabel] + good
    ensures r.value.columns[0] == f.columns[Position(f.names, ClassLabel)] && r.value.columns[1..] == data
  {
    var y := f.columns[Position(f.names, ClassLabel)];
    assert ([y] + data)[1..] == data;
    Ok(Frame(f.index, [ClassLabel] + good, [y] + data))
  }

  /** When `Class` heads the frame and is its only class column, L1 is
      exactly index selection on the flagged features: the same labels,
      the same columns, the class column first. */
  lemma L1IsIndexSelection(f: Frame, mask: seq<bool>, kind: string)
    requires Valid(f) && Distinct(f.names) && |f.names| >= 1 && f.names[0] == ClassLabel
    requires KnownType(kind) && |mask| + 1 == |f.names|
    ensures L1(f, mask, kind).Ok? && SelectByIndex(f, TrueAt(mask)).Ok?
    ensures L1(f, mask, kind).value == SelectByIndex(f, TrueAt(mask)).value
  {
    var a := L1Result(f, mask, kind);
    var b := IndexResult(f, mask);
    NamesAgree(f, mask, a, b);
    assert Position(f.names, ClassLabel) == 0;
    ColumnsAgree(f, mask, a, b);
  }

  lemma L1Result(f: Frame, mask: seq<bool>, kind: string) returns (a: Frame)
    requires Valid(f) && Distinct(f.names) && |f.names| >= 1 && f.names[0] == ClassLabel
    requires KnownType(kind) && |mask| + 1 == |f.names|
    ensures L1(f, mask, kind) == Ok(a)
    ensures Drop(f, ClassLabel).Ok? && Drop(f, ClassLabel).value.columns == f.columns[1..]
    ensures a.names == [ClassLabel] + Masked(f.names[1..], mask)
    ensures |a.columns| >= 1 && a.columns[0] == f.columns[Position(f.names, ClassLabel)]
    ensures a.columns[1..] == Masked(Drop(f, ClassLabel).value.columns, mask)
  {
    DropHead(f, ClassLabel);
    MaskedAvoidsClass(f, mask);
    a := L1(f, mask, kind).value;
  }

  lemma IndexResult(f: Frame, mask: seq<bool>) returns (b: Frame)
    requires Valid(f) && Distinct(f.names) && |f.names| >= 1 && f.names[0] == ClassLabel && |mask| + 1 == |f.names|
    ensures SelectByIndex(f, TrueAt(mask)) == Ok(b)
    ensures |b.names| == |TrueAt(mask)| + 1 && b.names[0] == f.names[0]
    ensures forall k :: 0 <= k < |TrueAt(mask)| ==> b.names[k + 1] == f.names[TrueAt(mask)[k] + 1]
    ensures |b.columns| == |TrueAt(mask)| + 1 && b.columns[0] == f.columns[0]
    ensures forall k :: 0 <= k < |TrueAt(mask)| ==> b.columns[k + 1] == f.columns[TrueAt(mask)[k] + 1]
  {
    b := SelectByIndex(f, TrueAt(mask)).value;
  }

  lemma MaskedAvoidsClass(f: Frame, mask: seq<bool>)
    requires Distinct(f.names) && |f.names| >= 1 && f.names[0] == ClassLabel && |mask| + 1 == |f.names|
    ensures ClassLabel !in Masked(f.names[1..], mask)
  {
    var t := TrueAt(mask);
    var tail := f.names[1..];
    MaskedPicks(tail, mask);
    var good := Masked(tail, mask);
    forall k | 0 <= k < |good| ensures good[k] != ClassLabel {
      assert good[k] == tail[t[k]] == f.names[t[k] + 1];
    }
  }

  lemma NamesAgree(f: Frame, mask: seq<bool>, a: Frame, b: Frame)
    requires Valid(f) && |f.names| >= 1 && f.names[0] == ClassLabel && |mask| + 1 == |f.names|
    requires a.names == [ClassLabel] + Masked(f.names[1..], mask)
    requires |b.names| == |TrueAt(mask)| + 1 && b.names[0] == f.names[0]
    requires forall k :: 0 <= k < |TrueAt(mask)| ==> b.names[k + 1] == f.names[TrueAt(mask)[k] + 1]
    ensures a.names == b.names
  {
    MaskedPicks(f.names[1..], mask);
  }

  lemma ColumnsAgree(f: Frame, mask: seq<bool>, a: Frame, b: Frame)
    requires Valid(f) && |f.names| >= 1 && |mask| + 1 == |f.names|
    requires |a.columns| >= 1 && a.columns[0] == f.columns[0]
    requires a.columns[1..] == Masked(f.columns[1..], mask)
    requires |b.columns| == |TrueAt(mask)| + 1 && b.columns[0] == f.columns[0]
    requires forall k :: 0 <= k < |TrueAt(mask)| ==> b.columns[k + 1] == f.columns[TrueAt(mask)[k] + 1]
    ensures a.columns == b.columns
  {
    var t := TrueAt(mask);
    var tail := f.columns[1..];
    MaskedPicks(tail, mask);
    forall k | 1 <= k < |a.columns| ensures a.columns[k] == b.columns[k] {
      assert a.columns[k] == a.columns[1..][k - 1] == tail[t[k - 1]];
    }
  }

  // ---------------------------------------------------------------------
  // FET: Fisher's exact test per feature
  // ---------------------------------------------------------------------

  /** How many rows carry class `a` and feature value `b`; 0 when none do,
      as the script's `except` branches assign. */
  function CountPairs(cls: seq<Value>, col: seq<Value>, a: Value, b: Value): (r: nat)
    requires |cls| == |col|
    ensures r <= |cls|
    ensures r == 0 <==> forall i :: 0 <= i < |cls| ==> !(cls[i] == a && col[i] == b)
    decreases |cls|
  {
    if |cls| == 0 then 0
    else
      var n := |cls| - 1;
      CountPairs(cls[..n], col[..n], a, b) + (if cls[n] == a && col[n] == b then 1 else 0)
  }

  /** The table `[[TP, FN], [FP, TN]]` handed to `fisher_exact`. */
  datatype Table = Table(tp: nat, fn: nat, fp: nat, tn: nat)

  function Contingency(cls: seq<Value>, col: seq<Value>, pos: Value, neg: Value): (r: Table)
    requires |cls| == |col|
    ensures r.tp <= |cls| && r.fn <= |cls| && r.fp <= |cls| && r.tn <= |cls|
    ensures r.tp == 0 <==> forall i :: 0 <= i < |cls| ==> !(cls[i] == pos && col[i] == Num(1.0))
    ensures r.fn == 0 <==> forall i :: 0 <= i < |cls| ==> !(cls[i] == pos && col[i] == Num(0.0))
    ensures r.fp == 0 <==> forall i :: 0 <= i < |cls| ==> !(cls[i] == neg && col[i] == Num(1.0))
    ensures r.tn == 0 <==> forall i :: 0 <= i < |cls| ==> !(cls[i] == neg && col[i] == Num(0.0))
  {
    Table(CountPairs(cls, col, pos, Num(1.0)), CountPairs(cls, col, pos, Num(0.0)),
          CountPairs(cls, col, neg, Num(1.0)), CountPairs(cls, col, neg, Num(0.0)))
  }

  /** With two distinct labels on every row and a 0/1 feature, the four
      cells count every row once. */
  lemma {:induction false} ContingencyCoversRows(cls: seq<Value>, col: seq<Value>, pos: Value, neg: Value)
    requires |cls| == |col| && pos != neg
    requires forall i :: 0 <= i < |cls| ==> cls[i] == pos || cls[i] == neg
    requires forall i :: 0 <= i < |col| ==> col[i] == Num(1.0) || col[i] == Num(0.0)
    ensures var t := Contingency(cls, col, pos, neg); t.tp + t.fn + t.fp + t.tn == |cls|
    decreases |cls|
  {
    if |cls| > 0 {
      var n := |cls| - 1;
      ContingencyCoversRows(cls[..n], col[..n], pos, neg);
    }
  }

  /** The p-value `fisher_exact` returns for a table. */
  type Fisher = Table -> real

  /** The cells of feature `k` against class column `cl`. */
  function TableOf(f: Frame, cl: string, k: string, pos: Value, neg: Value): Table
    requires Valid(f) && cl in f.names && k in f.names
  {
    Contingency(f.columns[Position(f.names, cl)], f.columns[Position(f.names, k)], pos, neg)
  }

  predicate Enriched(f: Frame, cl: string, k: string, cutoff: real, pos: Value, neg: Value, fisher: Fisher)
    requires Valid(f) && cl in f.names && k in f.names
  {
    fisher(TableOf(f, cl, k, pos, neg)) <= cutoff
  }

  /** Which of `kmers` pass the cutoff, position by position. */
  function EnrichedMask(f: Frame, cl: string, kmers: seq<string>, cutoff: real, pos: Value, neg: Value, fisher: Fisher): (r: seq<bool>)
    requires Valid(f) && cl in f.names && forall k :: 0 <= k < |kmers| ==> kmers[k] in f.names
    ensures |r| == |kmers| && forall k :: 0 <= k < |kmers| ==> r[k] == Enriched(f, cl, kmers[k], cutoff, pos, neg, fisher)
  {
    seq(|kmers|, k requires 0 <= k < |kmers| => Enriched(f, cl, kmers[k], cutoff, pos, neg, fisher))
  }

  lemma EnrichedMaskPrefix(f: Frame, cl: string, kmers: seq<string>, cutoff: real, pos: Value, neg: Value, fisher: Fisher)
    requires Valid(f) && cl in f.names && forall k :: 0 <= k < |kmers| ==> kmers[k] in f.names
    requires |kmers| > 0
    ensures EnrichedMask(f, cl, kmers[..|kmers| - 1], cutoff, pos, neg, fisher) == EnrichedMask(f, cl, kmers, cutoff, pos, neg, fisher)[..|kmers| - 1]
  {
    var n := |kmers| - 1;
    var mask := EnrichedMask(f, cl, kmers, cutoff, pos, neg, fisher);
    var front := EnrichedMask(f, cl, kmers[..n], cutoff, pos, neg, fisher);
    forall k | 0 <= k < n ensures front[k] == mask[k] {
      assert kmers[..n][k] == kmers[k];
    }
  }

  /** The loop over `kmers`: each feature whose p-value is at most the
      cutoff is appended, in turn. */
  function EnrichedAmong(f: Frame, cl: string, kmers: seq<string>, cutoff: real, pos: Value, neg: Value, fisher: Fisher): (r: seq<string>)
    requires Valid(f) && cl in f.names && forall k :: 0 <= k < |kmers| ==> kmers[k] in f.names
    ensures |r| <= |kmers|
    ensures forall x :: x in r ==> x in kmers && x in f.names && Enriched(f, cl, x, cutoff, pos, neg, fisher)
    ensures forall k :: 0 <= k < |kmers| && Enriched(f, cl, kmers[k], cutoff, pos, neg, fisher) ==> kmers[k] in r
    decreases |kmers|
  {
    if |kmers| == 0 then []
    else
      var n := |kmers| - 1;
      var init := EnrichedAmong(f, cl, kmers[..n], cutoff, pos, neg, fisher);
      assert kmers == kmers[..n] + [kmers[n]];
      if Enriched(f, cl, kmers[n], cutoff, pos, neg, fisher) then init + [kmers[n]] else init
  }

  /** The loop keeps the enriched k-mers in the order `kmers` lists them:
      it is `kmers` under the mask of which ones pass. */
  lemma {:induction false} EnrichedAmongIsMasked(f: Frame, cl: string, kmers: seq<string>, cutoff: real, pos: Value, neg: Value, fisher: Fisher)
    requires Valid(f) && cl in f.names && forall k :: 0 <= k < |kmers| ==> kmers[k] in f.names
    ensures EnrichedAmong(f, cl, kmers, cutoff, pos, neg, fisher) == Masked(kmers, EnrichedMask(f, cl, kmers, cutoff, pos, neg, fisher))
    decreases |kmers|
  {
    if |kmers| > 0 {
      var n := |kmers| - 1;
      EnrichedAmongIsMasked(f, cl, kmers[..n], cutoff, pos, neg, fisher);
      EnrichedMaskPrefix(f, cl, kmers, cutoff, pos, neg, fisher);
      var mask := EnrichedMask(f, cl, kmers, cutoff, pos, neg, fisher);
      var last := if mask[n] then [kmers[n]] else [];
      MaskedLast(kmers, mask);
      assert EnrichedAmong(f, cl, kmers, cutoff, pos, neg, fisher) == EnrichedAmong(f, cl, kmers[..n], cutoff, pos, neg, fisher) + last;
    } else {
      assert EnrichedMask(f, cl, kmers, cutoff, pos, neg, fisher) == [];
    }
  }

  /** `FET`: removing the class label from the label list raises
      ValueError when it is absent; otherwise the class column comes first,
      then every other feature whose p-value is at most the cutoff. */
  function FET(f: Frame, cl: string, cutoff: real, pos: Value, neg: Value, fisher: Fisher): (r: Result<Frame>)
    requires Valid(f)
    ensures r.Ok? <==> cl in f.names
    ensures r.Err? ==> r.error.ValueError?
    ensures r.Ok? ==> Valid(r.value) && r.value.index == f.index && |r.value.names| >= 1 && r.value.names[0] == cl
    ensures r.Ok? ==> r.value.names == [cl] + EnrichedAmong(f, cl, RemoveFirst(f.names, cl), cutoff, pos, neg, fisher)
    ensures r.Ok? ==> forall k :: 0 <= k < |r.value.names| ==>
              r.value.names[k] in f.names && r.value.columns[k] == f.columns[Position(f.names, r.value.names[k])]
    ensures r.Ok? ==> forall x :: x in r.value.names[1..] ==> x in f.names && Enriched(f, cl, x, cutoff, pos, neg, fisher)
    ensures r.Ok? ==> forall x :: x in f.names && x != cl && Enriched(f, cl, x, cutoff, pos, neg, fisher) ==> x in r.value.names[1..]
  {
    if cl !in f.names then Err(ValueError("list.remove(x): x not in list"))
    else
      var kmers := RemoveFirst(f.names, cl);
      assert forall k :: 0 <= k < |kmers| ==> kmers[k] in f.names;
      var keep := [cl] + EnrichedAmong(f, cl, kmers, cutoff, pos, neg, fisher);
      var out := SelectColumns(f, keep);
      assert out.Ok?;
      assert keep[1..] == EnrichedAmong(f, cl, kmers, cutoff, pos, neg, fisher);
      FetMembers(f, cl, cutoff, pos, neg, fisher);
      out
  }

  /** The k-mers the loop keeps are enriched features of the frame, and
      every enriched feature other than the class column is kept. */
  lemma FetMembers(f: Frame, cl: string, cutoff: real, pos: Value, neg: Value, fisher: Fisher)
    requires Valid(f) && cl in f.names
    ensures var kept := EnrichedAmong(f, cl, RemoveFirst(f.names, cl), cutoff, pos, neg, fisher);
            (forall x :: x in kept ==> x in f.names && Enriched(f, cl, x, cutoff, pos, neg, fisher)) &&
            (forall x :: x in f.names && x != cl && Enriched(f, cl, x, cutoff, pos, neg, fisher) ==> x in kept)
  {
    var kmers := RemoveFirst(f.names, cl);
    var kept := EnrichedAmong(f, cl, kmers, cutoff, pos, neg, fisher);
    var at := Position(f.names, cl);
    forall x | x in f.names && x != cl && Enriched(f, cl, x, cutoff, pos, neg, fisher) ensures x in kept {
      var j := Position(f.names, x);
      var k := if j < at then j else j - 1;
      RemoveFirstAt(f.names, cl, k);
    }
  }

  /** Raising the cutoff never drops a feature that was kept. */
  lemma FetCutoffMonotone(f: Frame, cl: string, lo: real, hi: real, pos: Value, neg: Value, fisher: Fisher, x: string)
    requires Valid(f) && cl in f.names && lo <= hi
    requires x in FET(f, cl, lo, pos, neg, fisher).value.names
    ensures x in FET(f, cl, hi, pos, neg, fisher).value.names
  {
    var a := FET(f, cl, lo, pos, neg, fisher).value.names;
    var b := FET(f, cl, hi, pos, neg, fisher).value.names;
    if x == cl {
      assert b[0] == x;
    } else {
      InTail(a, x);
      assert x in b[1..];
      OutOfTail(b, x);
    }
  }

  lemma InTail(s: seq<string>, x: string)
    requires x in s && |s| >= 1 && x != s[0]
    ensures x in s[1..]
  {
    var j :| 0 <= j < |s| && s[j] == x;
    assert s[1..][j - 1] == x;
  }

  lemma OutOfTail(s: seq<string>, x: string)
    requires |s| >= 1 && x in s[1..]
    ensures x in s
  {
    var j :| 0 <= j < |s[1..]| && s[1..][j] == x;
    assert s[j + 1] == x;
  }

  // ---------------------------------------------------------------------
  // Recoding of the class column
  // ---------------------------------------------------------------------

  /** `series.replace(before, after)`. */
  function Replace(col: seq<Value>, before: Value, after: Value): (r: seq<Value>)
    ensures |r| == |col|
    ensures forall i :: 0 <= i < |col| ==> (col[i] == before ==> r[i] == after) && (col[i] != before ==> r[i] == col[i])
  {
    seq(|col|, i requires 0 <= i < |col| => if col[i] == before then after else col[i])
  }

  /** The column `Class` has `pos` replaced by 1, then `neg` by 0; a frame
      without `Class` raises KeyError. The `-class` option plays no part. */
  function Recode(f: Frame, pos: Value, neg: Value): (r: Result<Frame>)
    requires Valid(f)
    ensures r.Ok? <==> ClassLabel in f.names
    ensures r.Err? ==> r.error == KeyError(ClassLabel)
    ensures r.Ok? ==> Valid(r.value) && r.value.index == f.index && r.value.names == f.names
    ensures r.Ok? ==> forall j :: 0 <= j < |f.names| && j != Position(f.names, ClassLabel) ==> r.value.columns[j] == f.columns[j]
  {
    var col :- Column(f, ClassLabel);
    Ok(SetColumn(f, ClassLabel, Replace(Replace(col, pos, Num(1.0)), neg, Num(0.0))))
  }

  /** On a two-label class column whose negative label is not 1, recoding
      turns exactly the positive rows into 1 and exactly the negative rows
      into 0. */
  lemma RecodeBinary(f: Frame, pos: Value, neg: Value, i: nat)
    requires Valid(f) && ClassLabel in f.names && pos != neg && neg != Num(1.0)
    requires forall v :: v in f.columns[Position(f.names, ClassLabel)] ==> v == pos || v == neg
    requires i < |f.index|
    ensures var before := f.columns[Position(f.names, ClassLabel)][i];
            var after := Recode(f, pos, neg).value.columns[Position(f.names, ClassLabel)][i];
            (after == Num(1.0) <==> before == pos) && (after == Num(0.0) <==> before == neg)
  {
    var c := f.columns[Position(f.names, ClassLabel)];
    assert c[i] in c;
  }

  /** With the default labels 1 and 0 recoding changes nothing. */
  lemma RecodeDefaultsIsIdentity(f: Frame)
    requires Valid(f) && ClassLabel in f.names
    ensures Recode(f, Num(1.0), Num(0.0)) == Ok(f)
  {
    var p := Position(f.names, ClassLabel);
    var c := f.columns[p];
    assert Replace(Replace(c, Num(1.0), Num(1.0)), Num(0.0), Num(0.0)) == c;
    assert f.columns[p := c] == f.columns;
  }

  // ---------------------------------------------------------------------
  // Command-line options
  // ---------------------------------------------------------------------

  /** A float read from the command line: its value and `str()` of it. Both
      come from Python's float conversion, which the model does not
      reimplement. */
  datatype Param = Param(value: real, repr: string)

  /** `float(s)`; None where Python raises ValueError. */
  type ToFloat = string -> Option<Param>

  datatype Options = Options(
    df: Option<string>, save: Option<string>, saveList: string, selector: Option<string>,
    n: Option<int>, feat: string, parameter: Option<Param>, kind: Option<string>,
    cl: string, pos: Value, neg: Value)

  /** The defaults the script starts from. The 0.05 cutoff is assigned to
      `p`, a name nothing reads, so PARAMETER starts unassigned. */
  function DefaultsAsWritten(): (r: Options)
    ensures r.parameter.None? && r.pos == Num(1.0) && r.neg == Num(0.0) && r.cl == ClassLabel && r.feat == "all"
  {
    Options(None, None, "false", None, None, "all", None, None, ClassLabel, Num(1.0), Num(0.0))
  }

  /** The cutoff the documentation promises for the Fisher test. */
  const DefaultCutoff: Param := Param(0.05, "0.05")

  /** The defaults with the cutoff where the documentation puts it. */
  function Defaults(): (r: Options)
  {
    DefaultsAsWritten().(parameter := Some(DefaultCutoff))
  }

  predicate Recognised(flag: string) {
    flag in {"-df", "-save", "-list", "-f", "-n", "-feat", "-p", "-type", "-class", "-pos", "-neg"}
  }

  /** One `if sys.argv[i] == ...` block with its value. `-n` goes through
      `int()` and `-p` through `float()`, either raising ValueError. The
      labels given with `-pos` and `-neg` are strings. */
  function Assign(o: Options, flag: string, value: string, toFloat: ToFloat): (r: Result<Options>)
    ensures !Recognised(flag) ==> r == Ok(o)
    ensures r.Err? ==> r.error.ValueError? && (flag == "-n" || flag == "-p")
    ensures r.Ok? && flag != "-p" ==> r.value.parameter == o.parameter
    ensures r.Ok? && flag == "-p" ==> r.value.parameter.Some? && Some(r.value.parameter.value) == toFloat(value)
  {
    if flag == "-df" then Ok(o.(df := Some(value)))
    else if flag == "-save" then Ok(o.(save := Some(value)))
    else if flag == "-list" then Ok(o.(saveList := value))
    else if flag == "-f" then Ok(o.(selector := Some(value)))
    else if flag == "-n" then
      (match ParseInt(value)
       case Ok(v) => Ok(o.(n := Some(v)))
       case Err(e) => Err(e))
    else if flag == "-feat" then Ok(o.(feat := value))
    else if flag == "-p" then
      (match toFloat(value)
       case Some(v) => Ok(o.(parameter := Some(v)))
       case None => Err(ValueError(value)))
    else if flag == "-type" then Ok(o.(kind := Some(value)))
    else if flag == "-class" then Ok(o.(cl := value))
    else if flag == "-pos" then Ok(o.(pos := Text(value)))
    else if flag == "-neg" then Ok(o.(neg := Text(value)))
    else Ok(o)
  }

  /** One step of the argument loop, the float conversion fixed. */
  function Step(toFloat: ToFloat): (Options, string, string) -> Result<Options> {
    (o, flag, value) => Assign(o, flag, value, toFloat)
  }

  /** The argument loop: the blocks are independent `if`s, so every pair
      is offered to each in turn. */
  function ScanOptions(init: Options, args: seq<string>, toFloat: ToFloat): (r: Result<Options>)
    ensures r.Err? ==> r.error.IndexError? || r.error.ValueError?
    ensures |args| % 2 == 1 && Recognised(args[|args| - 1]) ==> r.Err?
  {
    ScanFaults(init, args, Step(toFloat), flag => Recognised(flag), (e: Fault) => e.IndexError? || e.ValueError?);
    Scan(init, args, Step(toFloat), flag => Recognised(flag))
  }

  /** Without `-p` on the command line the scan never touches PARAMETER. */
  lemma ScanKeepsParameter(init: Options, args: seq<string>, toFloat: ToFloat)
    requires Absent(args, "-p")
    ensures ScanOptions(init, args, toFloat).Ok? ==> ScanOptions(init, args, toFloat).value.parameter == init.parameter
  {
    var P := (o: Options) => o.parameter == init.parameter;
    ScanPreserves(init, args, Step(toFloat), flag => Recognised(flag), P);
  }

  /** The positive label comes from the last `-pos` given. */
  lemma ScanLabels(init: Options, args: seq<string>, toFloat: ToFloat)
    ensures var r := ScanOptions(init, args, toFloat);
            var last := LastFlag(args, flag => flag == "-pos");
            r.Ok? ==> r.value.pos == if last.Some? then Text(args[last.value + 1]) else init.pos
  {
    ScanLastWins(init, args, Step(toFloat), flag => Recognised(flag), flag => flag == "-pos",
                 (o: Options) => o.pos, (f, v) => Text(v));
  }

  // ---------------------------------------------------------------------
  // Dispatch and output name
  // ---------------------------------------------------------------------

  datatype Method = RandomForest | ChiSquare | Lasso | Fisher | Unknown

  /** The `if/elif` chain on `F.lower()`. */
  function MethodOf(name: string): (r: Method)
    ensures r == RandomForest <==> Lower(name) == "randomforest" || Lower(name) == "rf"
    ensures r == ChiSquare <==> Lower(name) == "chi2" || Lower(name) == "c2"
    ensures r == Lasso <==> Lower(name) == "l1" || Lower(name) == "lasso"
    ensures r == Fisher <==> Lower(name) == "fisher" || Lower(name) == "fet"
  {
    var l := Lower(name);
    if l == "randomforest" || l == "rf" then RandomForest
    else if l == "chi2" || l == "c2" then ChiSquare
    else if l == "l1" || l == "lasso" then Lasso
    else if l == "fisher" || l == "fet" then Fisher
    else Unknown
  }

  /** Method names are matched without regard to case: a name and its
      lower-case form pick the same selector. */
  lemma MethodIgnoresCase(name: string)
    ensures MethodOf(Lower(name)) == MethodOf(name)
  {
    LowerIdempotent(name);
  }

  /** The library results the selectors hand back: the descending
      importance order, the chi-square support, the L1 support mask, and
      the Fisher p-value of a table. */
  datatype Library = Library(ranking: seq<nat>, support: seq<nat>, mask: seq<bool>, fisher: Fisher)

  datatype Selected = Selected(frame: Frame, saveName: string)

  /** The labels FET is given, as written: the original `pos` and `neg`,
      although the class column now holds 1 and 0. */
  function FisherLabelsAsWritten(o: Options): (r: (Value, Value))
  {
    (o.pos, o.neg)
  }

  /** The labels FET should be given: the codes the recoding wrote. */
  function FisherLabels(o: Options): (r: (Value, Value))
  {
    (Num(1.0), Num(0.0))
  }

  /** `DF.split("/")[-1] + "_" + F + "_"`: every save name starts so. */
  function Stem(df: string, name: string): (r: string)
    ensures |r| >= |name| + 2
    ensures var k := |r| - |name| - 2;
            k <= |df| && r[..k] == df[|df| - k..] && '/' !in r[..k] && r[k..] == "_" + name + "_"
  {
    LastSegment(df, '/') + "_" + name + "_"
  }

  /** The `if/elif` chain on the method, given the prepared frame and the
      save-name stem: each branch reads the values its selector needs
      (NameError on `N`, `PARAMETER` or `TYPE` when unassigned), runs the
      selector and appends what identifies the run to the stem. A name
      matching no method evaluates the undefined `enrich` and raises
      NameError before the fallback message can be reached. */
  function Dispatch(o: Options, df: Frame, name: string, stem: string, lib: Library): (r: Result<Selected>)
    requires Valid(df)
    ensures MethodOf(name) == Unknown ==> r == Err(NameError("enrich"))
    ensures (MethodOf(name) == RandomForest || MethodOf(name) == ChiSquare) && o.n.None? ==> r == Err(NameError("N"))
    ensures (MethodOf(name) == Lasso || MethodOf(name) == Fisher) && o.parameter.None? ==> r == Err(NameError("PARAMETER"))
    ensures MethodOf(name) == Lasso && o.parameter.Some? && o.kind.None? ==> r == Err(NameError("TYPE"))
    ensures MethodOf(name) == RandomForest && o.n.Some? ==>
              var tree := DecisionTree(df, lib.ranking, o.n.value);
              r.Ok? == tree.Ok? && (r.Ok? ==> r.value.frame == tree.value)
    ensures MethodOf(name) == ChiSquare && o.n.Some? ==>
              var chi := Chi2(df, lib.support);
              r.Ok? == chi.Ok? && (r.Ok? ==> r.value.frame == chi.value)
    ensures MethodOf(name) == Lasso && o.parameter.Some? && o.kind.Some? ==>
              var l1 := L1(df, lib.mask, o.kind.value);
              r.Ok? == l1.Ok? && (r.Ok? ==> r.value.frame == l1.value)
    ensures r.Ok? && (MethodOf(name) == RandomForest || MethodOf(name) == ChiSquare) ==>
              o.n.Some? && r.value.saveName == stem + IntToString(o.n.value)
    ensures r.Ok? && MethodOf(name) == Lasso ==>
              o.kind.Some? && o.parameter.Some? && KnownType(o.kind.value) && r.value.saveName == stem + o.kind.value + "_" + o.parameter.value.repr
    ensures r.Ok? && MethodOf(name) == Fisher ==> o.parameter.Some? && r.value.saveName == stem + o.parameter.value.repr
    ensures MethodOf(name) == Fisher && o.parameter.Some? ==>
              var fet := FET(df, o.cl, o.parameter.value.value, o.pos, o.neg, lib.fisher);
              r.Ok? == fet.Ok? && (r.Ok? ==> r.value.frame == fet.value)
  {
    match MethodOf(name)
    case RandomForest =>
      if o.n.None? then Err(NameError("N"))
      else
        var out :- DecisionTree(df, lib.ranking, o.n.value);
        Ok(Selected(out, stem + IntToString(o.n.value)))
    case ChiSquare =>
      if o.n.None? then Err(NameError("N"))
      else
        var out :- Chi2(df, lib.support);
        Ok(Selected(out, stem + IntToString(o.n.value)))
    case Lasso =>
      if o.parameter.None? then Err(NameError("PARAMETER"))
      else if o.kind.None? then Err(NameError("TYPE"))
      else
        var out :- L1(df, lib.mask, o.kind.value);
        Ok(Selected(out, stem + o.kind.value + "_" + o.parameter.value.repr))
    case Fisher =>
      if o.parameter.None? then Err(NameError("PARAMETER"))
      else
        var (p, q) := FisherLabelsAsWritten(o);
        var out :- FET(df, o.cl, o.parameter.value.value, p, q, lib.fisher);
        Ok(Selected(out, stem + o.parameter.value.repr))
    case Unknown => Err(NameError("enrich"))
  }

  /** The frame the selectors see: the recoded data (KeyError without a
      `Class` column), cut down to `Class` and the `-feat` list when one is
      given (KeyError on a missing feature). */
  function Prepare(o: Options, f: Frame, features: seq<string>): (r: Result<Frame>)
    requires Valid(f)
    ensures r.Ok? <==> ClassLabel in f.names && (o.feat != "all" ==> forall k :: 0 <= k < |features| ==> features[k] in f.names)
    ensures r.Ok? ==> Valid(r.value) && r.value.index == f.index
    ensures r.Ok? && o.feat == "all" ==> r.value.names == f.names
    ensures r.Ok? && o.feat != "all" ==> r.value.names == [ClassLabel] + features
  {
    var recoded :- Recode(f, o.pos, o.neg);
    if o.feat != "all" then
      assert forall k :: 1 <= k < |[ClassLabel] + features| ==> ([ClassLabel] + features)[k] == features[k - 1];
      SelectColumns(recoded, [ClassLabel] + features)
    else Ok(recoded)
  }

  /** The main block from the recoding to the save name: DF must be set
      (NameError otherwise), then the frame is prepared and the method
      dispatched. Every save name starts with the data file's name, the
      method as given, and an underscore. */
  function Select(o: Options, f: Frame, features: seq<string>, lib: Library): (r: Result<Selected>)
    requires Valid(f)
    ensures o.df.None? ==> r == Err(NameError("DF"))
    ensures o.df.Some? && ClassLabel !in f.names ==> r == Err(KeyError(ClassLabel))
    ensures r.Ok? ==> o.df.Some? && o.selector.Some? && MethodOf(o.selector.value) != Unknown
    ensures r.Ok? ==> var stem := Stem(o.df.value, o.selector.value);
                      |stem| <= |r.value.saveName| && r.value.saveName[..|stem|] == stem
    ensures o.df.Some? && Prepare(o, f, features).Err? ==> r == Err(Prepare(o, f, features).error)
    ensures o.df.Some? && Prepare(o, f, features).Ok? && o.selector.None? ==> r == Err(NameError("F"))
    ensures o.df.Some? && Prepare(o, f, features).Ok? && o.selector.Some? ==>
              r == Dispatch(o, Prepare(o, f, features).value, o.selector.value, Stem(o.df.value, o.selector.value), lib)
  {
    if o.df.None? then Err(NameError("DF"))
    else
      var df :- Prepare(o, f, features);
      if o.selector.None? then Err(NameError("F"))
      else Dispatch(o, df, o.selector.value, Stem(o.df.value, o.selector.value), lib)
  }

  /** For the ranking selectors the number after the last underscore of
      the save name reads back as N. */
  lemma SaveNameRecordsN(o: Options, f: Frame, features: seq<string>, lib: Library)
    requires Valid(f) && o.selector.Some?
    requires MethodOf(o.selector.value) == RandomForest || MethodOf(o.selector.value) == ChiSquare
    ensures Select(o, f, features, lib).Ok? ==>
              o.n.Some? && ParseInt(LastSegment(Select(o, f, features, lib).value.saveName, '_')) == Ok(o.n.value)
  {
    var r := Select(o, f, features, lib);
    if r.Ok? {
      var stem := Stem(o.df.value, o.selector.value);
      var df := Prepare(o, f, features);
      assert df.Ok? && r == Dispatch(o, df.value, o.selector.value, stem, lib);
      var digits := IntToString(o.n.value);
      assert r.value.saveName == stem + digits;
      LastSegmentOfSuffix(stem, digits, '_');
      ParseIntToString(o.n.value);
    }
  }

  /** Lower-casing keeps every character that is not an upper-case letter
      where it was, so a name whose lower-case form has no '/' has none. */
  lemma NoSlashWhenLowerHasNone(name: string)
    requires '/' !in Lower(name)
    ensures '/' !in name
  {
    assert forall i :: 0 <= i < |name| && name[i] == '/' ==> Lower(name)[i] == '/';
  }

  /** None of the selector names the script knows contains '/'. */
  lemma KnownMethodsHaveNoSlash(name: string)
    requires MethodOf(name) != Unknown
    ensures '/' !in Lower(name)
  {
    var l := Lower(name);
    var m := MethodOf(name);
    if m == RandomForest {
      assert l == "randomforest" || l == "rf";
    } else if m == ChiSquare {
      assert l == "chi2" || l == "c2";
    } else if m == Lasso {
      assert l == "l1" || l == "lasso";
    } else {
      assert l == "fisher" || l == "fet";
    }
  }

  /** Save names stay in the working directory: none contains '/' so long
      as `str()` of the cutoff has none. */
  lemma SaveNameIsLocal(o: Options, f: Frame, features: seq<string>, lib: Library)
    requires Valid(f)
    requires o.parameter.Some? ==> '/' !in o.parameter.value.repr
    ensures Select(o, f, features, lib).Ok? ==> '/' !in Select(o, f, features, lib).value.saveName
  {
    if Select(o, f, features, lib).Ok? {
      var name := o.selector.value;
      KnownMethodsHaveNoSlash(name);
      NoSlashWhenLowerHasNone(name);
      var stem := Stem(o.df.value, name);
      StemIsLocal(o.df.value, name);
      var df := Prepare(o, f, features).value;
      assert Select(o, f, features, lib) == Dispatch(o, df, name, stem, lib);
      DispatchNameIsLocal(o, df, name, stem, lib);
    }
  }

  lemma StemIsLocal(df: string, name: string)
    requires '/' !in name
    ensures '/' !in Stem(df, name)
  {
    var r := Stem(df, name);
    var k := |r| - |name| - 2;
    assert r == r[..k] + r[k..];
    assert '/' !in "_" + name + "_";
  }

  lemma DispatchNameIsLocal(o: Options, df: Frame, name: string, stem: string, lib: Library)
    requires Valid(df)
    requires '/' !in stem
    requires o.parameter.Some? ==> '/' !in o.parameter.value.repr
    ensures Dispatch(o, df, name, stem, lib).Ok? ==> '/' !in Dispatch(o, df, name, stem, lib).value.saveName
  {
    var r := Dispatch(o, df, name, stem, lib);
    if r.Ok? {
      var out := r.value.saveName;
      var m := MethodOf(name);
      if m == RandomForest || m == ChiSquare {
        assert out == stem + IntToString(o.n.value);
      } else if m == Lasso {
        var t := o.kind.value;
        assert '/' !in t by {
          assert t == "c" || t == "classification" || t == "r" || t == "regression";
        }
        assert out == stem + t + "_" + o.parameter.value.repr;
      } else {
        assert out == stem + o.parameter.value.repr;
      }
    }
  }

  // ---------------------------------------------------------------------
  // Fisher labels after the recoding
  // ---------------------------------------------------------------------

  /** Counting with a relabelled class column gives the same counts when
      the new label marks exactly the rows the old one did. */
  lemma {:induction false} CountPairsRelabel(xs: seq<Value>, ys: seq<Value>, zs: seq<Value>, a: Value, a': Value, b: Value)
    requires |xs| == |ys| == |zs|
    requires forall i :: 0 <= i < |xs| ==> (zs[i] == a' <==> xs[i] == a)
    ensures CountPairs(zs, ys, a', b) == CountPairs(xs, ys, a, b)
    decreases |xs|
  {
    if |xs| > 0 {
      var n := |xs| - 1;
      CountPairsRelabel(xs[..n], ys[..n], zs[..n], a, a', b);
    }
  }

  /** A class column holding only the two labels `pos` and `neg`. */
  predicate TwoLabels(f: Frame, pos: Value, neg: Value)
    requires Valid(f) && ClassLabel in f.names
  {
    forall v :: v in f.columns[Position(f.names, ClassLabel)] ==> v == pos || v == neg
  }

  /** The table FET builds from the recoded frame. */
  function TableAfterRecode(f: Frame, k: string, pos: Value, neg: Value, labels: (Value, Value)): Table
    requires Valid(f) && ClassLabel in f.names && k in f.names
  {
    TableOf(Recode(f, pos, neg).value, ClassLabel, k, labels.0, labels.1)
  }

  /** As written: with labels given on the command line (strings), the
      recoded class column holds only numbers, so no row matches either
      label and every table FET builds is all zeros. Every feature then
      gets the same p-value, and the test keeps all of them or none. */
  lemma FisherAsWrittenCountsNothing(o: Options, f: Frame, k: string)
    requires Valid(f) && ClassLabel in f.names && k in f.names
    requires o.pos.Text? && o.neg.Text? && o.pos != o.neg && TwoLabels(f, o.pos, o.neg)
    ensures TableAfterRecode(f, k, o.pos, o.neg, FisherLabelsAsWritten(o)) == Table(0, 0, 0, 0)
  {
    var g := Recode(f, o.pos, o.neg).value;
    var c := g.columns[Position(g.names, ClassLabel)];
    var orig := f.columns[Position(f.names, ClassLabel)];
    forall i | 0 <= i < |c| ensures c[i].Num? {
      assert orig[i] in orig;
    }
  }

  /** A concrete case: two rows labelled "UUN" and "NNN" on the command
      line, one feature present in the positive row only. The intended
      table is [[1, 0], [0, 1]]; the one FET builds is all zeros. */
  lemma FisherAsWrittenExample()
    ensures var f := Frame(["a", "b"], ["Class", "k1"], [[Text("UUN"), Text("NNN")], [Num(1.0), Num(0.0)]]);
            var o := DefaultsAsWritten().(pos := Text("UUN"), neg := Text("NNN"));
            TableOf(f, ClassLabel, "k1", o.pos, o.neg) == Table(1, 0, 0, 1) &&
            TableAfterRecode(f, "k1", o.pos, o.neg, FisherLabelsAsWritten(o)) == Table(0, 0, 0, 0)
  {
    var f := Frame(["a", "b"], ["Class", "k1"], [[Text("UUN"), Text("NNN")], [Num(1.0), Num(0.0)]]);
    var o := DefaultsAsWritten().(pos := Text("UUN"), neg := Text("NNN"));
    var cls := [Text("UUN"), Text("NNN")];
    var col := [Num(1.0), Num(0.0)];
    assert Position(f.names, ClassLabel) == 0;
    assert Position(f.names, "k1") == 1;
    assert cls[..1] == [Text("UUN")] && col[..1] == [Num(1.0)];
    assert CountPairs(cls, col, Text("UUN"), Num(1.0)) == 1;
    assert CountPairs(cls, col, Text("NNN"), Num(0.0)) == 1;
    FisherAsWrittenCountsNothing(o, f, "k1");
  }

  /** Corrected: handed the codes 1 and 0, FET on the recoded frame counts
      exactly the table the original labels describe on the original
      frame, for every feature other than the class column. */
  lemma FisherAfterRecodeCountsOriginalTable(o: Options, f: Frame, k: string)
    requires Valid(f) && ClassLabel in f.names && k in f.names && k != ClassLabel
    requires o.pos != o.neg && o.neg != Num(1.0) && TwoLabels(f, o.pos, o.neg)
    ensures TableAfterRecode(f, k, o.pos, o.neg, FisherLabels(o)) == TableOf(f, ClassLabel, k, o.pos, o.neg)
  {
    var g := Recode(f, o.pos, o.neg).value;
    var p := Position(f.names, ClassLabel);
    var xs := f.columns[p];
    var zs := g.columns[p];
    var ys := f.columns[Position(f.names, k)];
    assert g.columns[Position(g.names, k)] == ys;
    forall i | 0 <= i < |xs|
      ensures (zs[i] == Num(1.0) <==> xs[i] == o.pos) && (zs[i] == Num(0.0) <==> xs[i] == o.neg)
    {
      RecodeBinary(f, o.pos, o.neg, i);
    }
    CountPairsRelabel(xs, ys, zs, o.pos, Num(1.0), Num(1.0));
    CountPairsRelabel(xs, ys, zs, o.pos, Num(1.0), Num(0.0));
    CountPairsRelabel(xs, ys, zs, o.neg, Num(0.0), Num(1.0));
    CountPairsRelabel(xs, ys, zs, o.neg, Num(0.0), Num(0.0));
  }

  /** Corrected, for the whole test: handed the codes 1 and 0, FET on the
      recoded frame keeps exactly the features FET on the original frame
      keeps with the original labels, in the same order. */
  lemma FisherCorrectedKeepsOriginalFeatures(o: Options, f: Frame, cutoff: real, fisher: Fisher)
    requires Valid(f) && ClassLabel in f.names && Distinct(f.names)
    requires o.pos != o.neg && o.neg != Num(1.0) && TwoLabels(f, o.pos, o.neg)
    ensures var g := Recode(f, o.pos, o.neg).value;
            var labels := FisherLabels(o);
            FET(g, ClassLabel, cutoff, labels.0, labels.1, fisher).Ok? &&
            FET(g, ClassLabel, cutoff, labels.0, labels.1, fisher).value.names == FET(f, ClassLabel, cutoff, o.pos, o.neg, fisher).value.names
  {
    var g := Recode(f, o.pos, o.neg).value;
    var kmers := RemoveFirst(f.names, ClassLabel);
    FisherMasksAgree(o, f, cutoff, fisher);
    EnrichedAmongIsMasked(g, ClassLabel, kmers, cutoff, Num(1.0), Num(0.0), fisher);
    EnrichedAmongIsMasked(f, ClassLabel, kmers, cutoff, o.pos, o.neg, fisher);
  }

  /** Every feature other than the class column passes the corrected test
      on the recoded frame exactly when it passes the original test. */
  lemma FisherMasksAgree(o: Options, f: Frame, cutoff: real, fisher: Fisher)
    requires Valid(f) && ClassLabel in f.names && Distinct(f.names)
    requires o.pos != o.neg && o.neg != Num(1.0) && TwoLabels(f, o.pos, o.neg)
    ensures var g := Recode(f, o.pos, o.neg).value;
            var kmers := RemoveFirst(f.names, ClassLabel);
            Valid(g) && g.names == f.names &&
            EnrichedMask(g, ClassLabel, kmers, cutoff, Num(1.0), Num(0.0), fisher) == EnrichedMask(f, ClassLabel, kmers, cutoff, o.pos, o.neg, fisher)
  {
    var g := Recode(f, o.pos, o.neg).value;
    var kmers := RemoveFirst(f.names, ClassLabel);
    forall k | 0 <= k < |kmers|
      ensures Enriched(g, ClassLabel, kmers[k], cutoff, Num(1.0), Num(0.0), fisher) == Enriched(f, ClassLabel, kmers[k], cutoff, o.pos, o.neg, fisher)
    {
      FisherFeatureAgrees(o, f, cutoff, fisher, k);
    }
  }

  lemma FisherFeatureAgrees(o: Options, f: Frame, cutoff: real, fisher: Fisher, k: nat)
    requires Valid(f) && ClassLabel in f.names && Distinct(f.names)
    requires o.pos != o.neg && o.neg != Num(1.0) && TwoLabels(f, o.pos, o.neg)
    requires k < |f.names| - 1
    ensures var g := Recode(f, o.pos, o.neg).value;
            var x := RemoveFirst(f.names, ClassLabel)[k];
            Valid(g) && x in g.names && x in f.names &&
            Enriched(g, ClassLabel, x, cutoff, Num(1.0), Num(0.0), fisher) == Enriched(f, ClassLabel, x, cutoff, o.pos, o.neg, fisher)
  {
    var g := Recode(f, o.pos, o.neg).value;
    var kmers := RemoveFirst(f.names, ClassLabel);
    var at := Position(f.names, ClassLabel);
    var j := if k < at then k else k + 1;
    var x := kmers[k];
    RemoveFirstAt(f.names, ClassLabel, k);
    assert x == f.names[j] && j != at;
    FisherAfterRecodeCountsOriginalTable(o, f, x);
    assert TableOf(g, ClassLabel, x, Num(1.0), Num(0.0)) == TableOf(f, ClassLabel, x, o.pos, o.neg);
  }

  // ---------------------------------------------------------------------
  // The default cutoff
  // ---------------------------------------------------------------------

  /** As written: `-f fisher` without `-p` reaches FET with PARAMETER never
      assigned and raises NameError. */
  lemma FisherWithoutCutoffAsWritten(args: seq<string>, toFloat: ToFloat, f: Frame, features: seq<string>, lib: Library)
    requires Valid(f) && ClassLabel in f.names && Absent(args, "-p")
    requires ScanOptions(DefaultsAsWritten(), args, toFloat).Ok?
    requires var o := ScanOptions(DefaultsAsWritten(), args, toFloat).value;
             o.df.Some? && o.feat == "all" && o.selector.Some? && MethodOf(o.selector.value) == Fisher
    ensures Select(ScanOptions(DefaultsAsWritten(), args, toFloat).value, f, features, lib) == Err(NameError("PARAMETER"))
  {
    ScanKeepsParameter(DefaultsAsWritten(), args, toFloat);
  }

  /** Corrected: starting from the documented default, `-f fisher` without
      `-p` runs the test at 0.05 and names the output after it. */
  lemma FisherWithoutCutoffUsesDefault(args: seq<string>, toFloat: ToFloat, f: Frame, features: seq<string>, lib: Library)
    requires Valid(f) && ClassLabel in f.names && Absent(args, "-p")
    requires ScanOptions(Defaults(), args, toFloat).Ok?
    requires var o := ScanOptions(Defaults(), args, toFloat).value;
             o.df.Some? && o.feat == "all" && o.selector.Some? && MethodOf(o.selector.value) == Fisher && o.cl in f.names
    ensures var o := ScanOptions(Defaults(), args, toFloat).value;
            Select(o, f, features, lib).Ok? &&
            Select(o, f, features, lib).value.saveName == Stem(o.df.value, o.selector.value) + "0.05"
  {
    ScanKeepsParameter(Defaults(), args, toFloat);
    var o := ScanOptions(Defaults(), args, toFloat).value;
    assert o.parameter == Some(DefaultCutoff);
    var df := Prepare(o, f, features);
    assert df.Ok? && o.cl in df.value.names;
    var stem := Stem(o.df.value, o.selector.value);
    var r := Dispatch(o, df.value, o.selector.value, stem, lib);
    assert FET(df.value, o.cl, o.parameter.value.value, o.pos, o.neg, lib.fisher).Ok?;
    assert r.Ok? && r.value.saveName == stem + "0.05";
    assert Select(o, f, features, lib) == r;
  }
}
