/** The cross-run comparator (compare_classifiers.py).

    It reads the `_scores.txt` files written by several classification
    runs, splits each run's positive instances into those it called
    positive (true positives) and those it missed (false negatives), fills
    a matrix of pairwise true-positive overlaps, and lists the region
    counts a Venn diagram of the runs' true positives needs. */
module Comparator {
  import opened Outcomes
  import opened Collections
  import opened Combos
  import opened Strings

  /** One line of a scores file, split on tabs. Field 0 is the instance
      identifier, field 1 its true class and field 5 the final call. */
  type Row = seq<string>

  predicate Wide(row: Row) {
    |row| > 5
  }

  predicate AllWide(rows: seq<Row>) {
    forall i :: 0 <= i < |rows| ==> Wide(rows[i])
  }

  /** `l.strip().split('\t')`: a line of a scores file as its fields.
      The fields joined by tabs give back the line without its white space
      at either end. */
  function Fields(line: string): (r: Row)
    ensures |r| >= 1 && Join(r, '\t') == Strip(line)
    ensures forall k :: 0 <= k < |r| ==> '\t' !in r[k]
  {
    JoinSplit(Strip(line), '\t');
    Split(Strip(line), '\t')
  }

  /** The rows of a file read line by line. */
  function Rows(lines: seq<string>): (r: seq<Row>)
    ensures |r| == |lines| && forall i :: 0 <= i < |lines| ==> r[i] == Fields(lines[i])
  {
    seq(|lines|, i requires 0 <= i < |lines| => Fields(lines[i]))
  }

  /** Stripping also removes the tab before an empty last field: a line
      whose sixth field (the call) is empty reads as five fields, and
      `line[5]` raises IndexError on it. */
  lemma EmptyCallIsLost()
    ensures Fields("g\tP\ta\tb\tc\t") == ["g", "P", "a", "b", "c"]
    ensures !AllWide(Rows(["g\tP\ta\tb\tc\t"]))
  {
    var parts := ["g", "P", "a", "b", "c"];
    StripTrailingTab();
    JoinFive();
    SplitJoin(parts, '\t');
    assert Rows(["g\tP\ta\tb\tc\t"])[0] == parts;
  }

  lemma StripTrailingTab()
    ensures Strip("g\tP\ta\tb\tc\t") == "g\tP\ta\tb\tc"
  {
    var inner := "g\tP\ta\tb\tc";
    assert inner + ['\t'] == "g\tP\ta\tb\tc\t";
    StripSpaceAfter(inner, '\t');
  }

  lemma JoinFive()
    ensures Join(["g", "P", "a", "b", "c"], '\t') == "g\tP\ta\tb\tc"
  {
    var parts := ["g", "P", "a", "b", "c"];
    assert Join(parts[4..], '\t') == "c";
    assert Join(parts[3..], '\t') == "b\tc";
    assert Join(parts[2..], '\t') == "a\tb\tc";
    assert Join(parts[1..], '\t') == "P\ta\tb\tc";
  }

  /** Which identifiers of a file to collect. */
  datatype Kind = TruePositive | FalseNegative | AnyPositive

  predicate Selects(kind: Kind, row: Row, pos: string)
    requires Wide(row)
  {
    match kind
    case TruePositive => row[1] == pos && row[5] == pos
    case FalseNegative => row[1] == pos && row[5] != pos
    case AnyPositive => row[1] == pos
  }

  /** The identifiers of the rows of `kind`, in file order. */
  function IdsOf(rows: seq<Row>, pos: string, kind: Kind): seq<string>
    requires AllWide(rows)
    decreases |rows|
  {
    if |rows| == 0 then []
    else
      var last := rows[|rows| - 1];
      IdsOf(rows[..|rows| - 1], pos, kind) + (if Selects(kind, last, pos) then [last[0]] else [])
  }

  /** What one scores file contributes: its true-positive and
      false-negative identifiers and its number of positive rows. */
  datatype RunSplit = RunSplit(tp: seq<string>, fn: seq<string>, positives: nat)

  /** The loop over the lines of one scores file. A line with fewer than
      six fields raises IndexError. */
  method ScanFile(rows: seq<Row>, pos: string) returns (r: Result<RunSplit>)
    ensures r.Ok? <==> AllWide(rows)
    ensures r.Ok? ==> r.value.tp == IdsOf(rows, pos, TruePositive)
    ensures r.Ok? ==> r.value.fn == IdsOf(rows, pos, FalseNegative)
    ensures r.Ok? ==> r.value.positives == |IdsOf(rows, pos, AnyPositive)|
  {
    var tp: seq<string> := [];
    var fn: seq<string> := [];
    var positives: nat := 0;
    var i := 0;
    while i < |rows|
      invariant 0 <= i <= |rows|
      invariant AllWide(rows[..i])
      invariant tp == IdsOf(rows[..i], pos, TruePositive)
      invariant fn == IdsOf(rows[..i], pos, FalseNegative)
      invariant positives == |IdsOf(rows[..i], pos, AnyPositive)|
    {
      var line := rows[i];
      if |line| <= 5 {
        return Err(IndexError("line[5]"));
      }
      assert rows[..i + 1][..i] == rows[..i];
      if line[1] == pos {
        positives := positives + 1;
        if line[5] == pos {
          tp := tp + [line[0]];
        } else {
          fn := fn + [line[0]];
        }
      }
      i := i + 1;
    }
    assert rows[..i] == rows;
    return Ok(RunSplit(tp, fn, positives));
  }

  /** Every positive row of a file lands in exactly one of the two lists:
      together they hold the file's positive identifiers, no more, no
      fewer. */
  lemma {:induction false} SplitIsPartition(rows: seq<Row>, pos: string)
    requires AllWide(rows)
    ensures multiset(IdsOf(rows, pos, TruePositive)) + multiset(IdsOf(rows, pos, FalseNegative))
         == multiset(IdsOf(rows, pos, AnyPositive))
    ensures |IdsOf(rows, pos, TruePositive)| + |IdsOf(rows, pos, FalseNegative)|
         == |IdsOf(rows, pos, AnyPositive)|
    decreases |rows|
  {
    if |rows| > 0 {
      SplitIsPartition(rows[..|rows| - 1], pos);
    }
  }

  /** An identifier is collected as a true positive exactly when some row
      carries it with both its true class and its call equal to `pos`. */
  lemma {:induction false} TruePositiveMembership(rows: seq<Row>, pos: string, id: string)
    requires AllWide(rows)
    ensures id in IdsOf(rows, pos, TruePositive) <==>
      exists i :: 0 <= i < |rows| && rows[i][0] == id && rows[i][1] == pos && rows[i][5] == pos
    decreases |rows|
  {
    if |rows| > 0 {
      var init := rows[..|rows| - 1];
      TruePositiveMembership(init, pos, id);
      if exists i :: 0 <= i < |rows| && rows[i][0] == id && rows[i][1] == pos && rows[i][5] == pos {
        var i :| 0 <= i < |rows| && rows[i][0] == id && rows[i][1] == pos && rows[i][5] == pos;
        if i < |rows| - 1 {
          assert init[i] == rows[i];
        }
      }
      if id in IdsOf(init, pos, TruePositive) {
        var i :| 0 <= i < |init| && init[i][0] == id && init[i][1] == pos && init[i][5] == pos;
        assert rows[i] == init[i];
      }
    }
  }

  // ---------------------------------------------------------------------
  // All files
  // ---------------------------------------------------------------------

  /** `tp` and `fn` are defaultdicts of lists keyed by run name; `tpTotal`
      counts the positive rows of the first file. */
  datatype Tally = Tally(tp: map<string, seq<string>>, fn: map<string, seq<string>>, tpTotal: nat)

  /** `d[k]` on a defaultdict(list). */
  function Get(m: map<string, seq<string>>, k: string): seq<string> {
    if k in m then m[k] else []
  }

  predicate AllFilesWide(files: seq<seq<Row>>) {
    forall c :: 0 <= c < |files| ==> AllWide(files[c])
  }

  /** What the list of run `name` holds after the given files: the
      identifiers of `kind` of every file labelled `name`, file by file. */
  function Collected(files: seq<seq<Row>>, ids: seq<string>, pos: string, kind: Kind, name: string): seq<string>
    requires |files| <= |ids| && AllFilesWide(files)
    decreases |files|
  {
    if |files| == 0 then []
    else
      var c := |files| - 1;
      Collected(files[..c], ids, pos, kind, name) + (if ids[c] == name then IdsOf(files[c], pos, kind) else [])
  }

  /** The loop over the scores files. File `c` is labelled `ids[c]`; a file
      without a label raises IndexError. */
  method TallyRuns(files: seq<seq<Row>>, ids: seq<string>, pos: string) returns (r: Result<Tally>)
    ensures r.Ok? <==> |files| <= |ids| && AllFilesWide(files)
    ensures r.Ok? ==> forall name ::
      Get(r.value.tp, name) == Collected(files, ids, pos, TruePositive, name) &&
      Get(r.value.fn, name) == Collected(files, ids, pos, FalseNegative, name)
    ensures r.Ok? ==> r.value.tpTotal == if |files| == 0 then 0 else |IdsOf(files[0], pos, AnyPositive)|
  {
    var tp: map<string, seq<string>> := map[];
    var fn: map<string, seq<string>> := map[];
    var tpTotal: nat := 0;
    var count := 0;
    while count < |files|
      invariant 0 <= count <= |files|
      invariant count <= |ids| && AllFilesWide(files[..count])
      invariant forall name ::
        Get(tp, name) == Collected(files[..count], ids, pos, TruePositive, name) &&
        Get(fn, name) == Collected(files[..count], ids, pos, FalseNegative, name)
      invariant tpTotal == if count == 0 then 0 else |IdsOf(files[0], pos, AnyPositive)|
    {
      if count >= |ids| {
        return Err(IndexError("ids[count]"));
      }
      var name := ids[count];
      var split := ScanFile(files[count], pos);
      if split.Err? {
        return Err(split.error);
      }
      assert AllFilesWide(files[..count + 1]) by {
        assert files[..count + 1] == files[..count] + [files[count]];
      }
      if count == 0 {
        tpTotal := split.value.positives;
      }
      var tp', fn' := tp[name := Get(tp, name) + split.value.tp], fn[name := Get(fn, name) + split.value.fn];
      TallyStep(files, ids, pos, count, tp, tp', TruePositive);
      TallyStep(files, ids, pos, count, fn, fn', FalseNegative);
      tp, fn := tp', fn';
      count := count + 1;
    }
    assert files[..count] == files;
    return Ok(Tally(tp, fn, tpTotal));
  }

  /** Appending file `count`'s identifiers to its run's list keeps every
      list equal to what the files so far collect. */
  lemma TallyStep(files: seq<seq<Row>>, ids: seq<string>, pos: string, count: nat,
                  m: map<string, seq<string>>, m': map<string, seq<string>>, kind: Kind)
    requires count < |files| && count < |ids| && AllFilesWide(files[..count + 1])
    requires AllFilesWide(files[..count])
    requires forall name :: Get(m, name) == Collected(files[..count], ids, pos, kind, name)
    requires m' == m[ids[count] := Get(m, ids[count]) + IdsOf(files[count], pos, kind)]
    ensures forall name :: Get(m', name) == Collected(files[..count + 1], ids, pos, kind, name)
  {
    forall name ensures Get(m', name) == Collected(files[..count + 1], ids, pos, kind, name) {
      CollectedStep(files, ids, pos, kind, name, count);
      if name == ids[count] {
        assert m'[name] == Get(m, name) + IdsOf(files[count], pos, kind);
      } else {
        assert name in m' <==> name in m;
        assert name in m ==> m'[name] == m[name];
      }
    }
  }

  /** One more file extends its run's list by its identifiers and leaves
      every other run's list alone. */
  lemma CollectedStep(files: seq<seq<Row>>, ids: seq<string>, pos: string, kind: Kind, name: string, count: nat)
    requires count < |files| && count < |ids| && AllFilesWide(files[..count + 1])
    ensures AllFilesWide(files[..count])
    ensures Collected(files[..count + 1], ids, pos, kind, name)
         == Collected(files[..count], ids, pos, kind, name) + (if ids[count] == name then IdsOf(files[count], pos, kind) else [])
  {
    assert files[..count + 1][..count] == files[..count];
  }

  /** With distinct run labels, each run's list is exactly its own file's. */
  lemma {:induction false} CollectedOwnFile(files: seq<seq<Row>>, ids: seq<string>, pos: string, kind: Kind, c: nat)
    requires |files| <= |ids| && AllFilesWide(files)
    requires forall x, y :: 0 <= x < y < |ids| ==> ids[x] != ids[y]
    requires c < |files|
    ensures Collected(files, ids, pos, kind, ids[c]) == IdsOf(files[c], pos, kind)
    decreases |files|
  {
    var last := |files| - 1;
    var init := files[..last];
    assert AllFilesWide(init);
    if c < last {
      CollectedOwnFile(init, ids, pos, kind, c);
      assert init[c] == files[c];
    } else {
      CollectedAbsent(init, ids, pos, kind, ids[c]);
    }
  }

  /** A label used by no file so far has an empty list. */
  lemma {:induction false} CollectedAbsent(files: seq<seq<Row>>, ids: seq<string>, pos: string, kind: Kind, name: string)
    requires |files| <= |ids| && AllFilesWide(files)
    requires forall c :: 0 <= c < |files| ==> ids[c] != name
    ensures Collected(files, ids, pos, kind, name) == []
    decreases |files|
  {
    if |files| > 0 {
      var init := files[..|files| - 1];
      assert AllFilesWide(init);
      CollectedAbsent(init, ids, pos, kind, name);
    }
  }

  // ---------------------------------------------------------------------
  // Overlap matrix
  // ---------------------------------------------------------------------

  /** `len(tp[A])` on the diagonal, `len(set(tp[A]).intersection(tp[B]))`
      elsewhere. */
  function Overlap(tp: map<string, seq<string>>, a: string, b: string): nat {
    if a == b then |Get(tp, a)| else |Elements(Get(tp, a)) * Elements(Get(tp, b))|
  }

  /** An overlap is the same read either way round and never exceeds
      either run's true-positive count. */
  lemma OverlapBounds(tp: map<string, seq<string>>, a: string, b: string)
    ensures Overlap(tp, a, b) == Overlap(tp, b, a)
    ensures Overlap(tp, a, b) <= |Get(tp, a)| && Overlap(tp, a, b) <= |Get(tp, b)|
  {
    var ea, eb := Elements(Get(tp, a)), Elements(Get(tp, b));
    assert ea * eb == eb * ea;
    ElementsSize(Get(tp, a));
    ElementsSize(Get(tp, b));
    SubsetSize(ea * eb, ea);
    SubsetSize(ea * eb, eb);
  }

  /** A square matrix of counts, `m[row][column]`, rows and columns both
      labelled by the run labels in order. */
  predicate Square(m: seq<seq<nat>>, n: nat) {
    |m| == n && forall r :: 0 <= r < n ==> |m[r]| == n
  }

  /** One pass of the inner loop: column `ids[i]` gets its overlap with
      each label still in `ids2`, which by then has lost the labels before
      `ids[i]`. */
  method FillColumn(ids: seq<string>, tp: map<string, seq<string>>, m: seq<seq<nat>>, i: nat, ids2: seq<string>)
    returns (m': seq<seq<nat>>)
    requires Distinct(ids) && Square(m, |ids|) && i < |ids| && ids2 == ids[i..]
    ensures Square(m', |ids|)
    ensures forall q :: i <= q < |ids| ==> m'[q][i] == Overlap(tp, ids[i], ids[q])
    ensures forall p, q :: 0 <= p < |ids| && 0 <= q < |ids| && (p != i || q < i) ==> m'[q][p] == m[q][p]
  {
    var n := |ids|;
    var a := ids[i];
    m' := m;
    var k := 0;
    while k < |ids2|
      invariant 0 <= k <= |ids2|
      invariant Square(m', n)
      invariant forall q :: i <= q < i + k ==> m'[q][i] == Overlap(tp, a, ids[q])
      invariant forall p, q :: 0 <= p < n && 0 <= q < n && (p != i || q < i || i + k <= q) ==> m'[q][p] == m[q][p]
    {
      var b := ids2[k];
      var row := i + k;
      assert b == ids[row];
      var v: nat;
      if a == b {
        v := |Get(tp, a)|;
      } else {
        v := |Elements(Get(tp, a)) * Elements(Get(tp, b))|;
      }
      var updated: seq<nat> := m'[row][i := v];
      m' := m'[row := updated];
      k := k + 1;
    }
  }

  /** The nested loop that fills `df`. The source writes `df[A][B]`, the
      cell in row B and column A. Because `ids2` loses A after each column,
      only the cells whose row comes at or after their column are written;
      the others keep their initial 0. With distinct labels, the label
      `ids[q]` is row and column `q`. */
  method OverlapMatrix(ids: seq<string>, tp: map<string, seq<string>>) returns (m: seq<seq<nat>>)
    requires Distinct(ids)
    ensures Square(m, |ids|)
    ensures forall i, j :: 0 <= i <= j < |ids| ==> m[j][i] == Overlap(tp, ids[i], ids[j])
    ensures forall i, j :: 0 <= j < i < |ids| ==> m[j][i] == 0
  {
    var n := |ids|;
    var zeros: seq<nat> := seq(n, c => 0);
    m := seq(n, r => zeros);
    var ids2 := ids;
    var i := 0;
    while i < n
      invariant 0 <= i <= n
      invariant ids2 == ids[i..]
      invariant Square(m, n)
      invariant forall p, q :: 0 <= p < i && p <= q < n ==> m[q][p] == Overlap(tp, ids[p], ids[q])
      invariant forall p, q :: 0 <= p < n && 0 <= q < n && (i <= p || q < p) ==> m[q][p] == 0
    {
      m := FillColumn(ids, tp, m, i, ids2);
      ids2 := RemoveFirst(ids2, ids[i]);
      i := i + 1;
    }
  }

  // ---------------------------------------------------------------------
  // Venn diagram counts
  // ---------------------------------------------------------------------

  /** `intersection(*listas)`: the identifiers present in every list. */
  function Intersection(lists: seq<seq<string>>): (r: set<string>)
    requires |lists| >= 1
    ensures forall x :: x in r <==> forall k :: 0 <= k < |lists| ==> x in lists[k]
    decreases |lists|
  {
    if |lists| == 1 then Elements(lists[0])
    else Intersection(lists[..|lists| - 1]) * Elements(lists[|lists| - 1])
  }

  /** No intersection is larger than any of its arguments. */
  lemma IntersectionBound(lists: seq<seq<string>>, k: nat)
    requires |lists| >= 1 && k < |lists|
    ensures |Intersection(lists)| <= |Elements(lists[k])| <= |lists[k]|
  {
    SubsetSize(Intersection(lists), Elements(lists[k]));
    ElementsSize(lists[k]);
  }

  predicate Indexes(c: seq<nat>, n: nat) {
    forall i :: 0 <= i < |c| ==> c[i] < n
  }

  function Pick(tps: seq<seq<string>>, c: seq<nat>): (r: seq<seq<string>>)
    requires Indexes(c, |tps|)
    ensures |r| == |c| && forall i :: 0 <= i < |c| ==> r[i] == tps[c[i]]
  {
    seq(|c|, i requires 0 <= i < |c| => tps[c[i]])
  }

  /** One entry of the Venn list: `len(tp[...])` for a single run (`area`),
      the size of the intersection for two or more (`n12`, `n123`, ...). */
  function RegionCount(tps: seq<seq<string>>, c: seq<nat>): nat
    requires Subset(c, |tps|)
  {
    if |c| == 1 then |tps[c[0]]| else |Intersection(Pick(tps, c))|
  }

  /** The region counts for a list of run subsets, in its order. */
  function Regions(tps: seq<seq<string>>, t: seq<seq<nat>>): (r: seq<nat>)
    requires forall i :: 0 <= i < |t| ==> Subset(t[i], |tps|)
    ensures |r| == |t| && forall i :: 0 <= i < |t| ==> r[i] == RegionCount(tps, t[i])
  {
    seq(|t|, i requires 0 <= i < |t| => RegionCount(tps, t[i]))
  }

  /** `venn_diag_list` for the runs' true-positive lists, written for 2 to
      5 runs only; any other count leaves the name unassigned. */
  function VennList(tps: seq<seq<string>>): (r: Result<seq<nat>>)
    ensures r.Ok? <==> 2 <= |tps| <= 5
    ensures r.Err? ==> r.error == NameError("venn_diag_list")
    ensures r.Ok? ==> |r.value| == Pow2(|tps|) - 1 == |VennOrder(|tps|)|
    ensures r.Ok? ==> forall i :: 0 <= i < |r.value| ==>
      Subset(VennOrder(|tps|)[i], |tps|) && r.value[i] == RegionCount(tps, VennOrder(|tps|)[i])
  {
    var n := |tps|;
    if 2 <= n <= 5 then
      var t := SourceTable(n);
      VennOrderSubsets(n);
      Ok(Regions(tps, t))
    else
      Err(NameError("venn_diag_list"))
  }

  /** A region shared by more runs is never larger: every k-way count is
      at most the count of any subset of its runs, singletons included. */
  lemma RegionCountMonotone(tps: seq<seq<string>>, c: seq<nat>, d: seq<nat>)
    requires Subset(c, |tps|) && Subset(d, |tps|)
    requires forall x :: x in c ==> x in d
    ensures RegionCount(tps, d) <= RegionCount(tps, c)
  {
    var pd := Pick(tps, d);
    if |c| == 1 {
      assert c[0] in d;
      var k :| 0 <= k < |d| && d[k] == c[0];
      if |d| == 1 {
        assert d == c;
      } else {
        IntersectionBound(pd, k);
      }
    } else {
      assert c[0] in d && c[1] in d && c[0] != c[1];
      var pc := Pick(tps, c);
      assert |d| >= 2;
      assert Intersection(pd) <= Intersection(pc) by {
        forall x | x in Intersection(pd) ensures x in Intersection(pc) {
          forall k | 0 <= k < |pc| ensures x in pc[k] {
            assert c[k] in c;
            var j :| 0 <= j < |d| && d[j] == c[k];
            assert pd[j] == pc[k];
          }
        }
      }
      SubsetSize(Intersection(pd), Intersection(pc));
    }
  }

  /** In particular, within one Venn list an entry never exceeds an entry
      for a subset of its runs: n12 <= area1, n123 <= n12, and so on. */
  lemma VennListMonotone(tps: seq<seq<string>>, i: nat, j: nat)
    requires VennList(tps).Ok? && i < |VennList(tps).value| && j < |VennList(tps).value|
    requires forall x :: x in VennOrder(|tps|)[i] ==> x in VennOrder(|tps|)[j]
    ensures VennList(tps).value[j] <= VennList(tps).value[i]
  {
    RegionCountMonotone(tps, VennOrder(|tps|)[i], VennOrder(|tps|)[j]);
  }

  /** The true-positive lists of the first `n` runs, in label order. */
  function RunLists(tp: map<string, seq<string>>, ids: seq<string>, n: nat): (r: seq<seq<string>>)
    requires n <= |ids|
    ensures |r| == n && forall k :: 0 <= k < n ==> r[k] == Get(tp, ids[k])
  {
    seq(n, k requires 0 <= k < n => Get(tp, ids[k]))
  }

  /** The matrix and the Venn list agree: a run's diagonal cell is its
      single-run count and the cell of two runs is their pairwise count. */
  lemma MatrixAgreesWithVenn(tp: map<string, seq<string>>, ids: seq<string>, n: nat, i: nat, j: nat)
    requires n <= |ids| && Distinct(ids) && i < j < n
    ensures Overlap(tp, ids[i], ids[i]) == RegionCount(RunLists(tp, ids, n), [i])
    ensures Overlap(tp, ids[i], ids[j]) == RegionCount(RunLists(tp, ids, n), [i, j])
  {
    var tps := RunLists(tp, ids, n);
    var p := Pick(tps, [i, j]);
    assert Intersection(p) == Intersection(p[..1]) * Elements(p[1]);
    assert p[..1] == [tps[i]];
  }

  /** Everything the comparator computes from its inputs. */
  datatype Comparison = Comparison(tally: Tally, matrix: seq<seq<nat>>, venn: seq<nat>)

  /** The whole script: tally the files, fill the matrix, list the Venn
      counts. With a run count outside 2..5 the final print of
      `venn_diag_list` raises NameError. */
  method Compare(files: seq<seq<Row>>, ids: seq<string>, pos: string) returns (r: Result<Comparison>)
    requires Distinct(ids)
    ensures r.Ok? <==> |files| <= |ids| && AllFilesWide(files) && 2 <= |files| <= 5
    ensures r.Ok? ==> r.value.tally.tpTotal == |IdsOf(files[0], pos, AnyPositive)|
    ensures r.Ok? ==> Square(r.value.matrix, |ids|) && |files| <= |r.value.venn| == Pow2(|files|) - 1
    ensures r.Ok? ==> forall c :: 0 <= c < |files| ==>
      r.value.matrix[c][c] == |IdsOf(files[c], pos, TruePositive)| == r.value.venn[c]
    ensures r.Ok? ==> forall name ::
      Get(r.value.tally.tp, name) == Collected(files, ids, pos, TruePositive, name) &&
      Get(r.value.tally.fn, name) == Collected(files, ids, pos, FalseNegative, name)
    ensures r.Ok? ==> forall i, j :: 0 <= i <= j < |ids| ==> r.value.matrix[j][i] == Overlap(r.value.tally.tp, ids[i], ids[j])
    ensures r.Ok? ==> forall i, j :: 0 <= j < i < |ids| ==> r.value.matrix[j][i] == 0
    ensures r.Ok? ==> VennList(RunLists(r.value.tally.tp, ids, |files|)) == Ok(r.value.venn)
  {
    var tally := TallyRuns(files, ids, pos);
    if tally.Err? {
      return Err(tally.error);
    }
    var matrix := OverlapMatrix(ids, tally.value.tp);
    var tps := RunLists(tally.value.tp, ids, |files|);
    var venn := VennList(tps);
    if venn.Err? {
      return Err(venn.error);
    }
    VennListStartsWithAreas(tps, venn.value);
    DiagonalsAgree(files, ids, pos, tally.value.tp, matrix, venn.value);
    r := Ok(Comparison(tally.value, matrix, venn.value));
    assert r.value.tally == tally.value && r.value.matrix == matrix && r.value.venn == venn.value;
  }

  /** A Venn list starts with the runs' own areas: entry c is the length of
      run c's list. */
  lemma VennListStartsWithAreas(tps: seq<seq<string>>, venn: seq<nat>)
    requires VennList(tps) == Ok(venn)
    ensures |tps| <= |venn|
    ensures forall c :: 0 <= c < |tps| ==> venn[c] == |tps[c]|
  {
    VennOrderSingletons(|tps|, |tps| - 1);
    forall c | 0 <= c < |tps| ensures venn[c] == |tps[c]| {
      VennOrderSingletons(|tps|, c);
      assert venn[c] == RegionCount(tps, [c]);
    }
  }

  /** Every run's diagonal cell equals its true-positive count and the
      run's own area at the head of the Venn list. */
  lemma DiagonalsAgree(files: seq<seq<Row>>, ids: seq<string>, pos: string, tp: map<string, seq<string>>,
                       matrix: seq<seq<nat>>, venn: seq<nat>)
    requires |files| <= |ids| && AllFilesWide(files) && Distinct(ids)
    requires forall name :: Get(tp, name) == Collected(files, ids, pos, TruePositive, name)
    requires Square(matrix, |ids|)
    requires forall i, j :: 0 <= i <= j < |ids| ==> matrix[j][i] == Overlap(tp, ids[i], ids[j])
    requires |files| <= |venn| && forall c :: 0 <= c < |files| ==> venn[c] == |Get(tp, ids[c])|
    ensures forall c :: 0 <= c < |files| ==> matrix[c][c] == |IdsOf(files[c], pos, TruePositive)| == venn[c]
  {
    forall c | 0 <= c < |files|
      ensures matrix[c][c] == |IdsOf(files[c], pos, TruePositive)| == venn[c]
    {
      CollectedOwnFile(files, ids, pos, TruePositive, c);
      assert Get(tp, ids[c]) == Collected(files, ids, pos, TruePositive, ids[c]);
    }
  }
}
