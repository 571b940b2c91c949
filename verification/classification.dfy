/** The main block of the classification script, around the learning:
    reading the command line, choosing the training rows and the rows the
    models are applied to, settling the positive and negative classes and
    the grid-search score, the balanced-sample size and the save name,
    splitting each round into the sampled and the held-out rows, the final
    call on each instance, and the summary line appended to RESULTS.txt.
    The learning and scoring themselves are inputs. */
module Classification {
  import opened Outcomes
  import opened Collections
  import opened Strings
  import opened Frames
  import opened CommandLine

  // ---------------------------------------------------------------------
  // Settings
  // ---------------------------------------------------------------------

  /** `-cl_train`: every class (the default), or the listed ones. */
  datatype ClTrain = AllClasses | Listed(labels: seq<string>)

  /** `-apply`: left at 'none', the string 'all' in any case, or a list
      kept in the case it was given. */
  datatype Apply = ApplyNone | ApplyAll | ApplyList(labels: seq<string>)

  datatype Settings = Settings(
    df: Option<string>, save: string, feat: string, gs: string, gsScore: string,
    clTrain: ClTrain, apply: Apply, classCol: string, n: int, minSize: Option<int>,
    alg: Option<string>, cvNum: int, nJobs: int, cm: string, plots: string, pos: Value, tag: string)

  /** The defaults the script starts from. */
  function Defaults(): (r: Settings)
    ensures r.n == 100 && r.cvNum == 10 && r.nJobs == 1 && r.pos == Num(1.0)
    ensures r.clTrain == AllClasses && r.apply == ApplyNone && r.save == "" && r.tag == ""
  {
    Settings(None, "", "all", "F", "roc_auc", AllClasses, ApplyNone, "Class", 100, None,
             None, 10, 1, "False", "False", Num(1.0), "")
  }

  predicate Recognised(flag: string) {
    flag in {"-df", "-save", "-feat", "-gs", "-gs_score", "-cl_train", "-apply", "-class", "-n", "-b",
             "-min_size", "-alg", "-cv", "-n_jobs", "-cm", "-plots", "-pos", "-tag", "-p"}
  }

  /** `int(v)` stored through `store`, ValueError when `v` is no integer. */
  function WithInt(v: string, store: int -> Settings): (r: Result<Settings>)
    ensures r.Ok? <==> ParseInt(v).Ok?
    ensures r.Ok? ==> r.value == store(ParseInt(v).value)
  {
    var i :- ParseInt(v);
    Ok(store(i))
  }

  /** One branch of the `elif` chain. `-cl_train` sets the positive class
      to the first listed one; `-b` is another name for `-n` and `-p`
      another for `-n_jobs`. */
  function Assign(s: Settings, flag: string, v: string): (r: Result<Settings>)
    ensures !Recognised(flag) ==> r == Ok(s)
    ensures r.Err? ==> r.error.ValueError?
    ensures r.Ok? && flag == "-cl_train" ==> r.value.clTrain == Listed(Split(v, ',')) && r.value.pos == Text(Split(v, ',')[0])
    ensures r.Ok? && flag != "-cl_train" && flag != "-pos" ==> r.value.pos == s.pos
    ensures r.Ok? && flag == "-apply" ==> (r.value.apply == ApplyAll <==> Lower(v) == "all")
  {
    if flag == "-df" then Ok(s.(df := Some(v)))
    else if flag == "-save" then Ok(s.(save := v))
    else if flag == "-feat" then Ok(s.(feat := v))
    else if flag == "-gs" then Ok(s.(gs := v))
    else if flag == "-gs_score" then Ok(s.(gsScore := v))
    else if flag == "-cl_train" then
      var labels := Split(v, ',');
      Ok(s.(clTrain := Listed(labels), pos := Text(labels[0])))
    else if flag == "-apply" then
      Ok(s.(apply := if Lower(v) == "all" then ApplyAll else ApplyList(Split(v, ','))))
    else if flag == "-class" then Ok(s.(classCol := v))
    else if flag == "-n" || flag == "-b" then WithInt(v, i => s.(n := i))
    else if flag == "-min_size" then WithInt(v, i => s.(minSize := Some(i)))
    else if flag == "-alg" then Ok(s.(alg := Some(v)))
    else if flag == "-cv" then WithInt(v, i => s.(cvNum := i))
    else if flag == "-n_jobs" || flag == "-p" then WithInt(v, i => s.(nJobs := i))
    else if flag == "-cm" then Ok(s.(cm := v))
    else if flag == "-plots" then Ok(s.(plots := v))
    else if flag == "-pos" then Ok(s.(pos := Text(v)))
    else if flag == "-tag" then Ok(s.(tag := v))
    else Ok(s)
  }

  /** `-b` does what `-n` does and `-p` what `-n_jobs` does. */
  lemma Aliases(s: Settings, v: string)
    ensures Assign(s, "-b", v) == Assign(s, "-n", v)
    ensures Assign(s, "-p", v) == Assign(s, "-n_jobs", v)
  {
  }

  function Step(): (Settings, string, string) -> Result<Settings> {
    (s, flag, v) => Assign(s, flag, v)
  }

  function Known(): string -> bool {
    flag => Recognised(flag)
  }

  /** The argument loop, then the usage exit: with no arguments at all the
      script prints its documentation and stops (None). */
  function Configure(args: seq<string>): (r: Result<Option<Settings>>)
    ensures |args| == 0 ==> r == Ok(None)
    ensures |args| > 0 ==> match Scan(Defaults(), args, Step(), Known())
                           case Ok(s) => r == Ok(Some(s))
                           case Err(e) => r == Err(e) && (e.IndexError? || e.ValueError?)
    ensures |args| % 2 == 1 && Recognised(args[|args| - 1]) ==> r.Err?
  {
    ScanFaults(Defaults(), args, Step(), Known(), (e: Fault) => e.IndexError? || e.ValueError?);
    var s :- Scan(Defaults(), args, Step(), Known());
    if |args| == 0 then Ok(None) else Ok(Some(s))
  }

  /** What a flag that sets the positive class stores: `-pos` its value
      whole, `-cl_train` the first label of its list. */
  function PosFrom(flag: string, v: string): Value {
    if flag == "-cl_train" then Text(Split(v, ',')[0]) else Text(v)
  }

  /** The positive class is set by whichever of `-pos` and `-cl_train`
      comes last; with neither, it stays 1. */
  lemma PositiveFromLastFlag(args: seq<string>)
    ensures var r := Scan(Defaults(), args, Step(), Known());
            var last := LastFlag(args, flag => flag == "-pos" || flag == "-cl_train");
            r.Ok? ==> r.value.pos == if last.Some? then PosFrom(args[last.value], args[last.value + 1]) else Num(1.0)
  {
    ScanLastWins(Defaults(), args, Step(), Known(), flag => flag == "-pos" || flag == "-cl_train",
                 (s: Settings) => s.pos, (f, v) => PosFrom(f, v));
  }

  // ---------------------------------------------------------------------
  // Instances and row selection
  // ---------------------------------------------------------------------

  /** One row of the data: its ID (the index), its class, and its
      feature values. */
  datatype Instance = Instance(id: string, cls: Value, cells: seq<Value>)

  /** The row tests the script filters with: `df['Class'].isin(labels)`,
      which compares the class with the given strings (a numeric class
      matches none of them), `df.index.isin(ids)`, and having no "?" cell. */
  datatype Test = ClassIn(labels: seq<string>) | IdIn(ids: seq<string>) | Complete

  predicate Passes(t: Test, x: Instance) {
    match t
    case ClassIn(labels) => x.cls.Text? && x.cls.s in labels
    case IdIn(ids) => x.id in ids
    case Complete => x.cls != Text("?") && Text("?") !in x.cells
  }

  /** `df[mask]` where the mask is the test, or its negation when `want` is
      false: the rows that give `want`, in their order. */
  function Filter(rows: seq<Instance>, t: Test, want: bool): (r: seq<Instance>)
    ensures |r| <= |rows|
    ensures forall x :: x in r ==> x in rows && Passes(t, x) == want
    ensures forall x :: x in rows && Passes(t, x) == want ==> x in r
    decreases |rows|
  {
    if |rows| == 0 then []
    else
      var init := Filter(rows[..|rows| - 1], t, want);
      var last := rows[|rows| - 1];
      assert forall x :: x in rows ==> x in rows[..|rows| - 1] || x == last;
      if Passes(t, last) == want then init + [last] else init
  }

  /** A test and its negation split the rows between them: each row lands
      in exactly one of the two, as often as it occurs. */
  lemma {:induction false} FilterSplits(rows: seq<Instance>, t: Test)
    ensures multiset(Filter(rows, t, true)) + multiset(Filter(rows, t, false)) == multiset(rows)
    decreases |rows|
  {
    if |rows| > 0 {
      var init := rows[..|rows| - 1];
      FilterSplits(init, t);
      assert rows == init + [rows[|rows| - 1]];
    }
  }

  /** Filtering rows that all pass changes nothing. */
  lemma {:induction false} FilterAllPass(rows: seq<Instance>, t: Test, want: bool)
    requires forall x :: x in rows ==> Passes(t, x) == want
    ensures Filter(rows, t, want) == rows
    decreases |rows|
  {
    if |rows| > 0 {
      var init := rows[..|rows| - 1];
      FilterAllPass(init, t, want);
      assert rows == init + [rows[|rows| - 1]];
    }
  }

  /** `df.replace("?", np.nan).dropna(axis=0)`: rows with a "?" anywhere go. */
  function Clean(rows: seq<Instance>): (r: seq<Instance>)
    ensures forall x :: x in r <==> x in rows && x.cls != Text("?") && Text("?") !in x.cells
  {
    Filter(rows, Complete, true)
  }

  /** The rows the models are trained on: with a `-cl_train` list, the
      rows of the listed classes. */
  function Training(cl: ClTrain, rows: seq<Instance>): (r: seq<Instance>)
    ensures cl.AllClasses? ==> r == rows
    ensures cl.Listed? ==> forall x :: x in r <==> x in rows && x.cls.Text? && x.cls.s in cl.labels
  {
    match cl
    case AllClasses => rows
    case Listed(labels) => Filter(rows, ClassIn(labels), true)
  }

  /** The rows the final models are applied to, as written: only with a
      `-cl_train` list and a `-apply` value. For 'all' they are the rows of
      the classes not trained on; for a list, the test `apply.lower()`
      calls a string method on a list and raises AttributeError. None
      stands for "no unknowns". */
  function UnknownsAsWritten(cl: ClTrain, ap: Apply, rows: seq<Instance>): (r: Result<Option<seq<Instance>>>)
    ensures r.Err? <==> cl.Listed? && ap.ApplyList?
    ensures r.Err? ==> r.error.AttributeError?
  {
    if cl.Listed? && !ap.ApplyNone? then
      if ap.ApplyAll? then Ok(Some(Filter(rows, ClassIn(cl.labels), false)))
      else Err(AttributeError("'list' object has no attribute 'lower'"))
    else Ok(None)
  }

  /** The rows the final models are applied to, as the branch after the
      broken test intends: for a list, the rows whose class is listed. */
  function Unknowns(cl: ClTrain, ap: Apply, rows: seq<Instance>): (r: Option<seq<Instance>>)
    ensures r.Some? <==> cl.Listed? && !ap.ApplyNone?
    ensures r.Some? && ap.ApplyAll? ==> forall x :: x in r.value <==> x in rows && !(x.cls.Text? && x.cls.s in cl.labels)
    ensures r.Some? && ap.ApplyList? ==> forall x :: x in r.value <==> x in rows && x.cls.Text? && x.cls.s in ap.labels
  {
    if cl.Listed? && !ap.ApplyNone? then
      if ap.ApplyAll? then Some(Filter(rows, ClassIn(cl.labels), false))
      else Some(Filter(rows, ClassIn(ap.labels), true))
    else None
  }

  /** Where the script does not fail, the corrected selection is the
      written one. */
  lemma UnknownsAgree(cl: ClTrain, ap: Apply, rows: seq<Instance>)
    requires UnknownsAsWritten(cl, ap, rows).Ok?
    ensures UnknownsAsWritten(cl, ap, rows) == Ok(Unknowns(cl, ap, rows))
  {
  }

  /** With `-apply all` the unknowns and the training rows together are
      exactly the data, each row in one of the two. */
  lemma ApplyAllPartitions(labels: seq<string>, rows: seq<Instance>)
    ensures var u := Unknowns(Listed(labels), ApplyAll, rows);
            u.Some? && multiset(Training(Listed(labels), rows)) + multiset(u.value) == multiset(rows)
  {
    FilterSplits(rows, ClassIn(labels));
  }

  /** A concrete case: `-cl_train A,B -apply C` stops with AttributeError,
      where rows of class C were meant to be scored. */
  lemma ApplyListFails()
    ensures var s := Configure(["-df", "d", "-cl_train", "A,B", "-apply", "C"]);
            s.Ok? && s.value.Some? && s.value.value.apply == ApplyList(["C"]) &&
            UnknownsAsWritten(s.value.value.clTrain, s.value.value.apply, [Instance("x", Text("C"), [])]).Err? &&
            Unknowns(s.value.value.clTrain, s.value.value.apply, [Instance("x", Text("C"), [])]) == Some([Instance("x", Text("C"), [])])
  {
    var s := ExampleSettings();
    ExampleScan();
    assert Configure(["-df", "d", "-cl_train", "A,B", "-apply", "C"]) == Ok(Some(s));
    var rows := [Instance("x", Text("C"), [])];
    FilterAllPass(rows, ClassIn(["C"]), true);
  }

  /** The settings `-df d -cl_train A,B -apply C` should produce. */
  function ExampleSettings(): Settings {
    Defaults().(df := Some("d")).(clTrain := Listed(["A", "B"]), pos := Text("A")).(apply := ApplyList(["C"]))
  }

  lemma ExampleScan()
    ensures Scan(Defaults(), ["-df", "d", "-cl_train", "A,B", "-apply", "C"], Step(), Known()) == Ok(ExampleSettings())
  {
    var args := ["-df", "d", "-cl_train", "A,B", "-apply", "C"];
    var s1 := Defaults().(df := Some("d"));
    var s2 := s1.(clTrain := Listed(["A", "B"]), pos := Text("A"));
    ExampleSteps(s1, s2);
    assert args[..4][..2][..0] == [];
    assert Scan(Defaults(), args[..4][..2], Step(), Known()) == Ok(s1);
    assert Scan(Defaults(), args[..4], Step(), Known()) == Ok(s2);
  }

  lemma ExampleSteps(s1: Settings, s2: Settings)
    requires s1 == Defaults().(df := Some("d"))
    requires s2 == s1.(clTrain := Listed(["A", "B"]), pos := Text("A"))
    ensures Step()(Defaults(), "-df", "d") == Ok(s1)
    ensures Step()(s1, "-cl_train", "A,B") == Ok(s2)
    ensures Step()(s2, "-apply", "C") == Ok(ExampleSettings())
  {
    SplitAB();
    SplitOne('C', ',');
    assert Lower("C") == "c";
  }

  lemma SplitAB()
    ensures Split("A,B", ',') == ["A", "B"]
  {
    SplitOne('B', ',');
    assert ",B"[0] == ',' && ",B"[1..] == "B";
    assert Split(",B", ',') == ["", "B"];
    assert "A,B"[0] == 'A' && "A,B"[1..] == ",B";
    assert ['A'] + "" == "A";
  }

  lemma SplitOne(c: char, sep: char)
    requires c != sep
    ensures Split([c], sep) == [[c]]
  {
    assert [c][1..] == "";
    assert [c] + "" == [c];
  }

  // ---------------------------------------------------------------------
  // Classes, NEG and the grid-search score
  // ---------------------------------------------------------------------

  /** The entries of `r` come from `vs`, ordered by where each first
      appears in `vs`. */
  predicate InFirstSeenOrder(r: seq<Value>, vs: seq<Value>) {
    forall i, j :: 0 <= i < j < |r| ==> r[i] in vs && r[j] in vs && Position(vs, r[i]) < Position(vs, r[j])
  }

  /** `Series.unique()`: each value once, in order of first appearance. */
  function Unique(vs: seq<Value>): (r: seq<Value>)
    ensures Distinct(r)
    ensures forall v :: v in r <==> v in vs
    ensures InFirstSeenOrder(r, vs)
    decreases |vs|
  {
    if |vs| == 0 then []
    else
      var n := |vs| - 1;
      var init := Unique(vs[..n]);
      UniqueStep(vs, init);
      if vs[n] in init then init else init + [vs[n]]
  }

  /** One step of `Unique`: the last value is added when it is new. */
  lemma UniqueStep(vs: seq<Value>, init: seq<Value>)
    requires |vs| > 0
    requires Distinct(init) && (forall v :: v in init <==> v in vs[..|vs| - 1]) && InFirstSeenOrder(init, vs[..|vs| - 1])
    ensures var r := if vs[|vs| - 1] in init then init else init + [vs[|vs| - 1]];
            Distinct(r) && (forall v :: v in r <==> v in vs) && InFirstSeenOrder(r, vs)
  {
    var n := |vs| - 1;
    var last := vs[n];
    assert vs == vs[..n] + [last];
    forall i | 0 <= i < |init| ensures init[i] in vs[..n] && Position(vs, init[i]) == Position(vs[..n], init[i]) < n {
      assert init[i] in init;
      PositionInPrefix(vs, n, init[i]);
    }
    if last !in init {
      assert Position(vs, last) == n;
      var r := init + [last];
      forall i, j | 0 <= i < j < |r| ensures r[i] in vs && r[j] in vs && Position(vs, r[i]) < Position(vs, r[j]) {
        if j < |init| {
          assert r[i] == init[i] && r[j] == init[j];
        }
      }
    }
  }

  function ClassesOf(rows: seq<Instance>): (r: seq<Value>)
    ensures |r| == |rows| && forall i :: 0 <= i < |rows| ==> r[i] == rows[i].cls
  {
    seq(|rows|, i requires 0 <= i < |rows| => rows[i].cls)
  }

  /** `int(x)` on a class value, kept unchanged where it raises: a float
      is cut toward zero, a string of digits becomes that number, and any
      other string stays as it is. */
  function ToInt(v: Value): (r: Value)
    ensures r.Text? ==> r == v
    ensures v.Text? && ParseInt(v.s).Ok? ==> r == Num(ParseInt(v.s).value as real)
    ensures v.Text? && ParseInt(v.s).Err? ==> r == v
    ensures v.Num? ==> r.Num? && r.x == r.x.Floor as real
    ensures v.Num? && v.x >= 0.0 ==> r.x <= v.x < r.x + 1.0
    ensures v.Num? && v.x < 0.0 ==> r.x - 1.0 < v.x <= r.x
  {
    match v
    case Num(x) => Num((if x >= 0.0 then x.Floor else -((-x).Floor)) as real)
    case Text(s) =>
      match ParseInt(s)
      case Ok(i) => Num(i as real)
      case Err(_) => v
  }

  /** Whole numbers pass through `int()` unchanged. */
  lemma ToIntKeepsWholeNumbers(k: int)
    ensures ToInt(Num(k as real)) == Num(k as real)
  {
    if k < 0 {
      assert (-(k as real)).Floor == -k;
    }
  }

  /** What the training classes fix: the class list, the negative class,
      and the grid-search score. */
  datatype Classes = Classes(classes: seq<Value>, neg: Value, gsScore: string)

  const NoNeg: Value := Text("multiclass_no_NEG")

  /** The first class other than `pos`, for two classes: the loop's
      `break` stops at the first one. */
  function OtherClass(cs: seq<Value>, pos: Value): (r: Value)
    requires |cs| == 2
    ensures r in cs && (r == cs[0] <==> cs[0] != pos || cs[1] == cs[0])
    ensures cs[0] != cs[1] ==> r != pos
  {
    if cs[0] != pos then cs[0] else cs[1]
  }

  /** Lines 149-171: with every class trained on, the classes present; two
      of them make a binary problem whose NEG is the first class that is
      not POS, passed through `int()`, and whose score is ROC AUC; anything
      else is multiclass, scored by macro F1. With a `-cl_train` list the
      list itself is the classes and its second entry is NEG. */
  function DeriveClasses(cl: ClTrain, pos: Value, rows: seq<Instance>): (r: Classes)
    ensures r.gsScore == "roc_auc" <==> |r.classes| == 2
    ensures r.gsScore == "roc_auc" || r.gsScore == "f1_macro"
    ensures |r.classes| != 2 ==> r.neg == NoNeg
    ensures cl.AllClasses? ==> Distinct(r.classes) && forall v :: v in r.classes <==> v in ClassesOf(rows)
    ensures cl.Listed? ==> r.classes == seq(|cl.labels|, i requires 0 <= i < |cl.labels| => Text(cl.labels[i]))
    ensures cl.Listed? && |cl.labels| == 2 ==> r.neg == Text(cl.labels[1])
  {
    match cl
    case AllClasses =>
      var cs := Unique(ClassesOf(rows));
      if |cs| == 2 then Classes(cs, ToInt(OtherClass(cs, pos)), "roc_auc")
      else Classes(cs, NoNeg, "f1_macro")
    case Listed(labels) =>
      var cs := seq(|labels|, i requires 0 <= i < |labels| => Text(labels[i]));
      if |labels| == 2 then Classes(cs, Text(labels[1]), "roc_auc")
      else Classes(cs, NoNeg, "f1_macro")
  }

  /** Binary training on every class: when POS is one of the two classes,
      NEG is the other, as `int()` reads it. */
  lemma BinaryNegIsTheOtherClass(pos: Value, rows: seq<Instance>)
    requires |Unique(ClassesOf(rows))| == 2 && pos in ClassesOf(rows)
    ensures exists c :: c in ClassesOf(rows) && c != pos && DeriveClasses(AllClasses, pos, rows).neg == ToInt(c)
    ensures forall c :: c in ClassesOf(rows) ==> c == pos || DeriveClasses(AllClasses, pos, rows).neg == ToInt(c)
  {
    var cs := Unique(ClassesOf(rows));
    assert cs[0] in cs && cs[1] in cs;
    assert pos == cs[0] || pos == cs[1];
    forall c | c in ClassesOf(rows) ensures c == cs[0] || c == cs[1] {
      assert c in cs;
    }
  }

  // ---------------------------------------------------------------------
  // Balanced sample size
  // ---------------------------------------------------------------------

  /** The number of rows of class `c`. */
  function Count(rows: seq<Instance>, c: Value): (r: nat)
    ensures r <= |rows|
    ensures r > 0 <==> c in ClassesOf(rows)
    ensures r == multiset(ClassesOf(rows))[c]
    decreases |rows|
  {
    if |rows| == 0 then 0
    else
      var init := rows[..|rows| - 1];
      assert ClassesOf(rows) == ClassesOf(init) + [rows[|rows| - 1].cls];
      assert multiset(ClassesOf(rows)) == multiset(ClassesOf(init)) + multiset{rows[|rows| - 1].cls};
      Count(init, c) + if rows[|rows| - 1].cls == c then 1 else 0
  }

  /** The smallest count among the classes `cs`. */
  function Smallest(rows: seq<Instance>, cs: seq<Value>): (r: nat)
    requires |cs| > 0
    ensures exists c :: c in cs && r == Count(rows, c)
    ensures forall c :: c in cs ==> r <= Count(rows, c)
    decreases |cs|
  {
    if |cs| == 1 then Count(rows, cs[0])
    else
      var rest := Smallest(rows, cs[1..]);
      assert forall c :: c in cs ==> c == cs[0] || c in cs[1..];
      if Count(rows, cs[0]) <= rest then Count(rows, cs[0]) else rest
  }

  /** Lines 177-180: `-min_size` when given, else one less than the size
      of the smallest training class. With no training rows that size is
      NaN and formatting it with `%i` raises ValueError. */
  function MinSize(flag: Option<int>, rows: seq<Instance>): (r: Result<int>)
    ensures flag.Some? ==> r == Ok(flag.value)
    ensures flag.None? ==> (r.Err? <==> |rows| == 0)
    ensures r.Err? ==> r.error.ValueError?
    ensures flag.None? && r.Ok? ==> 0 <= r.value < |rows|
    ensures flag.None? && r.Ok? ==>
              (exists c :: c in ClassesOf(rows) && r.value + 1 == Count(rows, c)) &&
              forall c :: c in ClassesOf(rows) ==> r.value + 1 <= Count(rows, c)
  {
    if flag.Some? then Ok(flag.value)
    else if |rows| == 0 then Err(ValueError("cannot convert float NaN to integer"))
    else
      var cs := Unique(ClassesOf(rows));
      assert rows[0].cls in ClassesOf(rows);
      var m := Smallest(rows, cs);
      Ok(m - 1)
  }

  // ---------------------------------------------------------------------
  // Save name
  // ---------------------------------------------------------------------

  /** Lines 184-188: `-save` when given, else `DF_ALG`, with `_TAG` when a
      tag is set. ALG is read only here and raises NameError when unset. */
  function SaveName(save: string, tag: string, df: string, alg: Option<string>): (r: Result<string>)
    ensures save != "" ==> r == Ok(save)
    ensures save == "" ==> (r.Err? <==> alg.None?)
    ensures r.Err? ==> r.error == NameError("ALG")
    ensures save == "" && r.Ok? ==> |df + "_" + alg.value| <= |r.value| && r.value[..|df + "_" + alg.value|] == df + "_" + alg.value
  {
    if save != "" then Ok(save)
    else if alg.None? then Err(NameError("ALG"))
    else if tag == "" then Ok(df + "_" + alg.value)
    else Ok(df + "_" + alg.value + "_" + tag)
  }

  /** The default save name ends in the tag, or in the algorithm when there
      is no tag, so long as neither contains an underscore. */
  lemma SaveNameEndsInTag(tag: string, df: string, alg: string)
    requires '_' !in alg && '_' !in tag
    ensures LastSegment(SaveName("", tag, df, Some(alg)).value, '_') == if tag == "" then alg else tag
  {
    if tag == "" {
      LastSegmentOfSuffix(df + "_", alg, '_');
      assert df + "_" + alg == (df + "_") + alg;
    } else {
      LastSegmentOfSuffix(df + "_" + alg + "_", tag, '_');
    }
  }

  // ---------------------------------------------------------------------
  // The set-up, end to end
  // ---------------------------------------------------------------------

  /** Everything the main block settles before the learning starts. */
  datatype Plan = Plan(training: seq<Instance>, unknowns: Option<seq<Instance>>, classes: Classes, minSize: int, save: string)

  /** A row that survives the "?" filter and belongs to a training class. */
  predicate Eligible(s: Settings, x: Instance) {
    Passes(Complete, x) && (s.clTrain.Listed? ==> Passes(ClassIn(s.clTrain.labels), x))
  }

  /** Lines 113-188 after the scan: the data must have been named (its
      reading fails otherwise), rows with "?" go, the unknowns and the
      training rows are chosen, the classes derived, the sample size and
      the save name fixed. The unknowns are chosen as written, so a class
      list with an `-apply` list stops at line 136 with AttributeError. */
  function Prepare(s: Settings, rows: seq<Instance>): (r: Result<Plan>)
    ensures s.df.None? ==> r == Err(NameError("DF"))
    ensures s.df.Some? && s.clTrain.Listed? && s.apply.ApplyList? ==> r.Err? && r.error.AttributeError?
    ensures r.Ok? <==> s.df.Some? && !(s.clTrain.Listed? && s.apply.ApplyList?) &&
                       (s.minSize.Some? || exists x :: x in rows && Eligible(s, x)) && (s.save != "" || s.alg.Some?)
    ensures r.Ok? ==> forall x :: x in r.value.training <==> x in rows && Eligible(s, x)
    ensures r.Ok? ==> (r.value.unknowns.Some? <==> s.clTrain.Listed? && s.apply.ApplyAll?)
    ensures r.Ok? && r.value.unknowns.Some? ==>
              forall x :: x in r.value.unknowns.value <==> x in rows && Passes(Complete, x) && !Passes(ClassIn(s.clTrain.labels), x)
  {
    if s.df.None? then Err(NameError("DF"))
    else
      var clean := Clean(rows);
      var unknowns :- UnknownsAsWritten(s.clTrain, s.apply, clean);
      var training := Training(s.clTrain, clean);
      var classes := DeriveClasses(s.clTrain, s.pos, training);
      var minSize :- MinSize(s.minSize, training);
      var save :- SaveName(s.save, s.tag, s.df.value, s.alg);
      Ok(Plan(training, unknowns, classes, minSize, save))
  }

  /** `-gs_score` has no effect: both branches of the class derivation
      overwrite the score. */
  lemma GsScoreFlagIsIgnored(s: Settings, rows: seq<Instance>, score: string)
    ensures Prepare(s.(gsScore := score), rows) == Prepare(s, rows)
  {
  }

  // ---------------------------------------------------------------------
  // One round
  // ---------------------------------------------------------------------

  /** Lines 262-267: the sampled rows, and the rest restricted to the
      trained classes. */
  function RoundSplit(cl: ClTrain, rows: seq<Instance>, ids: seq<string>): (r: (seq<Instance>, seq<Instance>))
    ensures forall x :: x in r.0 <==> x in rows && x.id in ids
    ensures forall x :: x in r.1 ==> x in rows && x.id !in ids
  {
    var chosen := Filter(rows, IdIn(ids), true);
    var rest := Filter(rows, IdIn(ids), false);
    match cl
    case AllClasses => (chosen, rest)
    case Listed(labels) => (chosen, Filter(rest, ClassIn(labels), true))
  }

  /** The training rows are already of the trained classes, so the
      second filter removes nothing: every training row is either sampled
      or held out, as often as it occurs. */
  lemma RoundSplitPartitions(cl: ClTrain, rows: seq<Instance>, ids: seq<string>)
    requires cl.Listed? ==> forall x :: x in rows ==> Passes(ClassIn(cl.labels), x)
    ensures var (chosen, rest) := RoundSplit(cl, rows, ids);
            multiset(chosen) + multiset(rest) == multiset(rows)
  {
    FilterSplits(rows, IdIn(ids));
    if cl.Listed? {
      FilterAllPass(Filter(rows, IdIn(ids), false), ClassIn(cl.labels), true);
    }
  }

  // ---------------------------------------------------------------------
  // Final call
  // ---------------------------------------------------------------------

  /** Lines 389-391: the call for one instance. A median at or above the
      threshold makes it POS, below it NEG; a missing median (NaN) matches
      neither mask and leaves the class as it was. */
  function FinalCall(median: Option<real>, threshold: real, cls: Value, pos: Value, neg: Value): (r: Value)
    ensures median.None? ==> r == cls
    ensures median.Some? ==> (r == pos || r == neg)
    ensures median.Some? && pos != neg ==> (r == pos <==> median.value >= threshold)
  {
    if median.None? then cls
    else if median.value >= threshold then pos
    else neg
  }

  /** Raising the threshold never turns a NEG call into POS; a call at
      exactly the threshold is POS. */
  lemma FinalCallMonotone(m: real, t1: real, t2: real, cls: Value, pos: Value, neg: Value)
    requires t1 <= t2 && pos != neg
    ensures FinalCall(Some(m), t2, cls, pos, neg) == pos ==> FinalCall(Some(m), t1, cls, pos, neg) == pos
    ensures FinalCall(Some(m), m, cls, pos, neg) == pos
  {
  }

  /** The two masked assignments over the prediction column: it starts as
      a copy of the classes, the rows at or above the threshold are set to
      POS, then the rows below it to NEG. */
  method Predict(classes: seq<Value>, medians: seq<Option<real>>, threshold: real, pos: Value, neg: Value)
    returns (pred: seq<Value>)
    requires |classes| == |medians|
    ensures |pred| == |classes|
    ensures forall i :: 0 <= i < |pred| ==> pred[i] == FinalCall(medians[i], threshold, classes[i], pos, neg)
  {
    pred := classes;
    var i := 0;
    while i < |pred|
      invariant 0 <= i <= |pred| == |classes|
      invariant forall k :: 0 <= k < i ==> pred[k] == if medians[k].Some? && medians[k].value >= threshold then pos else classes[k]
      invariant forall k :: i <= k < |pred| ==> pred[k] == classes[k]
    {
      if medians[i].Some? && medians[i].value >= threshold {
        pred := pred[i := pos];
      }
      i := i + 1;
    }
    i := 0;
    while i < |pred|
      invariant 0 <= i <= |pred| == |classes|
      invariant forall k :: 0 <= k < i ==> pred[k] == FinalCall(medians[k], threshold, classes[k], pos, neg)
      invariant forall k :: i <= k < |pred| ==> pred[k] == if medians[k].Some? && medians[k].value >= threshold then pos else classes[k]
    {
      if medians[i].Some? && medians[i].value < threshold {
        pred := pred[i := neg];
      }
      i := i + 1;
    }
  }

  // ---------------------------------------------------------------------
  // RESULTS.txt
  // ---------------------------------------------------------------------

  /** The nine run fields and the four-letter names of the twelve metric
      groups that follow them. */
  const RunFields: seq<string> := ["DateTime", "ID", "Tag", "Alg", "Classes", "FeatureNum", "BalancedSize", "CVfold", "BalancedRuns"]
  const Metrics: seq<string> := ["AUCROC", "AUCPRc", "Ac", "F1", "Pr", "TPR", "FPR", "FNR", "TP", "TN", "FP", "FN"]

  /** Each metric's mean, standard deviation and standard error columns. */
  function MetricFields(ms: seq<string>): (r: seq<string>)
    ensures |r| == 3 * |ms|
    ensures forall k :: 0 <= k < |ms| ==> r[3 * k] == ms[k] && r[3 * k + 1] == ms[k] + "_sd" && r[3 * k + 2] == ms[k] + "_se"
    decreases |ms|
  {
    if |ms| == 0 then []
    else
      var init := MetricFields(ms[..|ms| - 1]);
      var m := ms[|ms| - 1];
      assert forall k :: 0 <= k < |ms| - 1 ==> ms[..|ms| - 1][k] == ms[k];
      init + [m, m + "_sd", m + "_se"]
  }

  /** The header fields, each metric followed by its `_sd` and `_se`. */
  function HeaderFields(): (r: seq<string>)
    ensures |r| == 45 && r[..9] == RunFields
    ensures forall k :: 0 <= k < 12 ==> r[9 + 3 * k] == Metrics[k] && r[10 + 3 * k] == Metrics[k] + "_sd" && r[11 + 3 * k] == Metrics[k] + "_se"
  {
    var ms := MetricFields(Metrics);
    assert forall k :: 0 <= k < 12 ==> (RunFields + ms)[9 + 3 * k] == ms[3 * k];
    RunFields + ms
  }

  /** The header as written: the third AUCROC column is "tAUCROC_se",
      every other column is the intended one. */
  function HeaderFieldsAsWritten(): (r: seq<string>)
    ensures |r| == 45 && r[11] == "tAUCROC_se"
    ensures forall k :: 0 <= k < 45 && k != 11 ==> r[k] == HeaderFields()[k]
  {
    HeaderFields()[11 := "tAUCROC_se"]
  }

  /** As written, the AUCROC standard-error column does not carry the
      metric's name, so a reader looking for "AUCROC_se" finds nothing. */
  lemma HeaderAsWrittenMisnamesAucSe()
    ensures HeaderFieldsAsWritten()[9] == "AUCROC"
    ensures HeaderFieldsAsWritten()[11] != HeaderFieldsAsWritten()[9] + "_se"
  {
    var h := HeaderFields();
    assert h[9 + 3 * 0] == Metrics[0];
    assert |"tAUCROC_se"| != |"AUCROC" + "_se"|;
  }

  /** None of the run fields or metric names holds a tab. */
  lemma NamesTabFree()
    ensures forall k :: 0 <= k < 9 ==> '\t' !in RunFields[k]
    ensures forall k :: 0 <= k < 12 ==> '\t' !in Metrics[k]
  {
    forall k | 0 <= k < 9 ensures '\t' !in RunFields[k] {
      var f := RunFields[k];
      assert forall i :: 0 <= i < |f| ==> f[i] != '\t';
    }
    forall k | 0 <= k < 12 ensures '\t' !in Metrics[k] {
      var m := Metrics[k];
      assert forall i :: 0 <= i < |m| ==> m[i] != '\t';
    }
  }

  /** No header field holds a tab. */
  lemma HeaderTabFree()
    ensures forall k :: 0 <= k < 45 ==> '\t' !in HeaderFieldsAsWritten()[k]
  {
    var h := HeaderFieldsAsWritten();
    var c := HeaderFields();
    NamesTabFree();
    assert '\t' !in "_sd" && '\t' !in "_se" && '\t' !in "tAUCROC_se";
    forall k | 0 <= k < 45 ensures '\t' !in h[k] {
      if k < 9 {
        assert c[..9][k] == RunFields[k];
      } else if k != 11 {
        var m := (k - 9) / 3;
        if k == 9 + 3 * m {
          assert h[k] == Metrics[m];
        } else if k == 10 + 3 * m {
          assert h[k] == Metrics[m] + "_sd";
        } else {
          assert h[k] == Metrics[m] + "_se";
        }
      }
    }
  }

  /** The header line as written. */
  function HeaderLine(): string {
    Join(HeaderFieldsAsWritten(), '\t') + "\n"
  }

  /** The header line is one line whose tab-separated fields are the
      header fields as written. */
  lemma HeaderLineFields()
    ensures |HeaderLine()| >= 1 && HeaderLine()[|HeaderLine()| - 1] == '\n'
    ensures Split(HeaderLine()[..|HeaderLine()| - 1], '\t') == HeaderFieldsAsWritten()
  {
    HeaderTabFree();
    SplitJoin(HeaderFieldsAsWritten(), '\t');
    var line := HeaderLine();
    assert line[..|line| - 1] == Join(HeaderFieldsAsWritten(), '\t');
  }

  /** `'\t'.join(str(x) for x in group)`. */
  function JoinGroup(group: seq<string>): string {
    if |group| == 0 then "" else Join(group, '\t')
  }

  /** The row line: the nine run values, then each metric group joined by
      tabs, all separated by tabs. */
  function RowLine(run: seq<string>, groups: seq<seq<string>>): (r: string)
    requires |run| == 9 && |groups| == 12
    ensures |r| >= 1 && r[|r| - 1] == '\n'
    ensures (forall k :: 0 <= k < 12 ==> |groups[k]| >= 1) ==> r[..|r| - 1] == Join(run + Flatten(groups), '\t')
  {
    var body := Join(run + seq(12, k requires 0 <= k < 12 => JoinGroup(groups[k])), '\t');
    var line := body + "\n";
    assert line[..|line| - 1] == body;
    if forall k :: 0 <= k < 12 ==> |groups[k]| >= 1 then
      JoinNested(run, groups);
      line
    else line
  }

  /** Flattening the groups into one list. */
  function Flatten(groups: seq<seq<string>>): (r: seq<string>)
    ensures (forall k :: 0 <= k < |groups| ==> |groups[k]| == 3) ==> |r| == 3 * |groups|
    decreases |groups|
  {
    if |groups| == 0 then [] else Flatten(groups[..|groups| - 1]) + groups[|groups| - 1]
  }

  /** Joining two non-empty lists is joining each and putting one
      separator between. */
  lemma {:induction false} JoinAppend(a: seq<string>, b: seq<string>, sep: char)
    requires |a| >= 1 && |b| >= 1
    ensures Join(a + b, sep) == Join(a, sep) + [sep] + Join(b, sep)
    decreases |a|
  {
    if |a| > 1 {
      JoinAppend(a[1..], b, sep);
      assert (a + b)[1..] == a[1..] + b;
    } else {
      assert (a + b)[1..] == b;
    }
  }

  /** Joining with the groups joined is joining the flattened groups. */
  lemma {:induction false} JoinNested(run: seq<string>, groups: seq<seq<string>>)
    requires |run| >= 1 && forall k :: 0 <= k < |groups| ==> |groups[k]| >= 1
    ensures Join(run + seq(|groups|, k requires 0 <= k < |groups| => JoinGroup(groups[k])), '\t') == Join(run + Flatten(groups), '\t')
    decreases |groups|
  {
    if |groups| > 0 {
      var n := |groups| - 1;
      var front := groups[..n];
      JoinNested(run, front);
      var nested := seq(|groups|, k requires 0 <= k < |groups| => JoinGroup(groups[k]));
      var nestedFront := seq(n, k requires 0 <= k < n => JoinGroup(front[k]));
      assert nested == nestedFront + [JoinGroup(groups[n])];
      assert run + nested == (run + nestedFront) + [JoinGroup(groups[n])];
      JoinAppend(run + nestedFront, [JoinGroup(groups[n])], '\t');
      assert run + Flatten(groups) == (run + Flatten(front)) + groups[n];
      JoinAppend(run + Flatten(front), groups[n], '\t');
    }
  }

  /** With tab-free values and three per group, the row line splits into
      exactly as many fields as the header names, the run values first
      and each group's three values in order after them. */
  lemma RowMatchesHeader(run: seq<string>, groups: seq<seq<string>>)
    requires |run| == 9 && |groups| == 12
    requires forall k :: 0 <= k < 9 ==> '\t' !in run[k]
    requires forall k :: 0 <= k < 12 ==> |groups[k]| == 3 && forall j :: 0 <= j < 3 ==> '\t' !in groups[k][j]
    ensures var line := RowLine(run, groups);
            Split(line[..|line| - 1], '\t') == run + Flatten(groups) &&
            |Split(line[..|line| - 1], '\t')| == |Split(HeaderLine()[..|HeaderLine()| - 1], '\t')|
  {
    HeaderLineFields();
    var line := RowLine(run, groups);
    JoinNested(run, groups);
    var fields := run + Flatten(groups);
    FlattenTabFree(groups);
    assert forall k :: 0 <= k < |fields| ==> '\t' !in fields[k];
    SplitJoin(fields, '\t');
    assert line[..|line| - 1] == Join(fields, '\t');
  }

  lemma {:induction false} FlattenTabFree(groups: seq<seq<string>>)
    requires forall k :: 0 <= k < |groups| ==> forall j :: 0 <= j < |groups[k]| ==> '\t' !in groups[k][j]
    ensures forall j :: 0 <= j < |Flatten(groups)| ==> '\t' !in Flatten(groups)[j]
    decreases |groups|
  {
    if |groups| > 0 {
      FlattenTabFree(groups[..|groups| - 1]);
    }
  }

  /** Lines 421-434: RESULTS.txt gets the header line when it does not
      exist yet, then the row; a multiclass run (more than two classes)
      writes only its own detailed file and leaves RESULTS.txt as it was.
      None stands for a missing file. `header` is the line written to a
      new file, `HeaderLine()` in the script. */
  function UpdateResults(header: string, existing: Option<string>, classCount: nat, row: string): (r: Option<string>)
    ensures classCount > 2 ==> r == existing
    ensures classCount <= 2 ==> r.Some? && |row| <= |r.value| && r.value[|r.value| - |row|..] == row
    ensures classCount <= 2 && existing.Some? ==> r.value == existing.value + row
    ensures classCount <= 2 && existing.None? ==> r.value == header + row
  {
    if classCount > 2 then existing
    else if existing.None? then Some(header + row)
    else Some(existing.value + row)
  }

  /** The file after a series of binary runs. */
  function Accumulate(header: string, existing: Option<string>, rows: seq<string>): Option<string>
    decreases |rows|
  {
    if |rows| == 0 then existing else UpdateResults(header, Accumulate(header, existing, rows[..|rows| - 1]), 2, rows[|rows| - 1])
  }

  function Concat(rows: seq<string>): string
    decreases |rows|
  {
    if |rows| == 0 then "" else Concat(rows[..|rows| - 1]) + rows[|rows| - 1]
  }

  /** Binary runs in a fresh folder write the header once, then one row
      per run in order. */
  lemma {:induction false} HeaderWrittenOnce(header: string, rows: seq<string>)
    requires |rows| >= 1
    ensures Accumulate(header, None, rows) == Some(header + Concat(rows))
    decreases |rows|
  {
    var init := rows[..|rows| - 1];
    if |init| == 0 {
      assert Concat(rows) == rows[0];
    } else {
      HeaderWrittenOnce(header, init);
      assert header + Concat(init) + rows[|rows| - 1] == header + (Concat(init) + rows[|rows| - 1]);
    }
  }
}
