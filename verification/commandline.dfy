/** The argument loop both scripts share: `for i in range(1, len(sys.argv), 2)`
    reads a flag and the value after it. */
module CommandLine {
  import opened Outcomes

  /** The loop over the arguments after the program name, two at a time.
      `assign` handles one flag and its value; a flag the script knows in
      last place has no value and `sys.argv[i+1]` raises IndexError, while
      an unknown one there is skipped like any other unknown flag. */
  function Scan<S>(init: S, args: seq<string>, assign: (S, string, string) -> Result<S>, known: string -> bool): (r: Result<S>)
    ensures |args| % 2 == 1 && known(args[|args| - 1]) ==> r.Err?
    decreases |args|
  {
    if |args| == 0 then Ok(init)
    else if |args| % 2 == 1 then
      var s :- Scan(init, args[..|args| - 1], assign, known);
      if known(args[|args| - 1]) then Err(IndexError("sys.argv[i+1]")) else Ok(s)
    else
      var s :- Scan(init, args[..|args| - 2], assign, known);
      assign(s, args[|args| - 2], args[|args| - 1])
  }

  /** The loop raises nothing of its own but the IndexError on a lone
      last flag: every other failure is one `assign` raises. */
  lemma {:induction false} ScanFaults<S>(init: S, args: seq<string>, assign: (S, string, string) -> Result<S>, known: string -> bool, P: Fault -> bool)
    requires P(IndexError("sys.argv[i+1]"))
    requires forall s, f, v :: assign(s, f, v).Err? ==> P(assign(s, f, v).error)
    ensures Scan(init, args, assign, known).Err? ==> P(Scan(init, args, assign, known).error)
    decreases |args|
  {
    if |args| > 0 {
      var cut := if |args| % 2 == 1 then |args| - 1 else |args| - 2;
      ScanFaults(init, args[..cut], assign, known, P);
    }
  }

  /** `flag` is never in a flag position. */
  predicate Absent(args: seq<string>, flag: string) {
    forall i :: 0 <= i < |args| && i % 2 == 0 ==> args[i] != flag
  }

  /** A property every handled flag-value pair of the command line keeps
      holds of the scan's result when it holds at the start. */
  lemma {:induction false} ScanPreserves<S>(init: S, args: seq<string>, assign: (S, string, string) -> Result<S>, known: string -> bool, P: S -> bool)
    requires P(init)
    requires forall s, i :: 0 <= i < |args| - 1 && i % 2 == 0 && P(s) && assign(s, args[i], args[i + 1]).Ok? ==>
               P(assign(s, args[i], args[i + 1]).value)
    ensures Scan(init, args, assign, known).Ok? ==> P(Scan(init, args, assign, known).value)
    decreases |args|
  {
    if |args| > 0 {
      var cut := if |args| % 2 == 1 then |args| - 1 else |args| - 2;
      var front := args[..cut];
      forall s, i | 0 <= i < |front| - 1 && i % 2 == 0 && P(s) && assign(s, front[i], front[i + 1]).Ok?
        ensures P(assign(s, front[i], front[i + 1]).value)
      {
        assert front[i] == args[i] && front[i + 1] == args[i + 1];
      }
      ScanPreserves(init, front, assign, known, P);
    }
  }

  /** The position of the last flag satisfying `sets` that has a value
      after it, if any. */
  function LastFlag(args: seq<string>, sets: string -> bool): (r: Option<nat>)
    ensures r.Some? ==> r.value % 2 == 0 && r.value + 1 < |args| && sets(args[r.value])
    ensures r.Some? ==> forall i :: r.value < i < |args| - 1 && i % 2 == 0 ==> !sets(args[i])
    ensures r.None? ==> forall i :: 0 <= i < |args| - 1 && i % 2 == 0 ==> !sets(args[i])
    decreases |args|
  {
    if |args| < 2 then None
    else
      var cut := if |args| % 2 == 1 then |args| - 1 else |args| - 2;
      if cut + 1 < |args| && sets(args[cut]) then Some(cut)
      else
        var r := LastFlag(args[..cut], sets);
        assert forall i :: 0 <= i < cut ==> args[..cut][i] == args[i];
        r
  }

  /** When every flag in `sets` stores a value through `get`, computed by
      `conv` from the flag and its value, and every other flag leaves `get`
      alone, the scan's result carries what the last such flag stored, or
      the initial value when none is given. */
  lemma {:induction false} ScanLastWins<S, T>(init: S, args: seq<string>, assign: (S, string, string) -> Result<S>, known: string -> bool,
                                              sets: string -> bool, get: S -> T, conv: (string, string) -> T)
    requires forall s, f, v :: assign(s, f, v).Ok? && sets(f) ==> get(assign(s, f, v).value) == conv(f, v)
    requires forall s, f, v :: assign(s, f, v).Ok? && !sets(f) ==> get(assign(s, f, v).value) == get(s)
    ensures var r := Scan(init, args, assign, known);
            var last := LastFlag(args, sets);
            r.Ok? ==> get(r.value) == if last.Some? then conv(args[last.value], args[last.value + 1]) else get(init)
    decreases |args|
  {
    if |args| > 0 {
      var cut := if |args| % 2 == 1 then |args| - 1 else |args| - 2;
      ScanLastWins(init, args[..cut], assign, known, sets, get, conv);
      var last := LastFlag(args[..cut], sets);
      if last.Some? {
        assert args[..cut][last.value] == args[last.value] && args[..cut][last.value + 1] == args[last.value + 1];
      }
    }
  }
}
