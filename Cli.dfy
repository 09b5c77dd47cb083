/**
 * `main` of src/main.py: the mode's import function is looked up once, then
 * `make_script` runs on every path in argument order. File contents are
 * given with each path; the written files are returned.
 */
module Cli {
  import opened Wrappers
  import opened Text
  import opened Extension
  import opened Grouping
  import opened Script
  import opened Paths

  /** A file written by `make_script`: where, and its text. */
  datatype Output = Output(path: Path, text: string)

  /** Why a run stopped: `FUNCTION_MAP[args.mode]` raised `KeyError`, or `with_name` raised `ValueError`. */
  datatype Error = UnknownMode(mode: string) | EmptyName(path: Path)

  /** Whether `make_script` can form the output name of a path: `with_name` needs a name. */
  predicate Nameable(p: Path)
  {
    Name(p) != ""
  }

  /** How many paths are handled before the first one whose output name cannot be formed. */
  function Completed(paths: seq<Path>): (n: nat)
    ensures n <= |paths|
    ensures forall k :: 0 <= k < n ==> Nameable(paths[k])
    ensures n < |paths| ==> !Nameable(paths[n])
  {
    if paths == [] || !Nameable(paths[0]) then 0
    else
      var rest := Completed(paths[1..]);
      assert forall k :: 1 <= k < |paths| ==> paths[k] == paths[1..][k - 1];
      1 + rest
  }

  function PathsOf(inputs: seq<(Path, DataFile)>): (r: seq<Path>)
    ensures |r| == |inputs| && forall k :: 0 <= k < |inputs| ==> r[k] == inputs[k].0
  {
    seq(|inputs|, k requires 0 <= k < |inputs| => inputs[k].0)
  }

  /** The text `make_script` writes for one data file. */
  function ScriptText(m: Mode, data: DataFile): string
  {
    Join(ScriptLines(Groupings(m, data)), "\n")
  }

  /** What `make_script` writes for one path: nothing when the output name cannot be formed. */
  function ScriptFor(m: Mode, path: Path, data: DataFile): Option<Output>
  {
    match ScriptPath(path)
    case None => None
    case Some(target) => Some(Output(target, ScriptText(m, data)))
  }

  /** A path with a name gets its script, beside it in `results`. */
  lemma ScriptForValue(m: Mode, path: Path, data: DataFile)
    ensures ScriptFor(m, path, data).Some? <==> Nameable(path)
    ensures ScriptFor(m, path, data).Some? ==>
      ScriptFor(m, path, data).value == Output(ScriptPath(path).value, ScriptText(m, data))
  {
  }

  /** The output of every path, whether or not the run gets that far. */
  function ScriptsFor(m: Mode, inputs: seq<(Path, DataFile)>): (r: seq<Option<Output>>)
    ensures |r| == |inputs|
  {
    seq(|inputs|, k requires 0 <= k < |inputs| => ScriptFor(m, inputs[k].0, inputs[k].1))
  }

  /** The `i`-th entry is the output of the `i`-th path. */
  lemma ScriptsForAt(m: Mode, inputs: seq<(Path, DataFile)>, i: nat)
    requires i < |inputs|
    ensures ScriptsFor(m, inputs)[i] == ScriptFor(m, inputs[i].0, inputs[i].1)
  {
  }

  /** The files written by the steps from `i` on, which stop at the first failing one. */
  function Collect(steps: seq<Option<Output>>, paths: seq<Path>, i: nat): (seq<Output>, Option<Error>)
    requires |steps| == |paths| && i <= |steps|
    decreases |steps| - i
  {
    if i == |steps| then ([], None)
    else if steps[i].None? then ([], Some(EmptyName(paths[i])))
    else
      var rest := Collect(steps, paths, i + 1);
      ([steps[i].value] + rest.0, rest.1)
  }

  /** The outcome of `main` with a known mode. */
  function Run(m: Mode, inputs: seq<(Path, DataFile)>): (seq<Output>, Option<Error>)
  {
    Collect(ScriptsFor(m, inputs), PathsOf(inputs), 0)
  }

  /** `make_script(path, import_func)`: the output file of one path, or nothing when `with_name` raises. */
  method MakeScript(m: Mode, path: Path, data: DataFile) returns (out: Option<Output>)
    ensures out == ScriptFor(m, path, data)
  {
    var target := ScriptPath(path);
    if target.None? {
      return None;
    }
    var groups := Groupings(m, data);
    var text := WriteScript(groups);
    out := Some(Output(target.value, text));
  }

  /**
   * `main(args)`: an unknown mode fails before any file is read; otherwise
   * `make_script` runs on every path in argument order until one raises.
   */
  method RunAll(mode: string, inputs: seq<(Path, DataFile)>) returns (outputs: seq<Output>, error: Option<Error>)
    ensures mode !in MODE_KEYS ==> outputs == [] && error == Some(UnknownMode(mode))
    ensures mode in MODE_KEYS ==> (outputs, error) == Run(ParseMode(mode).value, inputs)
  {
    var parsed := ParseMode(mode);
    if parsed.None? {
      return [], Some(UnknownMode(mode));
    }
    ghost var steps := ScriptsFor(parsed.value, inputs);
    ScriptsForEvery(parsed.value, inputs);
    outputs, error := RunPaths(parsed.value, inputs, steps);
  }

  /** Every entry of `ScriptsFor` is the output of its path. */
  lemma ScriptsForEvery(m: Mode, inputs: seq<(Path, DataFile)>)
    ensures forall k {:trigger ScriptFor(m, inputs[k].0, inputs[k].1)} :: 0 <= k < |inputs| ==>
      ScriptsFor(m, inputs)[k] == ScriptFor(m, inputs[k].0, inputs[k].1)
  {
    forall k | 0 <= k < |inputs|
      ensures ScriptsFor(m, inputs)[k] == ScriptFor(m, inputs[k].0, inputs[k].1)
    {
      ScriptsForAt(m, inputs, k);
    }
  }

  /**
   * The loop of `main` over `args.paths`, once the import function is chosen:
   * `steps` holds what `make_script` gives for each path.
   */
  method RunPaths(m: Mode, inputs: seq<(Path, DataFile)>, ghost steps: seq<Option<Output>>)
    returns (outputs: seq<Output>, error: Option<Error>)
    requires |steps| == |inputs|
    requires forall k {:trigger ScriptFor(m, inputs[k].0, inputs[k].1)} :: 0 <= k < |inputs| ==>
      steps[k] == ScriptFor(m, inputs[k].0, inputs[k].1)
    ensures (outputs, error) == Collect(steps, PathsOf(inputs), 0)
  {
    outputs, error := [], None;
    ghost var paths := PathsOf(inputs);
    var i := 0;
    assert outputs + Collect(steps, paths, 0).0 == Collect(steps, paths, 0).0;
    while i < |inputs|
      invariant i <= |inputs|
      invariant Collect(steps, paths, 0) == (outputs + Collect(steps, paths, i).0, Collect(steps, paths, i).1)
    {
      var out := MakeStep(m, inputs, steps, i);
      if out.None? {
        CollectStop(steps, paths, i, outputs);
        return outputs, Some(EmptyName(inputs[i].0));
      }
      CollectStep(steps, paths, i, outputs);
      outputs, i := outputs + [out.value], i + 1;
    }
    assert outputs + [] == outputs;
  }

  /** `make_script` on the `i`-th path. */
  method MakeStep(m: Mode, inputs: seq<(Path, DataFile)>, ghost steps: seq<Option<Output>>, i: nat)
    returns (out: Option<Output>)
    requires i < |steps| == |inputs|
    requires forall k {:trigger ScriptFor(m, inputs[k].0, inputs[k].1)} :: 0 <= k < |inputs| ==>
      steps[k] == ScriptFor(m, inputs[k].0, inputs[k].1)
    ensures out == steps[i]
  {
    out := MakeScript(m, inputs[i].0, inputs[i].1);
  }

  /** One more successful step: its file joins those already written. */
  lemma CollectStep(steps: seq<Option<Output>>, paths: seq<Path>, i: nat, outputs: seq<Output>)
    requires |steps| == |paths| && i < |steps| && steps[i].Some?
    requires Collect(steps, paths, 0) == (outputs + Collect(steps, paths, i).0, Collect(steps, paths, i).1)
    ensures Collect(steps, paths, 0) == (outputs + [steps[i].value] + Collect(steps, paths, i + 1).0, Collect(steps, paths, i + 1).1)
  {
    var tail := Collect(steps, paths, i + 1);
    assert (outputs + [steps[i].value]) + tail.0 == outputs + ([steps[i].value] + tail.0);
  }

  /** A failing step: the run ends with the files already written and the failing path. */
  lemma CollectStop(steps: seq<Option<Output>>, paths: seq<Path>, i: nat, outputs: seq<Output>)
    requires |steps| == |paths| && i < |steps| && steps[i].None?
    requires Collect(steps, paths, 0) == (outputs + Collect(steps, paths, i).0, Collect(steps, paths, i).1)
    ensures Collect(steps, paths, 0) == (outputs, Some(EmptyName(paths[i])))
  {
    assert outputs + [] == outputs;
  }

  /** The steps from `i` on write the results of those before the first failing one, then stop with its path. */
  lemma {:induction false} CollectPrefix(steps: seq<Option<Output>>, paths: seq<Path>, i: nat)
    requires |steps| == |paths| && i <= |steps|
    requires forall k :: i <= k < |steps| ==> (steps[k].Some? <==> Nameable(paths[k]))
    ensures var (outs, err) := Collect(steps, paths, i);
      |outs| == Completed(paths[i..])
      && (err.Some? <==> i + |outs| < |steps|)
      && (err.Some? ==> err.value == EmptyName(paths[i + |outs|]))
    decreases |steps| - i
  {
    if i < |steps| {
      assert paths[i..][0] == paths[i];
      if steps[i].Some? {
        CollectPrefix(steps, paths, i + 1);
        assert paths[i..][1..] == paths[i + 1..];
      }
    }
  }

  /** Every path with a name has an output, and only those. */
  lemma ScriptsForNameable(m: Mode, inputs: seq<(Path, DataFile)>)
    ensures forall k :: 0 <= k < |inputs| ==> (ScriptsFor(m, inputs)[k].Some? <==> Nameable(PathsOf(inputs)[k]))
  {
    forall k | 0 <= k < |inputs|
      ensures ScriptsFor(m, inputs)[k].Some? <==> Nameable(PathsOf(inputs)[k])
    {
      ScriptsForAt(m, inputs, k);
    }
  }

  /**
   * With a known mode, `main` handles the paths in argument order until the
   * first one without a name, which is the one reported.
   */
  lemma RunStops(m: Mode, inputs: seq<(Path, DataFile)>)
    ensures var (outputs, error) := Run(m, inputs);
      |outputs| == Completed(PathsOf(inputs))
      && (error.Some? <==> |outputs| < |inputs|)
      && (error.Some? ==> error.value == EmptyName(inputs[|outputs|].0))
  {
    var paths := PathsOf(inputs);
    ScriptsForNameable(m, inputs);
    CollectPrefix(ScriptsFor(m, inputs), paths, 0);
    assert paths[0..] == paths;
  }

  /** Each file of a run of steps is the result of the step at its position. */
  lemma {:induction false} CollectAt(steps: seq<Option<Output>>, paths: seq<Path>, i: nat, k: nat)
    requires |steps| == |paths| && i <= |steps|
    requires k < |Collect(steps, paths, i).0|
    ensures i + k < |steps| && steps[i + k].Some? && Collect(steps, paths, i).0[k] == steps[i + k].value
    decreases |steps| - i
  {
    if k > 0 {
      CollectAt(steps, paths, i + 1, k - 1);
    }
  }

  /** The `k`-th file `main` writes is the script of the `k`-th path, in the `results` directory beside it. */
  lemma RunOutput(m: Mode, inputs: seq<(Path, DataFile)>, k: nat)
    requires k < |Run(m, inputs).0|
    ensures k < |inputs| && ScriptPath(inputs[k].0).Some?
    ensures Run(m, inputs).0[k] == Output(ScriptPath(inputs[k].0).value, ScriptText(m, inputs[k].1))
  {
    RunAt(m, inputs, k);
    ScriptsForAt(m, inputs, k);
    ScriptForValue(m, inputs[k].0, inputs[k].1);
  }

  /** The `k`-th file of a run is the output of the `k`-th path. */
  lemma RunAt(m: Mode, inputs: seq<(Path, DataFile)>, k: nat)
    requires k < |Run(m, inputs).0|
    ensures k < |inputs| && ScriptsFor(m, inputs)[k].Some?
    ensures Run(m, inputs).0[k] == ScriptsFor(m, inputs)[k].value
  {
    CollectAt(ScriptsFor(m, inputs), PathsOf(inputs), 0, k);
  }
}
