/**
 * The parts of `pathlib.PurePosixPath` the output-name rules use: `name`,
 * `stem`, `suffix`, `parent`, `/`, `with_name` and `with_suffix`, and the
 * output-name rules built from them.
 */
module Paths {
  import opened Wrappers
  import opened Text

  /** A path as pathlib stores it: whether it starts at the root, and its non-empty components. */
  datatype Path = Path(absolute: bool, parts: seq<string>)

  /** A component pathlib would keep: not empty, not ".", without '/'. */
  predicate ValidPart(s: string)
  {
    s != [] && s != "." && '/' !in s
  }

  predicate WellFormed(p: Path)
  {
    forall k :: 0 <= k < |p.parts| ==> ValidPart(p.parts[k])
  }

  /** `p.name`: the last component, or "" for "." and "/". */
  function Name(p: Path): string
  {
    if p.parts == [] then "" else p.parts[|p.parts| - 1]
  }

  /** `p.parent`: the path without its last component ("." and "/" are their own parent). */
  function Parent(p: Path): (r: Path)
    ensures r.absolute == p.absolute
    ensures WellFormed(p) ==> WellFormed(r)
  {
    if p.parts == [] then p else Path(p.absolute, p.parts[..|p.parts| - 1])
  }

  /** `p / name` for a single relative component. */
  function Child(p: Path, name: string): (r: Path)
    requires ValidPart(name)
    ensures Name(r) == name && Parent(r) == p
    ensures WellFormed(p) ==> WellFormed(r)
  {
    var r := Path(p.absolute, p.parts + [name]);
    assert r.parts[..|r.parts| - 1] == p.parts;
    r
  }

  /** Where the suffix of a name starts: the last '.', unless it is the first or the last character. */
  function SuffixStart(name: string): (i: nat)
    ensures i <= |name|
    ensures i < |name| ==> 0 < i < |name| - 1 && name[i] == '.' && '.' !in name[i + 1..]
  {
    var i := LastIndexOf(name, '.');
    if 0 < i < |name| - 1 then i else |name|
  }

  /** `PurePath.stem` of a name. */
  function Stem(name: string): string
  {
    name[..SuffixStart(name)]
  }

  /** `PurePath.suffix` of a name. */
  function Suffix(name: string): (r: string)
    ensures Stem(name) + r == name
    ensures r == [] || (r[0] == '.' && |r| >= 2 && '.' !in r[1..])
  {
    var i := SuffixStart(name);
    assert name[..i] + name[i..] == name;
    name[i..]
  }

  /** `p.with_name(name)`: `ValueError` (None) when `p` has no name or `name` is not a valid one. */
  function WithName(p: Path, name: string): (r: Option<Path>)
    ensures r.Some? <==> Name(p) != "" && ValidPart(name)
    ensures r.Some? ==> Name(r.value) == name && Parent(r.value) == Parent(p)
  {
    if Name(p) == "" || !ValidPart(name) then None
    else Some(Child(Parent(p), name))
  }

  /** A suffix `with_suffix` accepts: empty, or a '.' followed by at least one character. */
  predicate ValidSuffix(suffix: string)
  {
    '/' !in suffix && (suffix == [] || (suffix[0] == '.' && |suffix| >= 2))
  }

  /** `p.with_suffix(suffix)`: the name's suffix replaced, or added when it has none. */
  function WithSuffix(p: Path, suffix: string): (r: Option<Path>)
    ensures r.Some? <==> ValidSuffix(suffix) && Name(p) != "" && ValidPart(Stem(Name(p)) + suffix)
    ensures r.Some? ==> Parent(r.value) == Parent(p) && Name(r.value) == Stem(Name(p)) + suffix
  {
    if !ValidSuffix(suffix) || Name(p) == "" then None
    else WithName(p, Stem(Name(p)) + suffix)
  }

  // ---------------------------------------------------------------------------
  // Output names

  /** A name made of a non-empty base and a one-dot suffix splits back into the two. */
  lemma StemOfSuffixed(base: string, suffix: string)
    requires base != []
    requires |suffix| >= 2 && suffix[0] == '.' && '.' !in suffix[1..]
    ensures Stem(base + suffix) == base
    ensures Suffix(base + suffix) == suffix
  {
    var name := base + suffix;
    var n := |base|;
    assert name[n] == '.';
    assert forall k :: n < k < |name| ==> name[k] == suffix[k - n] && suffix[k - n] in suffix[1..];
    assert LastIndexOf(name, '.') == n;
    assert name[..n] == base;
  }

  /**
   * The rule of the three legacy scripts (pymol-color.py, moda-color.py,
   * consurf_color.py): `p.with_name(f'{p.stem}{tag}').with_suffix(suffix)`.
   */
  function LegacyExportPath(p: Path, tag: string, suffix: string): Option<Path>
  {
    match WithName(p, Stem(Name(p)) + tag)
    case None => None
    case Some(q) => WithSuffix(q, suffix)
  }

  /**
   * When the input's stem holds a dot after its first character, the tag
   * becomes part of a suffix and `with_suffix` cuts it off together with
   * everything after that dot: "run.v2.csv" gives "run.pml", not
   * "run.v2-coloring-script.pml".
   */
  lemma LegacyDottedStemLosesTag(p: Path, a: string, b: string, tag: string, suffix: string)
    requires WellFormed(p) && Name(p) != ""
    requires Stem(Name(p)) == a + "." + b && a != [] && '.' !in b
    requires tag != [] && '.' !in tag && '/' !in tag
    requires |suffix| >= 2 && suffix[0] == '.' && '/' !in suffix
    ensures LegacyExportPath(p, tag, suffix).Some?
    ensures Name(LegacyExportPath(p, tag, suffix).value) == a + suffix
  {
    var name := a + "." + b + tag;
    assert Stem(Name(p)) == Name(p)[..SuffixStart(Name(p))];
    assert '/' !in name by {
      assert forall k :: 0 <= k < |a + "." + b| ==> (a + "." + b)[k] == Name(p)[k];
      assert forall k :: 0 <= k < |name| ==> name[k] != '/' by {
        forall k | 0 <= k < |name| ensures name[k] != '/' {
          if k >= |a + "." + b| {
            assert name[k] == tag[k - |a + "." + b|];
          }
        }
      }
    }
    assert name != "." by { assert |name| > 1; }
    var n := |a|;
    assert name[n] == '.';
    assert forall k :: n < k < |name| ==> name[k] != '.' by {
      forall k | n < k < |name| ensures name[k] != '.' {
        if k < n + 1 + |b| {
          assert name[k] == b[k - n - 1];
        } else {
          assert name[k] == tag[k - n - 1 - |b|];
        }
      }
    }
    assert LastIndexOf(name, '.') == n;
    assert Stem(name) == a;
    var q := WithName(p, Stem(Name(p)) + tag);
    assert q.Some?;
    assert Name(q.value) == name;
    assert ValidPart(a + suffix) by {
      assert forall k :: 0 <= k < |a| ==> (a + suffix)[k] == Name(p)[k];
      assert forall k :: |a| <= k < |a + suffix| ==> (a + suffix)[k] == suffix[k - |a|];
    }
  }

  /** The input "run.v2.csv" of pymol-color.py gets the script name "run.pml". */
  lemma LegacyDottedStemExample()
    ensures LegacyExportPath(Path(false, ["run.v2.csv"]), "-coloring-script", ".pml") == Some(Path(false, ["run.pml"]))
  {
    var p := Path(false, ["run.v2.csv"]);
    ExampleInput();
    ExampleStem();
    ExampleTexts();
    LegacyDottedStemLosesTag(p, "run", "v2", "-coloring-script", ".pml");
    assert "run" + ".pml" == "run.pml";
  }

  lemma ExampleInput()
    ensures WellFormed(Path(false, ["run.v2.csv"])) && Name(Path(false, ["run.v2.csv"])) == "run.v2.csv"
  {
    assert ValidPart("run.v2.csv");
  }

  lemma ExampleStem()
    ensures Stem("run.v2.csv") == "run" + "." + "v2"
  {
    assert "run.v2.csv" == "run.v2" + ".csv";
    StemOfSuffixed("run.v2", ".csv");
  }

  lemma ExampleTexts()
    ensures '.' !in "v2" && '/' !in ".pml"
    ensures '.' !in "-coloring-script" && '/' !in "-coloring-script"
  {
  }

  /** The evidently intended legacy rule: the tag and the suffix appended to the full stem. */
  function ExportPath(p: Path, tag: string, suffix: string): (r: Option<Path>)
    ensures r.Some? <==> Name(p) != "" && ValidPart(Stem(Name(p)) + tag + suffix)
    ensures r.Some? ==> Parent(r.value) == Parent(p) && Name(r.value) == Stem(Name(p)) + tag + suffix
  {
    WithName(p, Stem(Name(p)) + tag + suffix)
  }

  /**
   * The intended rule keeps the whole input stem: the output's stem is the
   * input's stem followed by the tag, and its suffix is the requested one.
   */
  lemma ExportPathKeepsStem(p: Path, tag: string, suffix: string)
    requires tag != [] && '.' !in tag
    requires |suffix| >= 2 && suffix[0] == '.' && '.' !in suffix[1..]
    requires ExportPath(p, tag, suffix).Some?
    ensures Stem(Name(ExportPath(p, tag, suffix).value)) == Stem(Name(p)) + tag
    ensures Suffix(Name(ExportPath(p, tag, suffix).value)) == suffix
  {
    StemOfSuffixed(Stem(Name(p)) + tag, suffix);
  }

  /** Where the stem has no dot after its first character, the legacy rule gives the intended name. */
  lemma LegacyAgreesOnPlainStem(p: Path, tag: string, suffix: string)
    requires WellFormed(p) && Name(p) != ""
    requires forall k :: 0 < k < |Stem(Name(p))| ==> Stem(Name(p))[k] != '.'
    requires tag != [] && '.' !in tag && '/' !in tag
    requires |suffix| >= 2 && suffix[0] == '.' && '.' !in suffix[1..] && '/' !in suffix
    ensures LegacyExportPath(p, tag, suffix) == ExportPath(p, tag, suffix)
  {
    var stem := Stem(Name(p));
    assert forall k :: 0 <= k < |stem| ==> stem[k] == Name(p)[k];
    assert '/' !in stem;
    PlainStemTagged(stem, tag, suffix);
    assert stem + tag + suffix == (stem + tag) + suffix;
  }

  /** Without a dot inside the stem, the legacy rule names the output `<stem><tag><suffix>`, beside the input. */
  lemma LegacyPlainName(p: Path, tag: string, suffix: string)
    requires WellFormed(p) && Name(p) != ""
    requires forall k :: 0 < k < |Stem(Name(p))| ==> Stem(Name(p))[k] != '.'
    requires tag != [] && '.' !in tag && '/' !in tag
    requires |suffix| >= 2 && suffix[0] == '.' && '.' !in suffix[1..] && '/' !in suffix
    ensures LegacyExportPath(p, tag, suffix).Some?
    ensures Parent(LegacyExportPath(p, tag, suffix).value) == Parent(p)
    ensures Name(LegacyExportPath(p, tag, suffix).value) == Stem(Name(p)) + tag + suffix
  {
    var stem := Stem(Name(p));
    assert forall k :: 0 <= k < |stem| ==> stem[k] == Name(p)[k];
    PlainStemTagged(stem, tag, suffix);
    LegacyAgreesOnPlainStem(p, tag, suffix);
  }

  /** pymol-color.py: `<stem>-coloring-script.pml`. */
  const PYMOL_COLOR_TAG: string := "-coloring-script"
  const PYMOL_COLOR_SUFFIX: string := ".pml"
  /** moda-color.py: `<stem>-moda-coloring-script.py`. */
  const MODA_COLOR_TAG: string := "-moda-coloring-script"
  const MODA_COLOR_SUFFIX: string := ".py"
  /** consurf_color.py: `<stem>-consurf-coloring-script.py`. */
  const CONSURF_COLOR_TAG: string := "-consurf-coloring-script"
  const CONSURF_COLOR_SUFFIX: string := ".py"

  lemma PymolColorNamePlain()
    ensures '.' !in PYMOL_COLOR_TAG && '/' !in PYMOL_COLOR_TAG
    ensures '.' !in PYMOL_COLOR_SUFFIX[1..] && '/' !in PYMOL_COLOR_SUFFIX
  {
  }

  lemma ModaColorNamePlain()
    ensures '.' !in MODA_COLOR_TAG && '/' !in MODA_COLOR_TAG
    ensures '.' !in MODA_COLOR_SUFFIX[1..] && '/' !in MODA_COLOR_SUFFIX
  {
  }

  lemma ConsurfColorNamePlain()
    ensures '.' !in CONSURF_COLOR_TAG && '/' !in CONSURF_COLOR_TAG
    ensures '.' !in CONSURF_COLOR_SUFFIX[1..] && '/' !in CONSURF_COLOR_SUFFIX
  {
  }

  /** The script of pymol-color.py for a plain stem: `<stem>-coloring-script.pml` beside the input. */
  lemma PymolColorExportName(p: Path)
    requires WellFormed(p) && Name(p) != ""
    requires forall k :: 0 < k < |Stem(Name(p))| ==> Stem(Name(p))[k] != '.'
    ensures LegacyExportPath(p, PYMOL_COLOR_TAG, PYMOL_COLOR_SUFFIX).Some?
    ensures Parent(LegacyExportPath(p, PYMOL_COLOR_TAG, PYMOL_COLOR_SUFFIX).value) == Parent(p)
    ensures Name(LegacyExportPath(p, PYMOL_COLOR_TAG, PYMOL_COLOR_SUFFIX).value)
      == Stem(Name(p)) + "-coloring-script" + ".pml"
  {
    PymolColorNamePlain();
    LegacyPlainName(p, PYMOL_COLOR_TAG, PYMOL_COLOR_SUFFIX);
  }

  /** The script of moda-color.py for a plain stem: `<stem>-moda-coloring-script.py` beside the input. */
  lemma ModaColorExportName(p: Path)
    requires WellFormed(p) && Name(p) != ""
    requires forall k :: 0 < k < |Stem(Name(p))| ==> Stem(Name(p))[k] != '.'
    ensures LegacyExportPath(p, MODA_COLOR_TAG, MODA_COLOR_SUFFIX).Some?
    ensures Parent(LegacyExportPath(p, MODA_COLOR_TAG, MODA_COLOR_SUFFIX).value) == Parent(p)
    ensures Name(LegacyExportPath(p, MODA_COLOR_TAG, MODA_COLOR_SUFFIX).value)
      == Stem(Name(p)) + "-moda-coloring-script" + ".py"
  {
    ModaColorNamePlain();
    LegacyPlainName(p, MODA_COLOR_TAG, MODA_COLOR_SUFFIX);
  }

  /** The script of consurf_color.py for a plain stem: `<stem>-consurf-coloring-script.py` beside the input. */
  lemma ConsurfColorExportName(p: Path)
    requires WellFormed(p) && Name(p) != ""
    requires forall k :: 0 < k < |Stem(Name(p))| ==> Stem(Name(p))[k] != '.'
    ensures LegacyExportPath(p, CONSURF_COLOR_TAG, CONSURF_COLOR_SUFFIX).Some?
    ensures Parent(LegacyExportPath(p, CONSURF_COLOR_TAG, CONSURF_COLOR_SUFFIX).value) == Parent(p)
    ensures Name(LegacyExportPath(p, CONSURF_COLOR_TAG, CONSURF_COLOR_SUFFIX).value)
      == Stem(Name(p)) + "-consurf-coloring-script" + ".py"
  {
    ConsurfColorNamePlain();
    LegacyPlainName(p, CONSURF_COLOR_TAG, CONSURF_COLOR_SUFFIX);
  }

  /** A stem without an inner dot, followed by a dot-free tag, is its own stem; with a suffix it is a valid name. */
  lemma PlainStemTagged(stem: string, tag: string, suffix: string)
    requires '/' !in stem && forall k :: 0 < k < |stem| ==> stem[k] != '.'
    requires tag != [] && '.' !in tag && '/' !in tag
    requires |suffix| >= 2 && '/' !in suffix
    ensures ValidPart(stem + tag) && Stem(stem + tag) == stem + tag
    ensures ValidPart(stem + tag + suffix)
  {
    var name := stem + tag;
    forall k | 0 <= k < |name| ensures name[k] != '/' && (k > 0 ==> name[k] != '.') {
      if k >= |stem| {
        assert name[k] == tag[k - |stem|];
      }
    }
    assert name[|name| - 1] == tag[|tag| - 1];
    assert SuffixStart(name) == |name|;
    forall k | 0 <= k < |name + suffix| ensures (name + suffix)[k] != '/' {
      if k >= |name| {
        assert (name + suffix)[k] == suffix[k - |name|];
      }
    }
  }

  // ---------------------------------------------------------------------------
  // `make_script` in main.py and src/main.py

  const RESULTS: string := "results"
  const SCRIPT_TAIL: string := "-coloring-script.pml"

  /**
   * `make_script`'s output file: `<stem>-coloring-script.pml` inside a
   * `results` directory beside the input; `with_name` raises (None) for a path
   * without a name ("", "." or "/").
   */
  function ScriptPath(p: Path): Option<Path>
  {
    if Name(p) == "" then None
    else Some(Path(p.absolute, Parent(p).parts + [RESULTS, Stem(Name(p)) + SCRIPT_TAIL]))
  }

  /**
   * The output file exists exactly for paths with a name; it is a well-formed
   * path named after the input's stem, whose parent is `results` under the
   * input's parent.
   */
  lemma ScriptPathName(p: Path)
    requires WellFormed(p)
    ensures ScriptPath(p).Some? <==> Name(p) != ""
    ensures ScriptPath(p).Some? ==>
      var r := ScriptPath(p).value;
      WellFormed(r) && Name(r) == Stem(Name(p)) + SCRIPT_TAIL
      && Parent(r) == Child(Parent(p), RESULTS) && Name(Parent(r)) == RESULTS
  {
    assert ValidPart(RESULTS);
    if Name(p) != "" {
      var stem := Stem(Name(p));
      var name := stem + SCRIPT_TAIL;
      assert forall k :: 0 <= k < |stem| ==> stem[k] == Name(p)[k];
      assert '/' !in SCRIPT_TAIL;
      assert forall k :: 0 <= k < |name| ==> name[k] != '/' by {
        forall k | 0 <= k < |name| ensures name[k] != '/' {
          if k >= |stem| { assert name[k] == SCRIPT_TAIL[k - |stem|]; }
        }
      }
      assert |name| > 1;
      assert ValidPart(name);
      var r := ScriptPath(p).value;
      assert r == Child(Child(Parent(p), RESULTS), name);
    }
  }
}
