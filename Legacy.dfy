/**
 * The first generation: pymol-color.py, moda-color.py and consurf_color.py.
 * Scores are binned into a fixed list of bins, every bin is written even
 * when empty, and the script starts with a bare `gray80` line.
 */
module Legacy {
  import opened Wrappers
  import opened Text
  import opened Binning
  import opened Adapters

  /** One entry of the `zip(names, residue_numbers, colors)` a binning function returns. */
  datatype Bin = Bin(name: string, residues: string, color: string)

  /** A cell of a one-column frame or series: the index (residue number) and the value. */
  datatype Cell = Cell(index: int, value: Option<string>)

  /** The index values of the cells whose value equals `name`, in row order. */
  function Selected(series: seq<Cell>, name: string): (r: seq<int>)
    ensures |r| <= |series|
  {
    if series == [] then []
    else if series[0].value == Some(name) then [series[0].index] + Selected(series[1..], name)
    else Selected(series[1..], name)
  }

  lemma {:induction false} SelectedExact(series: seq<Cell>, name: string, x: int)
    ensures x in Selected(series, name) <==>
      exists k :: 0 <= k < |series| && series[k].value == Some(name) && series[k].index == x
  {
    if series != [] {
      SelectedExact(series[1..], name, x);
      if exists k :: 0 <= k < |series| && series[k].value == Some(name) && series[k].index == x {
        var k :| 0 <= k < |series| && series[k].value == Some(name) && series[k].index == x;
        if k > 0 { assert series[1..][k - 1] == series[k]; }
      }
      if exists k :: 0 <= k < |series[1..]| && series[1..][k].value == Some(name) && series[1..][k].index == x {
        var k :| 0 <= k < |series[1..]| && series[1..][k].value == Some(name) && series[1..][k].index == x;
        assert series[k + 1] == series[1..][k];
      }
    }
  }

  function IndexTexts(indices: seq<int>): (r: seq<string>)
    ensures |r| == |indices|
    ensures forall k :: 0 <= k < |indices| ==> r[k] == IntToString(indices[k])
  {
    seq(|indices|, k requires 0 <= k < |indices| => IntToString(indices[k]))
  }

  /** `get_residues`: the matching index values as text, joined by '+'. */
  function GetResidues(series: seq<Cell>, name: string): (r: string)
    ensures r == "" <==> Selected(series, name) == []
  {
    var texts := IndexTexts(Selected(series, name));
    if texts == [] then ""
    else
      JoinStartsWithFirst(texts, "+");
      Join(texts, "+")
  }

  lemma {:induction false} JoinStartsWithFirst(parts: seq<string>, sep: string)
    requires parts != []
    ensures |Join(parts, sep)| >= |parts[0]| && Join(parts, sep)[..|parts[0]|] == parts[0]
  {
    if |parts| > 1 {
      assert Join(parts, sep) == parts[0] + (sep + Join(parts[1..], sep));
    }
  }

  /** A non-empty residue list splits back into the matching residue numbers, in row order. */
  lemma GetResiduesReadsBack(series: seq<Cell>, name: string)
    requires GetResidues(series, name) != ""
    ensures Split(GetResidues(series, name), '+') == IndexTexts(Selected(series, name))
  {
    var texts := IndexTexts(Selected(series, name));
    SplitJoin(texts, '+');
  }

  // ---------------------------------------------------------------------------
  // MODA: `pd.cut` over the intervals (50, 100], (100, 1000], (1000, inf)

  const LEGACY_MODA_EDGES: seq<real> := [50.0, 100.0, 1000.0]
  const LEGACY_MODA_NAMES: seq<string> := ["medium", "high", "very_high"]
  const LEGACY_MODA_COLORS: seq<string> := ["yelloworange", "tv_orange", "firebrick"]

  /** `pd.cut(score, bins).map(dict(zip(bins, bin_names)))` on one score. */
  function LegacyModaBin(score: Option<real>): (r: Option<string>)
    ensures r.Some? <==> score.Some? && score.value > 50.0
    ensures r.Some? ==> r.value in LEGACY_MODA_NAMES
  {
    assert Increasing(LEGACY_MODA_EDGES);
    match Cut(LEGACY_MODA_EDGES, score, false)
    case None => None
    case Some(i) => Some(LEGACY_MODA_NAMES[i])
  }

  /** The three bins are right-closed and there is none at or below 50. */
  lemma LegacyModaBinIntervals(x: real)
    ensures LegacyModaBin(Some(x)) == Some("medium") <==> 50.0 < x <= 100.0
    ensures LegacyModaBin(Some(x)) == Some("high") <==> 100.0 < x <= 1000.0
    ensures LegacyModaBin(Some(x)) == Some("very_high") <==> 1000.0 < x
    ensures LegacyModaBin(Some(x)) == None <==> x <= 50.0
  {
    assert Increasing(LEGACY_MODA_EDGES);
    var c := Cut(LEGACY_MODA_EDGES, Some(x), false);
    if c.Some? {
      assert InBin(LEGACY_MODA_EDGES, c.value, x, false);
    } else {
      assert !InBin(LEGACY_MODA_EDGES, 0, x, false);
    }
  }

  /** The binned series, indexed by residue number (`index_col=['num']`). */
  function ModaSeries(rows: seq<ModaRow>): (r: seq<Cell>)
    ensures |r| == |rows|
    ensures forall k :: 0 <= k < |rows| ==> r[k] == Cell(rows[k].num, LegacyModaBin(rows[k].plainModa))
  {
    seq(|rows|, k requires 0 <= k < |rows| => Cell(rows[k].num, LegacyModaBin(rows[k].plainModa)))
  }

  /** `bin_moda` (pymol-color.py) and `get_bins` (moda-color.py): the three bins in fixed order. */
  function ModaBins(rows: seq<ModaRow>): (bins: seq<Bin>)
    ensures |bins| == |LEGACY_MODA_NAMES|
    ensures forall j :: 0 <= j < |bins| ==>
      bins[j] == Bin(LEGACY_MODA_NAMES[j], GetResidues(ModaSeries(rows), LEGACY_MODA_NAMES[j]), LEGACY_MODA_COLORS[j])
  {
    var series := ModaSeries(rows);
    seq(|LEGACY_MODA_NAMES|, j requires 0 <= j < |LEGACY_MODA_NAMES| =>
      Bin(LEGACY_MODA_NAMES[j], GetResidues(series, LEGACY_MODA_NAMES[j]), LEGACY_MODA_COLORS[j]))
  }

  /**
   * A residue number is selected by MODA bin `j` exactly when some row with
   * that number has a score in bin `j`; a row scored 50 or less, or without a
   * score, is selected by no bin.
   */
  lemma ModaBinSelects(rows: seq<ModaRow>, j: nat, x: int)
    requires j < |LEGACY_MODA_NAMES|
    ensures x in Selected(ModaSeries(rows), LEGACY_MODA_NAMES[j]) <==>
      exists k :: 0 <= k < |rows| && rows[k].num == x && LegacyModaBin(rows[k].plainModa) == Some(LEGACY_MODA_NAMES[j])
  {
    var series := ModaSeries(rows);
    SelectedExact(series, LEGACY_MODA_NAMES[j], x);
    forall k | 0 <= k < |rows|
      ensures (series[k].value == Some(LEGACY_MODA_NAMES[j]) && series[k].index == x) <==>
        (rows[k].num == x && LegacyModaBin(rows[k].plainModa) == Some(LEGACY_MODA_NAMES[j]))
    {
    }
  }

  /** No row is selected by two MODA bins. */
  lemma ModaBinsDisjoint(rows: seq<ModaRow>, k: nat, i: nat, j: nat)
    requires k < |rows| && i < |LEGACY_MODA_NAMES| && j < |LEGACY_MODA_NAMES|
    requires LegacyModaBin(rows[k].plainModa) == Some(LEGACY_MODA_NAMES[i])
    requires LegacyModaBin(rows[k].plainModa) == Some(LEGACY_MODA_NAMES[j])
    ensures i == j
  {
  }

  // ---------------------------------------------------------------------------
  // ConSurf: the grade column, stripped of '*' in place, then nine bins

  /** The frame `read_csv(..., index_col=['pos'])` gives: positions and their grade cells. */
  class ConsurfFrame {
    var positions: seq<int>
    var grades: seq<Option<string>>

    predicate Valid()
      reads this
    {
      |positions| == |grades|
    }

    constructor (rows: seq<ConsurfRow>)
      ensures Valid()
      ensures |positions| == |rows|
      ensures forall k :: 0 <= k < |rows| ==> positions[k] == rows[k].pos && grades[k] == rows[k].grade
    {
      positions := seq(|rows|, k requires 0 <= k < |rows| => rows[k].pos);
      grades := seq(|rows|, k requires 0 <= k < |rows| => rows[k].grade);
    }

    /** `data['ConSurf Grade'] = data['ConSurf Grade'].str.replace('*', '')`. */
    method StripGradeMarkers()
      requires Valid()
      modifies this
      ensures Valid()
      ensures positions == old(positions)
      ensures |grades| == |old(grades)|
      ensures forall k :: 0 <= k < |grades| ==> grades[k] == StripMarkers(old(grades)[k])
    {
      var i := 0;
      var stripped: seq<Option<string>> := [];
      while i < |grades|
        invariant 0 <= i <= |grades|
        invariant |stripped| == i
        invariant forall k :: 0 <= k < i ==> stripped[k] == StripMarkers(grades[k])
      {
        stripped := stripped + [StripMarkers(grades[i])];
        i := i + 1;
      }
      grades := stripped;
    }

    /** The frame as the cells `get_residues` compares. */
    function Cells(): (r: seq<Cell>)
      requires Valid()
      reads this
      ensures |r| == |positions|
      ensures forall k :: 0 <= k < |r| ==> r[k] == Cell(positions[k], grades[k])
    {
      var ps, gs := positions, grades;
      seq(|ps|, k requires 0 <= k < |ps| && k < |gs| => Cell(ps[k], gs[k]))
    }
  }

  /** The cells of a ConSurf table after every '*' is removed from the grades. */
  function StrippedCells(rows: seq<ConsurfRow>): (r: seq<Cell>)
    ensures |r| == |rows|
    ensures forall k :: 0 <= k < |rows| ==> r[k] == Cell(rows[k].pos, StripMarkers(rows[k].grade))
  {
    seq(|rows|, k requires 0 <= k < |rows| => Cell(rows[k].pos, StripMarkers(rows[k].grade)))
  }

  /** consurf_color.py `import_data`: the frame read from the rows, its grades stripped of '*'. */
  method ImportData(rows: seq<ConsurfRow>) returns (frame: ConsurfFrame)
    ensures fresh(frame) && frame.Valid()
    ensures frame.Cells() == StrippedCells(rows)
  {
    frame := new ConsurfFrame(rows);
    frame.StripGradeMarkers();
    assert |frame.Cells()| == |StrippedCells(rows)|;
    assert forall k :: 0 <= k < |rows| ==> frame.Cells()[k] == StrippedCells(rows)[k];
  }

  /** `get_bins` (consurf_color.py): the nine grades in order, each with its colour. */
  function ConsurfBins(series: seq<Cell>): (bins: seq<Bin>)
    ensures |bins| == |GRADES|
    ensures forall j :: 0 <= j < |bins| ==> bins[j] == Bin(GRADES[j], GetResidues(series, GRADES[j]), CONSURF_COLORS[j])
  {
    seq(|GRADES|, j requires 0 <= j < |GRADES| => Bin(GRADES[j], GetResidues(series, GRADES[j]), CONSURF_COLORS[j]))
  }

  /** pymol-color.py `bin_consurf`: strip the grade column in place, then the nine bins. */
  method BinConsurf(rows: seq<ConsurfRow>) returns (bins: seq<Bin>)
    ensures bins == ConsurfBins(StrippedCells(rows))
  {
    var frame := new ConsurfFrame(rows);
    frame.StripGradeMarkers();
    assert |frame.Cells()| == |StrippedCells(rows)|;
    assert forall k :: 0 <= k < |rows| ==> frame.Cells()[k] == StrippedCells(rows)[k];
    assert frame.Cells() == StrippedCells(rows);
    bins := ConsurfBins(frame.Cells());
  }

  /**
   * A position is in ConSurf bin `j` exactly when one of its rows has a grade
   * that reads `GRADES[j]` once every '*' is removed ("5*" counts as 5); a
   * grade that reads as none of "1".."9" puts its row in no bin.
   */
  lemma ConsurfBinSelects(rows: seq<ConsurfRow>, j: nat, x: int)
    requires j < |GRADES|
    ensures x in Selected(StrippedCells(rows), GRADES[j]) <==>
      exists k :: 0 <= k < |rows| && rows[k].pos == x && rows[k].grade.Some?
        && RemoveChar(rows[k].grade.value, '*') == GRADES[j]
  {
    var series := StrippedCells(rows);
    SelectedExact(series, GRADES[j], x);
    forall k | 0 <= k < |rows|
      ensures (series[k].value == Some(GRADES[j]) && series[k].index == x) <==>
        (rows[k].pos == x && rows[k].grade.Some? && RemoveChar(rows[k].grade.value, '*') == GRADES[j])
    {
    }
  }

  // ---------------------------------------------------------------------------
  // `generate_pymol_script`

  const LEGACY_HEADER: string := "gray80"
  const LEGACY_TRAILER: seq<string> := ["show surface", "set transparency, 0.2", "bg_color white"]

  function BinSelectLine(b: Bin): string
  {
    "select " + b.name + ", resi " + b.residues
  }

  function BinColorLine(b: Bin): string
  {
    "color " + b.color + ", " + b.name
  }

  function BinLines(bins: seq<Bin>): (lines: seq<string>)
    ensures |lines| == 2 * |bins|
    ensures forall i :: 0 <= i < |bins| ==>
      lines[2 * i] == BinSelectLine(bins[i]) && lines[2 * i + 1] == BinColorLine(bins[i])
  {
    if bins == [] then []
    else
      var rest := BinLines(bins[1..]);
      assert forall i :: 1 <= i < |bins| ==> bins[i] == bins[1..][i - 1];
      [BinSelectLine(bins[0]), BinColorLine(bins[0])] + rest
  }

  lemma {:induction false} BinLinesAppend(bins: seq<Bin>, b: Bin)
    ensures BinLines(bins + [b]) == BinLines(bins) + [BinSelectLine(b), BinColorLine(b)]
  {
    if bins != [] {
      assert (bins + [b])[1..] == bins[1..] + [b];
      BinLinesAppend(bins[1..], b);
    }
  }

  /** The lines of a legacy script: the bare default colour, two lines per bin, the fixed trailer. */
  function LegacyLines(bins: seq<Bin>): seq<string>
  {
    [LEGACY_HEADER] + BinLines(bins) + LEGACY_TRAILER
  }

  /** Two more lines, each with its newline. */
  lemma TerminatedPlusTwo(lines: seq<string>, a: string, b: string)
    ensures Terminated(lines + [a, b]) == Terminated(lines) + a + "\n" + b + "\n"
  {
    TerminatedAppend(lines, [a, b]);
    assert [a, b][1..] == [b];
    assert Terminated([b]) == b + "\n" + Terminated([]);
  }

  /** `generate_pymol_script`: `output_string` grown line by line, every line newline-terminated. */
  method GeneratePymolScript(bins: seq<Bin>) returns (text: string)
    ensures text == Terminated(LegacyLines(bins))
  {
    text := LEGACY_HEADER + "\n";
    assert bins[..0] == [];
    assert Terminated([LEGACY_HEADER]) == LEGACY_HEADER + "\n" + Terminated([]);
    var i := 0;
    while i < |bins|
      invariant 0 <= i <= |bins|
      invariant text == Terminated([LEGACY_HEADER] + BinLines(bins[..i]))
    {
      var select, color := BinSelectLine(bins[i]), BinColorLine(bins[i]);
      BinLinesAppend(bins[..i], bins[i]);
      assert bins[..i + 1] == bins[..i] + [bins[i]];
      assert [LEGACY_HEADER] + BinLines(bins[..i + 1]) == ([LEGACY_HEADER] + BinLines(bins[..i])) + [select, color];
      TerminatedPlusTwo([LEGACY_HEADER] + BinLines(bins[..i]), select, color);
      text := text + select + "\n";
      text := text + color + "\n";
      i := i + 1;
    }
    assert bins[..i] == bins;
    var body := [LEGACY_HEADER] + BinLines(bins);
    TerminatedPlusTwo(body, LEGACY_TRAILER[0], LEGACY_TRAILER[1]);
    text := text + LEGACY_TRAILER[0] + "\n";
    text := text + LEGACY_TRAILER[1] + "\n";
    TerminatedAppend(body + [LEGACY_TRAILER[0], LEGACY_TRAILER[1]], [LEGACY_TRAILER[2]]);
    assert Terminated([LEGACY_TRAILER[2]]) == LEGACY_TRAILER[2] + "\n" + Terminated([]);
    assert body + [LEGACY_TRAILER[0], LEGACY_TRAILER[1]] + [LEGACY_TRAILER[2]] == LegacyLines(bins);
    text := text + LEGACY_TRAILER[2] + "\n";
  }

  predicate SingleLineBins(bins: seq<Bin>)
  {
    forall i :: 0 <= i < |bins| ==> '\n' !in bins[i].name && '\n' !in bins[i].residues && '\n' !in bins[i].color
  }

  lemma LegacyFixedLinesSingle()
    ensures '\n' !in LEGACY_HEADER
    ensures forall k :: 0 <= k < |LEGACY_TRAILER| ==> '\n' !in LEGACY_TRAILER[k]
    ensures '\n' !in "select " && '\n' !in ", resi " && '\n' !in "color " && '\n' !in ", "
  {
  }

  /**
   * A legacy script reads back as `gray80`, two lines per bin and the three
   * fixed lines, each ended by a newline: 2 * bins + 4 lines, then nothing.
   */
  lemma LegacyScriptReadsBack(bins: seq<Bin>)
    requires SingleLineBins(bins)
    ensures Split(Terminated(LegacyLines(bins)), '\n') == LegacyLines(bins) + [""]
    ensures |LegacyLines(bins)| == 2 * |bins| + 4
  {
    var lines := LegacyLines(bins);
    var body := BinLines(bins);
    LegacyFixedLinesSingle();
    forall k | 0 <= k < |body| ensures '\n' !in body[k] {
      var i := k / 2;
      if k == 2 * i {
        assert body[k] == BinSelectLine(bins[i]);
      } else {
        assert body[k] == BinColorLine(bins[i]);
      }
    }
    assert lines == [LEGACY_HEADER] + body + LEGACY_TRAILER;
    forall k | 0 <= k < |lines| ensures '\n' !in lines[k] {
      if 1 <= k <= |body| {
        assert lines[k] == body[k - 1];
      } else if k > |body| {
        assert lines[k] == LEGACY_TRAILER[k - 1 - |body|];
      }
    }
    TerminatedThenLast(lines, "");
    assert Terminated(lines) + "" == Terminated(lines);
    SplitJoin(lines + [""], '\n');
  }

  /** An empty bin still gets its `select` line, with an empty residue list. */
  lemma EmptyBinStillSelected(series: seq<Cell>, name: string, color: string)
    requires forall k :: 0 <= k < |series| ==> series[k].value != Some(name)
    ensures BinSelectLine(Bin(name, GetResidues(series, name), color)) == "select " + name + ", resi "
  {
    assert Selected(series, name) == [] by {
      if Selected(series, name) != [] {
        var x := Selected(series, name)[0];
        SelectedExact(series, name, x);
      }
    }
  }
}
