/**
 * The mode table (`FUNCTION_MAP`) and the mode check of `color_by_score`
 * (src/extension.py), with the groupings each mode leads to. A data file is
 * abstracted as the rows each adapter would read from it.
 */
module Extension {
  import opened Wrappers
  import opened Text
  import opened Adapters
  import opened Grouping

  datatype Mode = Moda | Consurf | Gnomad | Custom

  /** The keys of `FUNCTION_MAP`, in insertion order. */
  const MODE_KEYS: seq<string> := ["moda", "consurf", "gnomad", "custom"]

  /** The message of the `ValueError` raised for an unknown mode. */
  const MODE_ERROR: string := "mode must be one of dict_keys(['moda', 'consurf', 'gnomad', 'custom'])"

  function ModeName(m: Mode): (s: string)
    ensures s in MODE_KEYS
  {
    match m
    case Moda => "moda"
    case Consurf => "consurf"
    case Gnomad => "gnomad"
    case Custom => "custom"
  }

  /** `mode in FUNCTION_MAP`, and the entry it selects. */
  function ParseMode(s: string): (r: Option<Mode>)
    ensures r.Some? <==> s in MODE_KEYS
    ensures r.Some? ==> ModeName(r.value) == s
  {
    if s == "moda" then Some(Moda)
    else if s == "consurf" then Some(Consurf)
    else if s == "gnomad" then Some(Gnomad)
    else if s == "custom" then Some(Custom)
    else None
  }

  lemma ParseModeName(m: Mode)
    ensures ParseMode(ModeName(m)) == Some(m)
  {
  }

  /** The rows a data file yields under each adapter's column selection. */
  datatype DataFile = DataFile(
    moda: seq<ModaRow>, consurf: seq<ConsurfRow>, gnomad: seq<GnomadRow>, custom: seq<CustomRow>)

  /** `FUNCTION_MAP[mode](path)`. */
  function Import(m: Mode, data: DataFile): seq<Record>
  {
    match m
    case Moda => ImportModa(data.moda)
    case Consurf => ImportConsurf(data.consurf)
    case Gnomad => ImportGnomad(data.gnomad)
    case Custom => ImportCustom(data.custom)
  }

  /**
   * How `sort_index` orders each mode's category level: `pd.cut` and
   * `set_categories(ordered=True)` give ordered categoricals, the others are
   * plain strings.
   */
  function OrderOf(m: Mode): CategoryOrder
  {
    match m
    case Moda => Categories(MODA_LABELS)
    case Consurf => Lexical
    case Gnomad => Categories(GNOMAD_LABELS)
    case Custom => Lexical
  }

  /** `import_func(data_path).pipe(bin_residues)`. */
  function Groupings(m: Mode, data: DataFile): seq<Group>
  {
    BinResidues(Import(m, data), OrderOf(m))
  }

  /**
   * The part of `color_by_score` before its viewer calls: an unknown mode
   * raises `ValueError`, a known one yields the groupings to colour.
   */
  function ColorByScore(mode: string, data: DataFile): (r: Result<seq<Group>, string>)
    ensures r.Failure? <==> mode !in MODE_KEYS
    ensures r.Failure? ==> r.error == MODE_ERROR
    ensures r.Success? ==> exists m :: ModeName(m) == mode && r.value == Groupings(m, data)
  {
    match ParseMode(mode)
    case None => Failure(MODE_ERROR)
    case Some(m) => Success(Groupings(m, data))
  }

  /** The mode is checked before any data is read: an unknown mode fails the same way on every file. */
  lemma UnknownModeIgnoresData(mode: string, a: DataFile, b: DataFile)
    requires mode !in MODE_KEYS
    ensures ColorByScore(mode, a) == ColorByScore(mode, b) == Failure(MODE_ERROR)
  {
  }

  // ---------------------------------------------------------------------------
  // What the groupings of each mode look like

  /** MODA groups follow low < medium < high < very_high, one per category, in its fixed colour. */
  lemma ModaGroupsInOrder(data: DataFile)
    ensures var groups := Groupings(Moda, data);
      forall i :: 0 <= i < |groups| ==>
        groups[i].category in MODA_LABELS && groups[i].color == MODA_COLORS[Position(MODA_LABELS, groups[i].category)]
    ensures var groups := Groupings(Moda, data);
      forall i, j :: 0 <= i < j < |groups| ==>
        Position(MODA_LABELS, groups[i].category) < Position(MODA_LABELS, groups[j].category)
  {
    var recs := ImportModa(data.moda);
    forall k | 0 <= k < |recs| && Complete(recs[k])
      ensures recs[k].category.value in MODA_LABELS
      ensures recs[k].color.value == MODA_COLORS[Position(MODA_LABELS, recs[k].category.value)]
    {
      assert recs[k] == ModaRecord(data.moda[k]);
    }
    VocabularyGroups(recs, MODA_LABELS, MODA_COLORS);
  }

  /**
   * A residue is in a MODA group exactly when some row with that residue number
   * falls in the group's bin; rows whose score is missing or negative fall in
   * none (`ModaLabel`), so they never reach a group.
   */
  lemma ModaMembers(data: DataFile, i: nat, x: string)
    requires i < |Groupings(Moda, data)|
    ensures var g := Groupings(Moda, data)[i];
      x in g.residues <==>
        exists k :: 0 <= k < |data.moda| && ModaLabel(data.moda[k].plainModa) == Some(g.category)
          && IntToString(data.moda[k].num) == x
  {
    var recs := ImportModa(data.moda);
    var groups := Groupings(Moda, data);
    var p := PairsOf(groups)[i];
    ModaGroupsInOrder(data);
    MembersExact(recs, p, x);
    forall k | 0 <= k < |recs|
      ensures (Complete(recs[k]) && PairOf(recs[k]) == p && recs[k].residue == x) <==>
        (ModaLabel(data.moda[k].plainModa) == Some(groups[i].category) && IntToString(data.moda[k].num) == x)
    {
      assert recs[k] == ModaRecord(data.moda[k]);
    }
  }

  /** The grades as strings sort like the numbers 1..9. */
  lemma GradesInStringOrder(a: nat, b: nat)
    requires a < b < |GRADES|
    ensures LexLess(GRADES[a], GRADES[b])
  {
  }

  /** ConSurf groups come out in grade order 1..9, one per grade, each in its palette colour. */
  lemma ConsurfGroupsInOrder(data: DataFile)
    ensures var groups := Groupings(Consurf, data);
      forall i :: 0 <= i < |groups| ==>
        groups[i].category in GRADES && groups[i].color == CONSURF_COLORS[Position(GRADES, groups[i].category)]
    ensures var groups := Groupings(Consurf, data);
      forall i, j :: 0 <= i < j < |groups| ==>
        Position(GRADES, groups[i].category) < Position(GRADES, groups[j].category)
  {
    var recs := ImportConsurf(data.consurf);
    var groups := Groupings(Consurf, data);
    var ps := PairsOf(groups);
    forall i | 0 <= i < |groups|
      ensures groups[i].category in GRADES && groups[i].color == CONSURF_COLORS[Position(GRADES, groups[i].category)]
    {
      assert ps[i] in Occurring(recs);
      ConsurfPair(data.consurf, ps[i]);
    }
    forall i, j | 0 <= i < j < |groups|
      ensures Position(GRADES, groups[i].category) < Position(GRADES, groups[j].category)
    {
      assert Before(Lexical, ps[i], ps[j]);
      ConsurfPair(data.consurf, ps[i]);
      ConsurfPair(data.consurf, ps[j]);
      GradePairsInOrder(ps[i], ps[j]);
    }
  }

  /** A pair of ConSurf records is a grade with its palette colour. */
  lemma ConsurfPair(rows: seq<ConsurfRow>, p: Pair)
    requires p in Occurring(ImportConsurf(rows))
    ensures p.category in GRADES && p.color == CONSURF_COLORS[Position(GRADES, p.category)]
  {
    var recs := ImportConsurf(rows);
    var k :| 0 <= k < |recs| && Complete(recs[k]) && PairOf(recs[k]) == p;
    assert recs[k] == ConsurfRecord(rows[k]);
  }

  /** Two grade pairs in string order are in grade order. */
  lemma GradePairsInOrder(p: Pair, q: Pair)
    requires p.category in GRADES && p.color == CONSURF_COLORS[Position(GRADES, p.category)]
    requires q.category in GRADES && q.color == CONSURF_COLORS[Position(GRADES, q.category)]
    requires Before(Lexical, p, q)
    ensures Position(GRADES, p.category) < Position(GRADES, q.category)
  {
    var a := Position(GRADES, p.category);
    var b := Position(GRADES, q.category);
    if a == b {
      LexLessIrreflexive(p.category);
      LexLessIrreflexive(p.color);
    } else if b < a {
      GradesInStringOrder(b, a);
      LexLessAsymmetric(q.category, p.category);
    }
  }

  /** gnomAD groups come out most severe first, one per category, each in its fixed colour. */
  lemma GnomadGroupsInOrder(data: DataFile)
    ensures var groups := Groupings(Gnomad, data);
      forall i :: 0 <= i < |groups| ==>
        groups[i].category in GNOMAD_LABELS && groups[i].color == GNOMAD_COLORS[Position(GNOMAD_LABELS, groups[i].category)]
    ensures var groups := Groupings(Gnomad, data);
      forall i, j :: 0 <= i < j < |groups| ==>
        Position(GNOMAD_LABELS, groups[i].category) < Position(GNOMAD_LABELS, groups[j].category)
  {
    var recs := ImportGnomad(data.gnomad);
    ImportGnomadPalette(data.gnomad);
    GnomadLabelsDistinct();
    VocabularyGroups(recs, GNOMAD_LABELS, GNOMAD_COLORS);
  }

  /** Custom groups are sorted by category text, then colour text, whatever order the rows came in. */
  lemma CustomGroupsAlphabetical(data: DataFile)
    ensures var groups := Groupings(Custom, data);
      forall i, j :: 0 <= i < j < |groups| ==>
        LexLess(groups[i].category, groups[j].category)
        || (groups[i].category == groups[j].category && LexLess(groups[i].color, groups[j].color))
  {
    var groups := Groupings(Custom, data);
    var ps := PairsOf(groups);
    forall i, j | 0 <= i < j < |groups|
      ensures LexLess(groups[i].category, groups[j].category)
        || (groups[i].category == groups[j].category && LexLess(groups[i].color, groups[j].color))
    {
      assert Before(Lexical, ps[i], ps[j]);
    }
  }

  /** Residue texts of every mode are free of '+': each group's joined list splits back into its residues. */
  lemma TokenRoundTrip(m: Mode, data: DataFile, i: nat)
    requires i < |Groupings(m, data)|
    ensures var g := Groupings(m, data)[i];
      Split(Token(g), '+') == g.residues
  {
    var recs := Import(m, data);
    var groups := Groupings(m, data);
    var g := groups[i];
    var p := PairsOf(groups)[i];
    forall n | 0 <= n < |g.residues| ensures '+' !in g.residues[n] {
      var x := g.residues[n];
      MembersExact(recs, p, x);
      var k :| 0 <= k < |recs| && Complete(recs[k]) && PairOf(recs[k]) == p && recs[k].residue == x;
      ResidueNoPlus(m, data, k);
    }
    SplitJoin(g.residues, '+');
  }

  lemma ResidueNoPlus(m: Mode, data: DataFile, k: nat)
    requires k < |Import(m, data)|
    ensures '+' !in Import(m, data)[k].residue
  {
    match m
    case Moda =>
      assert Import(m, data)[k] == ModaRecord(data.moda[k]);
    case Consurf =>
      assert Import(m, data)[k] == ConsurfRecord(data.consurf[k]);
    case Custom =>
    case Gnomad =>
      var vs := ResolveBySeverity(Missense(data.gnomad));
      assert Import(m, data)[k] == GnomadRecord(vs[k]);
      assert vs[k] in vs;
      ResolveMostSevere(Missense(data.gnomad));
      MissenseResidueDigits(data.gnomad, vs[k]);
      NanNoPlus();
  }

  lemma NanNoPlus()
    ensures '+' !in "nan"
  {
    assert "nan"[0] == 'n' && "nan"[1] == 'a' && "nan"[2] == 'n';
  }
}
