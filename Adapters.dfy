/**
 * The four adapters of main.py and src/extension.py (the two files hold the
 * same code). Each turns the rows of one kind of table into records of
 * (residue, category, colour), where a category or colour pandas leaves as NaN is
 * `None`. The residue is kept as the text `astype(str)` gives it in
 * `bin_residues`.
 */
module Adapters {
  import opened Wrappers
  import opened Text
  import opened Binning

  /** One row after adaptation. */
  datatype Record = Record(residue: string, category: Option<string>, color: Option<string>)

  predicate Distinct(keys: seq<string>)
  {
    forall i, j :: 0 <= i < j < |keys| ==> keys[i] != keys[j]
  }

  /** Index of the first `k` in `keys`, or `|keys|` when it is absent. */
  function Position(keys: seq<string>, k: string): (i: nat)
    ensures i <= |keys|
    ensures i < |keys| ==> keys[i] == k
    ensures i == |keys| <==> k !in keys
    ensures forall j :: 0 <= j < i ==> keys[j] != k
  {
    if keys == [] then 0
    else if keys[0] == k then 0
    else
      var j := Position(keys[1..], k);
      assert forall m :: 1 <= m < |keys| ==> keys[m] == keys[1..][m - 1];
      1 + j
  }

  lemma PositionOfDistinct(keys: seq<string>, i: nat)
    requires Distinct(keys) && i < |keys|
    ensures Position(keys, keys[i]) == i
  {
  }

  /** `Series.map(dict(zip(keys, values)))` on one cell: NaN for a missing or unknown key. */
  function Lookup(keys: seq<string>, values: seq<string>, k: Option<string>): (r: Option<string>)
    requires |keys| == |values| && Distinct(keys)
    ensures r.Some? <==> k.Some? && k.value in keys
    ensures forall i :: 0 <= i < |keys| && k == Some(keys[i]) ==> r == Some(values[i])
  {
    if k.None? then None
    else
      var i := Position(keys, k.value);
      if i < |keys| then Some(values[i]) else None
  }

  // ---------------------------------------------------------------------------
  // MODA: threshold binning with pd.cut(bins=[0, 50, 100, 1000, inf], include_lowest=True)

  const MODA_EDGES: seq<real> := [0.0, 50.0, 100.0, 1000.0]
  const MODA_LABELS: seq<string> := ["low", "medium", "high", "very_high"]
  const MODA_COLORS: seq<string> := ["gray80", "yelloworange", "tv_orange", "firebrick"]

  /** A row of a MODA table: residue number `num` and score `plainMODA` (NaN as `None`). */
  datatype ModaRow = ModaRow(num: int, plainModa: Option<real>)

  /** The MODA category of a score: a score gets a category exactly when it is present and not negative. */
  function ModaLabel(score: Option<real>): (r: Option<string>)
    ensures r.Some? <==> score.Some? && score.value >= 0.0
    ensures r.Some? ==> r.value in MODA_LABELS
  {
    assert Increasing(MODA_EDGES);
    match Cut(MODA_EDGES, score, true)
    case None => None
    case Some(i) => Some(MODA_LABELS[i])
  }

  /** The four MODA bins are right-closed, and the lowest one also holds 0. */
  lemma ModaLabelIntervals(x: real)
    ensures ModaLabel(Some(x)) == Some("low") <==> 0.0 <= x <= 50.0
    ensures ModaLabel(Some(x)) == Some("medium") <==> 50.0 < x <= 100.0
    ensures ModaLabel(Some(x)) == Some("high") <==> 100.0 < x <= 1000.0
    ensures ModaLabel(Some(x)) == Some("very_high") <==> 1000.0 < x
    ensures ModaLabel(Some(x)) == None <==> x < 0.0
  {
    assert Increasing(MODA_EDGES);
    var c := Cut(MODA_EDGES, Some(x), true);
    if c.Some? {
      assert InBin(MODA_EDGES, c.value, x, true);
    } else {
      assert !InBin(MODA_EDGES, 0, x, true);
    }
  }

  function ModaRecord(row: ModaRow): (r: Record)
    ensures r.residue == IntToString(row.num)
    ensures r.category == ModaLabel(row.plainModa)
    ensures r.color.Some? <==> r.category.Some?
    ensures forall k :: 0 <= k < |MODA_LABELS| && r.category == Some(MODA_LABELS[k]) ==> r.color == Some(MODA_COLORS[k])
  {
    var category := ModaLabel(row.plainModa);
    Record(IntToString(row.num), category, Lookup(MODA_LABELS, MODA_COLORS, category))
  }

  /** `import_moda` on rows already read: one record per row, in row order. */
  function ImportModa(rows: seq<ModaRow>): (r: seq<Record>)
    ensures |r| == |rows| && forall k :: 0 <= k < |rows| ==> r[k] == ModaRecord(rows[k])
  {
    seq(|rows|, k requires 0 <= k < |rows| => ModaRecord(rows[k]))
  }

  // ---------------------------------------------------------------------------
  // ConSurf: the grade with every '*' removed is the category, mapped to a palette

  const GRADES: seq<string> := ["1", "2", "3", "4", "5", "6", "7", "8", "9"]
  const CONSURF_COLORS: seq<string> :=
    ["teal", "cyan", "aquamarine", "palecyan", "white", "lightpink", "pink", "deepsalmon", "raspberry"]

  /** A row of a ConSurf table: position `pos` and `ConSurf Grade` text (NaN as `None`). */
  datatype ConsurfRow = ConsurfRow(pos: int, grade: Option<string>)

  /** `.str.replace('*', '', regex=False)` on a grade cell. */
  function StripMarkers(grade: Option<string>): (r: Option<string>)
    ensures r.Some? <==> grade.Some?
    ensures r.Some? ==> '*' !in r.value && r.value == RemoveChar(grade.value, '*')
  {
    match grade
    case None => None
    case Some(g) => Some(RemoveChar(g, '*'))
  }

  function ConsurfRecord(row: ConsurfRow): (r: Record)
    ensures r.residue == IntToString(row.pos)
    ensures r.category == StripMarkers(row.grade)
    ensures r.color.Some? <==> r.category.Some? && r.category.value in GRADES
    ensures forall k :: 0 <= k < |GRADES| && r.category == Some(GRADES[k]) ==> r.color == Some(CONSURF_COLORS[k])
  {
    var category := StripMarkers(row.grade);
    Record(IntToString(row.pos), category, Lookup(GRADES, CONSURF_COLORS, category))
  }

  /** `import_consurf` on rows already read: one record per row, in row order. */
  function ImportConsurf(rows: seq<ConsurfRow>): (r: seq<Record>)
    ensures |r| == |rows| && forall k :: 0 <= k < |rows| ==> r[k] == ConsurfRecord(rows[k])
  {
    seq(|rows|, k requires 0 <= k < |rows| => ConsurfRecord(rows[k]))
  }

  /** Every '*' counts, wherever it stands: the grade is what is left once all are removed. */
  lemma ConsurfMarkersAnywhere(before: string, after: string, k: nat)
    requires k < |GRADES|
    requires RemoveChar(before, '*') == "" && RemoveChar(after, '*') == ""
    ensures StripMarkers(Some(before + GRADES[k] + after)) == Some(GRADES[k])
    ensures ConsurfRecord(ConsurfRow(0, Some(before + GRADES[k] + after))).color == Some(CONSURF_COLORS[k])
  {
    assert |GRADES[k]| == 1 && GRADES[k][0] != '*';
    RemoveCharAround(before, GRADES[k], after, '*');
  }

  // ---------------------------------------------------------------------------
  // gnomAD: missense filter, ClinVar normalisation, severity resolution

  const MISSENSE: string := "missense_variant"
  const GNOMAD_LABELS: seq<string> :=
    ["pathogenic", "likely_pathogenic", "uncertain_significance", "likely_benign", "benign", "no_annotation"]
  const GNOMAD_COLORS: seq<string> := ["firebrick", "salmon", "paleyellow", "lightblue", "skyblue", "gray60"]

  /** A row of a gnomAD table: `Protein Consequence`, `VEP Annotation`, `ClinVar Clinical Significance`. */
  datatype GnomadRow = GnomadRow(consequence: Option<string>, vepAnnotation: Option<string>, clinVar: Option<string>)

  /** A missense variant after labelling: residue digits (NaN when none) and a severity category. */
  datatype Variant = Variant(residue: Option<string>, category: Option<string>)

  /** lower-case, ' ' to '_', then every `\w+/` removed. */
  function CleanClinVar(s: string): string
  {
    RemoveWordSlash(ReplaceChar(Lower(s), ' ', '_'))
  }

  /**
   * The ClinVar category: the cleaned text, `no_annotation` for a missing cell,
   * and NaN (`None`) for anything outside the six categories.
   */
  function NormalizeClinVar(sig: Option<string>): (r: Option<string>)
    ensures r.Some? ==> r.value in GNOMAD_LABELS
    ensures sig.None? ==> r == Some("no_annotation")
    ensures sig.Some? ==> (r.Some? <==> CleanClinVar(sig.value) in GNOMAD_LABELS)
    ensures sig.Some? && r.Some? ==> r.value == CleanClinVar(sig.value) && NoWordSlash(r.value)
  {
    var token := match sig case None => "no_annotation" case Some(s) => CleanClinVar(s);
    if token in GNOMAD_LABELS then Some(token) else None
  }

  /** Letters, digits, '_' and ' ': a span that the cleaning turns into one word run. */
  predicate WordsAndSpaces(s: string)
  {
    forall k :: 0 <= k < |s| ==> IsWordChar(s[k]) || s[k] == ' '
  }

  /**
   * A leading `words/` part of a ClinVar cell is dropped: of
   * "Pathogenic/Likely pathogenic" only "likely_pathogenic" is left.
   */
  lemma CleanClinVarDropsPrefix(w: string, t: string)
    requires w != [] && WordsAndSpaces(w)
    ensures CleanClinVar(w + "/" + t) == CleanClinVar(t)
  {
    var w' := ReplaceChar(Lower(w), ' ', '_');
    var t' := ReplaceChar(Lower(t), ' ', '_');
    CaseAndSpacesAroundSlash(w, t);
    WordsAndSpacesBecomeWords(w);
    RemoveWordSlashSegment(w', t');
  }

  /** Lower-casing and replacing spaces work character by character, so they pass through a '/'. */
  lemma CaseAndSpacesAroundSlash(w: string, t: string)
    ensures ReplaceChar(Lower(w + "/" + t), ' ', '_')
      == ReplaceChar(Lower(w), ' ', '_') + "/" + ReplaceChar(Lower(t), ' ', '_')
  {
    LowerAppend(w + "/", t);
    LowerAppend(w, "/");
    assert Lower("/") == "/";
    ReplaceCharAppend(Lower(w) + "/", Lower(t), ' ', '_');
    ReplaceCharAppend(Lower(w), "/", ' ', '_');
    assert ReplaceChar("/", ' ', '_') == "/";
  }

  /** After cleaning, a span of letters, digits, '_' and ' ' is all word characters. */
  lemma WordsAndSpacesBecomeWords(w: string)
    requires WordsAndSpaces(w)
    ensures forall k :: 0 <= k < |w| ==> IsWordChar(ReplaceChar(Lower(w), ' ', '_')[k])
  {
  }

  /**
   * A cell without a slash that differs from a category only in letter case
   * and in spaces for underscores gets that category.
   */
  lemma NormalizeClinVarCategory(s: string, k: nat)
    requires '/' !in s
    requires k < |GNOMAD_LABELS| && ReplaceChar(Lower(s), ' ', '_') == GNOMAD_LABELS[k]
    ensures NormalizeClinVar(Some(s)) == Some(GNOMAD_LABELS[k])
  {
    var l := ReplaceChar(Lower(s), ' ', '_');
    assert forall i :: 0 <= i < |l| ==> l[i] != '/' by {
      forall i | 0 <= i < |l| ensures l[i] != '/' {
        assert s[i] != '/';
      }
    }
    RemoveWordSlashFixed(l);
  }

  /** `.str.extract(r'(\d+)')` on a `Protein Consequence` cell. */
  function ExtractResidue(consequence: Option<string>): (r: Option<string>)
    ensures consequence.None? ==> r.None?
    ensures consequence.Some? ==> r == ExtractDigits(consequence.value)
  {
    match consequence
    case None => None
    case Some(c) => ExtractDigits(c)
  }

  function ToVariant(row: GnomadRow): Variant
  {
    Variant(ExtractResidue(row.consequence), NormalizeClinVar(row.clinVar))
  }

  /** `.loc[type == 'missense_variant']`, then the residue and category columns computed. */
  function Missense(rows: seq<GnomadRow>): (vs: seq<Variant>)
    ensures |vs| <= |rows|
  {
    if rows == [] then []
    else
      var rest := Missense(rows[1..]);
      if rows[0].vepAnnotation == Some(MISSENSE) then [ToVariant(rows[0])] + rest else rest
  }

  /** The variants are exactly those of the missense rows. */
  lemma {:induction false} MissenseMembers(rows: seq<GnomadRow>)
    ensures forall v :: v in Missense(rows) <==>
      exists row :: row in rows && row.vepAnnotation == Some(MISSENSE) && v == ToVariant(row)
  {
    if rows != [] {
      MissenseMembers(rows[1..]);
      assert forall row :: row in rows <==> row == rows[0] || row in rows[1..];
    }
  }

  /** A missense row contributes its variant. */
  lemma MissenseHas(rows: seq<GnomadRow>, row: GnomadRow)
    requires row in rows && row.vepAnnotation == Some(MISSENSE)
    ensures ToVariant(row) in Missense(rows)
  {
    MissenseMembers(rows);
  }

  /** Severity rank: the position in the ordered categories, NaN after all of them. */
  function Severity(category: Option<string>): (n: nat)
    ensures n <= |GNOMAD_LABELS|
    ensures n < |GNOMAD_LABELS| <==> category.Some? && category.value in GNOMAD_LABELS
    ensures n < |GNOMAD_LABELS| ==> category == Some(GNOMAD_LABELS[n])
  {
    match category
    case None => |GNOMAD_LABELS|
    case Some(l) => Position(GNOMAD_LABELS, l)
  }

  predicate SortedBySeverity(vs: seq<Variant>)
  {
    forall i, j :: 0 <= i < j < |vs| ==> Severity(vs[i].category) <= Severity(vs[j].category)
  }

  /** The variants of one severity, in input order. */
  function Bucket(vs: seq<Variant>, rank: nat): seq<Variant>
  {
    if vs == [] then []
    else if Severity(vs[0].category) == rank then [vs[0]] + Bucket(vs[1..], rank)
    else Bucket(vs[1..], rank)
  }

  lemma {:induction false} BucketSound(vs: seq<Variant>, rank: nat)
    ensures forall v :: v in Bucket(vs, rank) ==> v in vs && Severity(v.category) == rank
  {
    if vs != [] {
      BucketSound(vs[1..], rank);
    }
  }

  /** The variants of severity `rank` or more, in input order. */
  function AtLeast(vs: seq<Variant>, rank: nat): seq<Variant>
  {
    if vs == [] then []
    else if Severity(vs[0].category) >= rank then [vs[0]] + AtLeast(vs[1..], rank)
    else AtLeast(vs[1..], rank)
  }

  lemma {:induction false} AtLeastSplit(vs: seq<Variant>, rank: nat)
    ensures multiset(AtLeast(vs, rank)) == multiset(Bucket(vs, rank)) + multiset(AtLeast(vs, rank + 1))
  {
    if vs != [] {
      AtLeastSplit(vs[1..], rank);
    }
  }

  lemma {:induction false} AtLeastAll(vs: seq<Variant>)
    ensures AtLeast(vs, 0) == vs
  {
    if vs != [] {
      AtLeastAll(vs[1..]);
    }
  }

  /** The buckets of severity `rank` and above, most severe first. */
  function SortFrom(vs: seq<Variant>, rank: nat): seq<Variant>
    decreases |GNOMAD_LABELS| + 1 - rank
  {
    if rank > |GNOMAD_LABELS| then []
    else Bucket(vs, rank) + SortFrom(vs, rank + 1)
  }

  /** The buckets from `rank` on are sorted and hold exactly the variants of severity `rank` or more. */
  lemma {:induction false} SortFromSound(vs: seq<Variant>, rank: nat)
    ensures forall v :: v in SortFrom(vs, rank) ==> Severity(v.category) >= rank
    ensures SortedBySeverity(SortFrom(vs, rank))
    ensures multiset(SortFrom(vs, rank)) == multiset(AtLeast(vs, rank))
    decreases |GNOMAD_LABELS| + 1 - rank
  {
    if rank > |GNOMAD_LABELS| {
      AtLeastAboveNone(vs, rank);
    } else {
      SortFromSound(vs, rank + 1);
      BucketSound(vs, rank);
      AtLeastSplit(vs, rank);
      BucketThenRest(Bucket(vs, rank), SortFrom(vs, rank + 1), rank);
    }
  }

  lemma BucketThenRest(b: seq<Variant>, rest: seq<Variant>, rank: nat)
    requires forall v :: v in b ==> Severity(v.category) == rank
    requires forall v :: v in rest ==> Severity(v.category) >= rank + 1
    requires SortedBySeverity(rest)
    ensures SortedBySeverity(b + rest)
    ensures forall v :: v in b + rest ==> Severity(v.category) >= rank
  {
    var r := b + rest;
    forall i, j | 0 <= i < j < |r| ensures Severity(r[i].category) <= Severity(r[j].category) {
      if j < |b| {
        assert r[i] in b && r[j] in b;
      } else if i < |b| {
        assert r[i] in b && r[j] == rest[j - |b|] && r[j] in rest;
      } else {
        assert r[i] == rest[i - |b|] && r[j] == rest[j - |b|];
      }
    }
  }

  lemma {:induction false} AtLeastAboveNone(vs: seq<Variant>, rank: nat)
    requires rank > |GNOMAD_LABELS|
    ensures AtLeast(vs, rank) == []
  {
    if vs != [] {
      AtLeastAboveNone(vs[1..], rank);
    }
  }

  /** `sort_values(by='category')`: the buckets of the six categories, then NaN. */
  function SortBySeverity(vs: seq<Variant>): seq<Variant>
  {
    SortFrom(vs, 0)
  }

  /** The sort puts the most severe first and NaN labels last, and is a permutation of the input. */
  lemma SortBySeveritySound(vs: seq<Variant>)
    ensures SortedBySeverity(SortBySeverity(vs))
    ensures multiset(SortBySeverity(vs)) == multiset(vs)
  {
    AtLeastAll(vs);
    SortFromSound(vs, 0);
  }

  function ResiduesOf(vs: seq<Variant>): set<Option<string>>
  {
    set v | v in vs :: v.residue
  }

  /** `drop_duplicates(subset='residue')`: the first variant of each residue not yet seen. */
  function KeepFirst(vs: seq<Variant>, seen: set<Option<string>>): seq<Variant>
  {
    if vs == [] then []
    else if vs[0].residue in seen then KeepFirst(vs[1..], seen)
    else [vs[0]] + KeepFirst(vs[1..], seen + {vs[0].residue})
  }

  /** `drop_duplicates` keeps variants of the input whose residue was not yet seen. */
  lemma {:induction false} KeepFirstWithin(vs: seq<Variant>, seen: set<Option<string>>)
    ensures forall v :: v in KeepFirst(vs, seen) ==> v in vs && v.residue !in seen
  {
    if vs != [] {
      if vs[0].residue in seen {
        KeepFirstWithin(vs[1..], seen);
      } else {
        KeepFirstWithin(vs[1..], seen + {vs[0].residue});
      }
    }
  }

  /** No residue occurs twice. */
  predicate UniqueResidues(vs: seq<Variant>)
  {
    forall i, j :: 0 <= i < j < |vs| ==> vs[i].residue != vs[j].residue
  }

  /** `drop_duplicates` keeps no residue twice. */
  lemma {:induction false} KeepFirstUnique(vs: seq<Variant>, seen: set<Option<string>>)
    ensures UniqueResidues(KeepFirst(vs, seen))
  {
    if vs != [] {
      if vs[0].residue in seen {
        KeepFirstUnique(vs[1..], seen);
        assert KeepFirst(vs, seen) == KeepFirst(vs[1..], seen);
      } else {
        var seen' := seen + {vs[0].residue};
        var rest := KeepFirst(vs[1..], seen');
        var r := KeepFirst(vs, seen);
        KeepFirstUnique(vs[1..], seen');
        KeepFirstWithin(vs[1..], seen');
        forall i, j | 0 <= i < j < |r| ensures r[i].residue != r[j].residue {
          assert r[j] == rest[j - 1] && rest[j - 1] in rest;
          if i > 0 {
            assert r[i] == rest[i - 1];
          }
        }
      }
    }
  }

  /** `drop_duplicates` keeps every residue not yet seen. */
  lemma {:induction false} KeepFirstCovers(vs: seq<Variant>, seen: set<Option<string>>)
    ensures forall v :: v in vs && v.residue !in seen ==> v.residue in ResiduesOf(KeepFirst(vs, seen))
  {
    if vs != [] {
      var r := KeepFirst(vs, seen);
      if vs[0].residue in seen {
        KeepFirstCovers(vs[1..], seen);
        forall v | v in vs && v.residue !in seen ensures v.residue in ResiduesOf(r) {
          assert v in vs[1..];
        }
      } else {
        var seen' := seen + {vs[0].residue};
        var rest := KeepFirst(vs[1..], seen');
        KeepFirstCovers(vs[1..], seen');
        assert r[0] == vs[0];
        forall v | v in vs && v.residue !in seen ensures v.residue in ResiduesOf(r) {
          if v.residue != vs[0].residue {
            assert v in vs[1..];
            var w :| w in rest && w.residue == v.residue;
            assert w in r;
          }
        }
      }
    }
  }

  /** Among a severity-sorted sequence, the variant kept for a residue is its most severe one. */
  lemma {:induction false} KeepFirstMostSevere(vs: seq<Variant>, seen: set<Option<string>>, v: Variant, q: Variant)
    requires SortedBySeverity(vs)
    requires v in KeepFirst(vs, seen) && q in vs && q.residue == v.residue
    ensures Severity(v.category) <= Severity(q.category)
  {
    if vs[0].residue in seen {
      KeepFirstWithin(vs, seen);
      assert q in vs[1..];
      SortedTail(vs);
      KeepFirstMostSevere(vs[1..], seen, v, q);
    } else if v == vs[0] {
      var k :| 0 <= k < |vs| && vs[k] == q;
      if k > 0 {
        assert Severity(vs[0].category) <= Severity(vs[k].category);
      }
    } else {
      var seen' := seen + {vs[0].residue};
      assert v in KeepFirst(vs[1..], seen');
      KeepFirstWithin(vs[1..], seen');
      assert q in vs[1..];
      SortedTail(vs);
      KeepFirstMostSevere(vs[1..], seen', v, q);
    }
  }

  lemma SortedTail(vs: seq<Variant>)
    requires vs != [] && SortedBySeverity(vs)
    ensures SortedBySeverity(vs[1..])
  {
    forall i, j | 0 <= i < j < |vs| - 1
      ensures Severity(vs[1..][i].category) <= Severity(vs[1..][j].category)
    {
      assert vs[1..][i] == vs[i + 1] && vs[1..][j] == vs[j + 1];
    }
  }

  /** Sort by severity, then keep the first variant per residue. */
  function ResolveBySeverity(vs: seq<Variant>): seq<Variant>
  {
    KeepFirst(SortBySeverity(vs), {})
  }

  /** Sorting only reorders: the same variants before and after. */
  lemma SortKeepsVariants(vs: seq<Variant>)
    ensures forall v :: v in SortBySeverity(vs) <==> v in vs
  {
    var sorted := SortBySeverity(vs);
    SortBySeveritySound(vs);
    forall v ensures v in sorted <==> v in vs {
      assert v in sorted <==> v in multiset(sorted);
      assert v in vs <==> v in multiset(vs);
    }
  }

  /** Every residue of the input survives the resolution, and no other. */
  lemma ResolveKeepsResidues(vs: seq<Variant>)
    ensures ResiduesOf(ResolveBySeverity(vs)) == ResiduesOf(vs)
  {
    var sorted := SortBySeverity(vs);
    var r := KeepFirst(sorted, {});
    SortKeepsVariants(vs);
    KeepFirstWithin(sorted, {});
    KeepFirstCovers(sorted, {});
    assert ResiduesOf(r) <= ResiduesOf(vs) by {
      forall x | x in ResiduesOf(r) ensures x in ResiduesOf(vs) {
        var v :| v in r && v.residue == x;
        assert v in sorted;
      }
    }
    assert ResiduesOf(vs) <= ResiduesOf(r) by {
      forall x | x in ResiduesOf(vs) ensures x in ResiduesOf(r) {
        var v :| v in vs && v.residue == x;
        assert v in sorted;
      }
    }
  }

  /** The resolution keeps input variants only, and no residue twice. */
  lemma ResolveSound(vs: seq<Variant>)
    ensures forall v :: v in ResolveBySeverity(vs) ==> v in vs
    ensures UniqueResidues(ResolveBySeverity(vs))
  {
    SortKeepsVariants(vs);
    KeepFirstWithin(SortBySeverity(vs), {});
    KeepFirstUnique(SortBySeverity(vs), {});
    assert ResolveBySeverity(vs) == KeepFirst(SortBySeverity(vs), {});
  }

  /** Where the resolution keeps the residue of an input variant. */
  lemma ResolveHasResidue(vs: seq<Variant>, q: Variant) returns (k: nat)
    requires q in vs
    ensures k < |ResolveBySeverity(vs)| && ResolveBySeverity(vs)[k].residue == q.residue
  {
    ResolveKeepsResidues(vs);
    assert q.residue in ResiduesOf(vs);
    var resolved := ResolveBySeverity(vs);
    var v :| v in resolved && v.residue == q.residue;
    k :| k < |resolved| && resolved[k] == v;
  }

  /** The variant kept for a residue is at least as severe as every input variant for it. */
  lemma ResolveKeepsMostSevere(vs: seq<Variant>, v: Variant, q: Variant)
    requires v in ResolveBySeverity(vs) && q in vs && q.residue == v.residue
    ensures Severity(v.category) <= Severity(q.category)
  {
    SortKeepsVariants(vs);
    SortBySeveritySound(vs);
    KeepFirstMostSevere(SortBySeverity(vs), {}, v, q);
  }

  /**
   * The conflict policy: each residue of the input is kept exactly once, under
   * a variant of the input, and no input variant for that residue is more severe.
   */
  lemma ResolveMostSevere(vs: seq<Variant>)
    ensures forall v :: v in ResolveBySeverity(vs) ==> v in vs
    ensures UniqueResidues(ResolveBySeverity(vs))
    ensures ResiduesOf(ResolveBySeverity(vs)) == ResiduesOf(vs)
    ensures forall v, q :: v in ResolveBySeverity(vs) && q in vs && q.residue == v.residue ==>
      Severity(v.category) <= Severity(q.category)
  {
    ResolveSound(vs);
    ResolveKeepsResidues(vs);
    forall v, q | v in ResolveBySeverity(vs) && q in vs && q.residue == v.residue
      ensures Severity(v.category) <= Severity(q.category)
    {
      ResolveKeepsMostSevere(vs, v, q);
    }
  }

  /** The residue text after `astype(str)`: NaN prints as "nan". */
  function ResidueText(residue: Option<string>): string
  {
    match residue
    case None => "nan"
    case Some(d) => d
  }

  function GnomadRecord(v: Variant): (r: Record)
    ensures r.residue == ResidueText(v.residue) && r.category == v.category
    ensures r.color.Some? <==> r.category.Some? && r.category.value in GNOMAD_LABELS
    ensures forall k :: 0 <= k < |GNOMAD_LABELS| && r.category == Some(GNOMAD_LABELS[k]) ==> r.color == Some(GNOMAD_COLORS[k])
  {
    Record(ResidueText(v.residue), v.category, Lookup(GNOMAD_LABELS, GNOMAD_COLORS, v.category))
  }

  function GnomadRecords(vs: seq<Variant>): (r: seq<Record>)
    ensures |r| == |vs| && forall k :: 0 <= k < |vs| ==> r[k] == GnomadRecord(vs[k])
  {
    seq(|vs|, k requires 0 <= k < |vs| => GnomadRecord(vs[k]))
  }

  /** `import_gnomad` on rows already read: missense rows, labelled, resolved by severity. */
  function ImportGnomad(rows: seq<GnomadRow>): seq<Record>
  {
    GnomadRecords(ResolveBySeverity(Missense(rows)))
  }

  lemma GnomadLabelsDistinct()
    ensures Distinct(GNOMAD_LABELS)
  {
    assert GNOMAD_LABELS[3][0] != GNOMAD_LABELS[5][0];
  }

  /** A gnomAD record with a colour has one of the six categories and that category's colour. */
  lemma ImportGnomadPalette(rows: seq<GnomadRow>)
    ensures var recs := ImportGnomad(rows);
      forall k :: 0 <= k < |recs| && recs[k].color.Some? ==>
        recs[k].category.Some? && recs[k].category.value in GNOMAD_LABELS
        && recs[k].color.value == GNOMAD_COLORS[Position(GNOMAD_LABELS, recs[k].category.value)]
  {
    var vs := ResolveBySeverity(Missense(rows));
    var recs := ImportGnomad(rows);
    forall k | 0 <= k < |recs| && recs[k].color.Some?
      ensures recs[k].category.Some? && recs[k].category.value in GNOMAD_LABELS
      ensures recs[k].color.value == GNOMAD_COLORS[Position(GNOMAD_LABELS, recs[k].category.value)]
    {
      var r := GnomadRecord(vs[k]);
      assert recs[k] == r;
      var n := Position(GNOMAD_LABELS, r.category.value);
      assert r.category == Some(GNOMAD_LABELS[n]);
    }
  }

  predicate AllDigits(s: string)
  {
    forall k :: 0 <= k < |s| ==> IsDigit(s[k])
  }

  /** Residue text tells residues apart: digits never read "nan". */
  lemma ResidueTextInjective(a: Option<string>, b: Option<string>)
    requires a.Some? ==> AllDigits(a.value)
    requires b.Some? ==> AllDigits(b.value)
    requires ResidueText(a) == ResidueText(b)
    ensures a == b
  {
    assert !AllDigits("nan") by { assert !IsDigit("nan"[0]); }
  }

  lemma MissenseResidueDigits(rows: seq<GnomadRow>, v: Variant)
    requires v in Missense(rows)
    ensures v.residue.Some? ==> AllDigits(v.residue.value)
    ensures v.category.Some? ==> v.category.value in GNOMAD_LABELS
  {
    MissenseMembers(rows);
  }

  /** `import_gnomad` never yields two records for one residue. */
  lemma GnomadResiduesUnique(rows: seq<GnomadRow>)
    ensures var r := ImportGnomad(rows);
      forall i, j :: 0 <= i < j < |r| ==> r[i].residue != r[j].residue
  {
    var vs := Missense(rows);
    var resolved := ResolveBySeverity(vs);
    var r := ImportGnomad(rows);
    ResolveSound(vs);
    forall i, j | 0 <= i < j < |r| ensures r[i].residue != r[j].residue {
      MissenseResidueDigits(rows, resolved[i]);
      MissenseResidueDigits(rows, resolved[j]);
      if r[i].residue == r[j].residue {
        ResidueTextInjective(resolved[i].residue, resolved[j].residue);
      }
    }
  }

  /** Every missense row's residue has a record in the output of `import_gnomad`. */
  lemma GnomadEveryResidue(rows: seq<GnomadRow>, row: GnomadRow)
    requires row in rows && row.vepAnnotation == Some(MISSENSE)
    ensures exists k ::
              0 <= k < |ImportGnomad(rows)| && ImportGnomad(rows)[k].residue == ResidueText(ExtractResidue(row.consequence))
  {
    var vs := Missense(rows);
    var resolved := ResolveBySeverity(vs);
    var r := ImportGnomad(rows);
    var q := ToVariant(row);
    MissenseHas(rows, row);
    var k := ResolveHasResidue(vs, q);
    assert r[k] == GnomadRecord(resolved[k]);
  }

  /**
   * The record `import_gnomad` keeps for a residue is at least as severe as every
   * missense row for that residue, and carries the colour of its category.
   */
  lemma GnomadMostSevere(rows: seq<GnomadRow>, k: nat, row: GnomadRow)
    requires k < |ImportGnomad(rows)|
    requires row in rows && row.vepAnnotation == Some(MISSENSE)
    requires ImportGnomad(rows)[k].residue == ResidueText(ExtractResidue(row.consequence))
    ensures Severity(ImportGnomad(rows)[k].category) <= Severity(NormalizeClinVar(row.clinVar))
    ensures ImportGnomad(rows)[k].color.Some? <==> ImportGnomad(rows)[k].category.Some?
  {
    var vs := Missense(rows);
    var resolved := ResolveBySeverity(vs);
    ResolveSound(vs);
    var q := ToVariant(row);
    MissenseHas(rows, row);
    assert resolved[k] in resolved;
    MissenseResidueDigits(rows, resolved[k]);
    MissenseResidueDigits(rows, q);
    ResidueTextInjective(resolved[k].residue, q.residue);
    ResolveKeepsMostSevere(vs, resolved[k], q);
  }

  // ---------------------------------------------------------------------------
  // Custom: rows already carry residue, category and colour

  datatype CustomRow = CustomRow(residue: int, category: Option<string>, color: Option<string>)

  /** `import_custom`: every row passes through unchanged. */
  function ImportCustom(rows: seq<CustomRow>): (r: seq<Record>)
    ensures |r| == |rows|
    ensures forall k :: 0 <= k < |rows| ==>
      r[k].residue == IntToString(rows[k].residue) && r[k].category == rows[k].category && r[k].color == rows[k].color
  {
    seq(|rows|, k requires 0 <= k < |rows| => Record(IntToString(rows[k].residue), rows[k].category, rows[k].color))
  }
}
