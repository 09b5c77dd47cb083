# pymol-color in Dafny

pymol-color turns per-residue annotation tables into PyMOL colouring scripts.
The logic is a short pipeline, and the model follows it:

- An **adapter** turns the rows of a table into (residue, category, colour) records. There are four:
  - MODA scores, binned with `pd.cut`;
  - ConSurf grades, with every `*` removed;
  - gnomAD variants: missense rows only, the ClinVar significance normalised, and one variant kept per residue, the most severe;
  - custom tables, passed through unchanged.
- **`bin_residues`** groups the records by (category, colour). It joins each group's residues with `+` in row order and sorts the groups by category.
- An **emitter** writes the groups out as script lines.

The repository holds three generations of this pipeline, and each is modelled as written:

- `main.py` and `src/extension.py` hold the same adapters and `bin_residues`. `src/extension.py` adds the mode check of `color_by_score`.
- `src/main.py` holds `make_script`, its output name `results/<stem>-coloring-script.pml`, and `main`'s loop over the paths.
- `pymol-color.py`, `moda-color.py` and `consurf_color.py` are the older scripts:
  - a fixed list of bins, every bin emitted even when empty (`get_residues`, `bin_moda`, `bin_consurf`, `get_bins`);
  - a script whose first line is a bare `gray80` (`generate_pymol_script`);
  - output names built with `with_name(...).with_suffix(...)`.

Modules:

| module | what it holds |
|---|---|
| `Wrappers` | `Option` and `Result` |
| `Text` | `'+'.join`, `str.split`, `str(int)`, `.str.lower`, `.str.replace`, the `\w+/` removal, the `(\d+)` extraction, Python string order |
| `Binning` | `pd.cut` over finite edges, the last bin open to infinity |
| `Adapters` | `import_moda`, `import_consurf`, `import_gnomad`, `import_custom` |
| `Grouping` | `bin_residues` |
| `Script` | the text `make_script` writes |
| `Extension` | `FUNCTION_MAP` and the mode check of `color_by_score` |
| `Paths` | the parts of `pathlib` used for output names, and the output-name rules |
| `Legacy` | `get_residues`, `bin_moda`/`get_bins`, `bin_consurf`, `import_data`, `generate_pymol_script` |
| `Cli` | `make_script` and `main` of `src/main.py` |

The model reads tables as rows already parsed. Score, grade, variant, ClinVar, category and colour cells that pandas may leave as NaN are `Option`s. Residue numbers (`num`, `pos`, the custom `residue`) are integers; see "## Left out". A file the program would write is returned as a path plus its text.

Where the code and the prose documentation of the repository differ, the model follows the code:

- MODA bins are right-closed, with 0 included in the lowest bin: a score of 50 is `low`, 100 is `medium` and 1000 is `high`.
- ConSurf removes every `*` in a grade, not only a trailing one.
- Custom groups come out in Python string order of their category, then colour, not in order of first appearance.
- In gnomAD tables, a missing ClinVar cell becomes `no_annotation`, and so does a present cell that normalises to it, such as "No annotation". A cell that normalises to anything outside the six categories becomes NaN and is dropped from grouping.
- The older scripts' first line is the bare `gray80`, not `color gray80`.

## Model

| member | source | states |
|---|---|---|
| Binning.Cut | main.py:20 | `pd.cut`: the bin found holds the score, in the right-closed interval of its edges (0 included in the lowest with `include_lowest`); a missing score, or one in no bin, gets none |
| Binning.BinsDisjoint | moda-color.py:8-10 | the bins do not overlap: a score lies in at most one |
| Adapters.Lookup | main.py:21 | `map(dict(zip(labels, colors)))`: a value exactly for keys in the table, and it is the value paired with the key |
| Adapters.ModaLabel | main.py:16-20 | a MODA score gets a category exactly when it is present and not negative; the category is one of the four labels |
| Adapters.ModaLabelIntervals | main.py:16-20 | [0,50] is low, (50,100] medium, (100,1000] high, (1000,∞) very_high, and a negative score gets no category |
| Adapters.ModaRecord | main.py:13-21 | the residue is the text of `num`; the colour is present exactly when the category is, and it is gray80/yelloworange/tv_orange/firebrick for low/medium/high/very_high |
| Adapters.ImportModa | main.py:9-21 | `import_moda`: one record per row, in row order |
| Adapters.StripMarkers | main.py:34 | a grade keeps its presence, and loses every `*` and nothing else |
| Adapters.ConsurfRecord | main.py:27-35 | grade "k" after stripping gets the k-th of the nine colours; a grade outside "1".."9" gets no colour |
| Adapters.ImportConsurf | main.py:23-35 | `import_consurf`: one record per row, in row order |
| Adapters.ConsurfMarkersAnywhere | main.py:34-35 | `*`s before and after a grade, in any number, are all removed, and the grade gets its colour |
| Adapters.NormalizeClinVar | main.py:55-59 | a missing cell becomes `no_annotation`; a present cell becomes its cleaned text when that is one of the six categories, and NaN otherwise |
| Adapters.CleanClinVarDropsPrefix | main.py:55-56 | a leading `words/` part is dropped: "Pathogenic/Likely pathogenic" is cleaned like "Likely pathogenic" |
| Adapters.NormalizeClinVarCategory | main.py:55-59 | a cell without `/` that matches a category up to letter case and spaces for underscores gets that category |
| Adapters.ExtractResidue | main.py:54 | a missing cell gives no residue; a present cell gives exactly what `extract(r'(\d+)')` finds in it |
| Adapters.Missense | main.py:52-53 | the filter yields at most one variant per row |
| Adapters.MissenseMembers | main.py:52-54 | the variants are exactly those of the rows whose `VEP Annotation` is `missense_variant` |
| Adapters.Severity | main.py:58-59 | the rank of a category in the ordered categories; NaN ranks after all six |
| Adapters.SortBySeveritySound | main.py:61 | `sort_values(by='label')` orders the variants by severity, NaN last, and is a permutation of its input |
| Adapters.KeepFirstWithin | main.py:62 | `drop_duplicates` keeps only input variants whose residue was not seen before |
| Adapters.KeepFirstUnique | main.py:62 | `drop_duplicates` keeps no residue twice |
| Adapters.KeepFirstCovers | main.py:62 | `drop_duplicates` keeps every residue that was not seen before |
| Adapters.KeepFirstMostSevere | main.py:61-62 | on a severity-sorted input, the variant kept for a residue is at least as severe as every variant for it |
| Adapters.ResolveMostSevere | main.py:38-42 | sort then `drop_duplicates`: every residue is kept exactly once, under an input variant that is at least as severe as every other variant for that residue |
| Adapters.GnomadRecord | main.py:45-60 | the colour is present exactly for the six categories, and it is firebrick/salmon/paleyellow/lightblue/skyblue/gray60 in severity order; a missing residue reads "nan" |
| Adapters.ImportGnomadPalette | main.py:60 | every coloured gnomAD record has one of the six categories and that category's colour |
| Adapters.GnomadResiduesUnique | main.py:62 | `import_gnomad` never yields two records for the same residue |
| Adapters.GnomadEveryResidue | main.py:52-63 | the residue of every missense row has a record |
| Adapters.GnomadMostSevere | main.py:37-63 | the record kept for a residue is at least as severe as every missense row for it, and has a colour exactly when it has a category |
| Adapters.ImportCustom | main.py:65-69 | `import_custom`: every row passes through unchanged, in row order |
| Text.IntToString | main.py:77 | `astype(str)` of a residue number: non-empty, without `+` or newline |
| Text.IntToStringInjective | main.py:77 | different residue numbers have different texts |
| Text.NatToStringRoundTrip | main.py:77 | reading the digits of a number's text gives the number back |
| Text.SplitJoin | main.py:78 | a `+`-joined residue list splits back into its residues when none holds `+` |
| Text.JoinSplit | main.py:78 | joining the pieces of a split gives the text back |
| Text.Lower | main.py:55 | `.str.lower()`: same length, every letter lower-cased in place |
| Text.ReplaceChar | main.py:55 | `.str.replace(' ', '_')`: same length, every space replaced and nothing else changed |
| Text.RemoveChar | main.py:34 | `.str.replace('*', '')`: no `*` is left, and the other characters are kept with their counts |
| Text.RemoveWordSlash | main.py:56 | after `.str.replace(r'\w+/', '')` no word character is followed by `/`, and a first character outside `\w` is kept; the equations below pin down the rest |
| Text.RemoveWordSlashNonWord | main.py:56 | a character outside `\w` is kept, and the removal goes on after it |
| Text.RemoveWordSlashKeepsRun | main.py:56 | a maximal run of word characters that no `/` follows is kept, and the removal goes on after it |
| Text.RemoveWordSlashExample | main.py:56 | "x-ab/c" becomes "x-c" |
| Text.RemoveWordSlashFixed | main.py:56 | text in which `\w+/` does not match is left alone |
| Text.RemoveWordSlashSegment | main.py:56 | a leading `word/` is removed and the rest is processed alone |
| Text.ExtractDigits | main.py:54 | `extract(r'(\d+)')`: missing exactly when there is no digit, else a non-empty run of digits |
| Text.ExtractFirstRun | main.py:54 | what is extracted is the first maximal run of digits: "p.Arg42Cys" gives "42" |
| Text.LexLessTotal | main.py:79 | Python string order is total on distinct strings |
| Text.LexLessTransitive | main.py:79 | Python string order is transitive |
| Grouping.Insert | main.py:79 | adding a pair keeps the pairs strictly ascending and adds only that pair |
| Grouping.SortedPairs | main.py:78-79 | the distinct (category, colour) pairs that occur in the records, strictly ascending by the sort key |
| Grouping.Members | main.py:78 | a pair's residue list is non-empty exactly when the pair occurs |
| Grouping.BinResidues | main.py:72-82 | `bin_residues`: one group per pair that occurs and no other, strictly ascending by category, then colour; none empty; each holds the residues of its pair in row order |
| Grouping.MembersExact | main.py:78 | a residue is in a pair's group exactly when some record with both a category and a colour carries that pair and that residue |
| Grouping.RecordInItsGroup | main.py:78 | every record with a category and a colour lands in exactly one group |
| Grouping.VocabularyGroups | main.py:79 | with an ordered category column and a fixed palette, groups follow the category order, one per category, each in its category's colour |
| Extension.ModeName | src/extension.py:113-118 | every mode's name is a key of `FUNCTION_MAP` |
| Extension.ParseMode | src/extension.py:95-98 | a mode is found exactly for the four keys, and it is the mode of that name |
| Extension.ParseModeName | src/extension.py:113-118 | looking up a mode's name gives that mode |
| Extension.ColorByScore | src/extension.py:95-99 | `ValueError` with the keys in its message exactly for an unknown mode; otherwise the groupings of the mode's adapter |
| Extension.UnknownModeIgnoresData | src/extension.py:95-96 | an unknown mode fails before any data is read, the same way for every file |
| Extension.ModaGroupsInOrder | src/extension.py:79-80 | MODA groups follow low < medium < high < very_high, at most one per category, each in its fixed colour |
| Extension.ModaMembers | src/extension.py:21-22 | a residue is in a MODA group exactly when some row with that number has a score in the group's bin; a missing or negative score puts a row in no group |
| Extension.GradesInStringOrder | src/extension.py:28 | the grade labels "1".."9" are in string order |
| Extension.ConsurfGroupsInOrder | src/extension.py:80 | ConSurf groups follow grades 1..9, at most one per grade, each in its palette colour |
| Extension.GnomadGroupsInOrder | src/extension.py:59-60 | gnomAD groups come out most severe first, at most one per category, each in its fixed colour |
| Extension.CustomGroupsAlphabetical | src/extension.py:79-80 | custom groups are sorted by category text, then colour text, whatever the row order |
| Extension.ResidueNoPlus | src/extension.py:78 | no residue text of any adapter holds `+` |
| Extension.TokenRoundTrip | src/extension.py:79 | each group's `+`-joined residues split back into exactly its residues |
| Script.GroupLines | main.py:100-102 | per group, in group order, `select L, resi R` then `color C, L` |
| Script.WriteScript | src/main.py:22-29 | the written text is `color gray80`, the group lines, `show surface`, `set transparency, 0.2` and `bg_color white`, joined by newlines, with no newline after the last |
| Script.ScriptReadsBack | main.py:98-105 | the text splits back into exactly those 2·groups+4 lines, nothing after `bg_color white` |
| Legacy.Selected | pymol-color.py:46-47 | the mask selects at most one index per row |
| Legacy.SelectedExact | pymol-color.py:46-47 | an index is selected exactly when some row with that index has the value equal to the bin name |
| Legacy.IndexTexts | pymol-color.py:47 | `index.astype(str)`: one text per index, in order |
| Legacy.GetResidues | pymol-color.py:45-48 | `get_residues` is the empty string exactly when no row matches |
| Legacy.GetResiduesReadsBack | moda-color.py:21-24 | a non-empty result splits on `+` into the matching residue numbers, in row order |
| Legacy.LegacyModaBin | pymol-color.py:8-23 | a score gets a bin exactly when it is present and above 50, and the bin is medium, high or very_high |
| Legacy.LegacyModaBinIntervals | moda-color.py:8-15 | (50,100] is medium, (100,1000] high, (1000,∞) very_high, and a score of 50 or less is in no bin |
| Legacy.ModaSeries | pymol-color.py:17-23 | the binned series: each row's number with its bin, in row order |
| Legacy.ModaBins | moda-color.py:7-18 | exactly three bins, medium/high/very_high with yelloworange/tv_orange/firebrick, each with its `get_residues` list |
| Legacy.ModaBinSelects | pymol-color.py:23-24 | a residue is in bin j exactly when a row with that number scores in bin j |
| Legacy.ModaBinsDisjoint | moda-color.py:14-15 | no row is in two MODA bins |
| Legacy.ConsurfFrame.constructor | pymol-color.py:31-36 | the frame holds the rows' positions and grades, in row order |
| Legacy.ConsurfFrame.StripGradeMarkers | pymol-color.py:37 | the grade column is replaced in place by the grades without `*`; positions are unchanged |
| Legacy.ConsurfFrame.Cells | pymol-color.py:45-47 | the frame as (index, value) cells |
| Legacy.StrippedCells | consurf_color.py:41-42 | the cells of a ConSurf table once every `*` is removed from its grades |
| Legacy.ImportData | consurf_color.py:34-43 | `import_data`: a new frame whose grade column has every `*` removed |
| Legacy.ConsurfBins | consurf_color.py:6-11 | exactly nine bins, "1".."9" in order, each with the colour at its index and its `get_residues` list |
| Legacy.BinConsurf | pymol-color.py:28-42 | `bin_consurf` is the nine bins of the stripped grades |
| Legacy.ConsurfBinSelects | pymol-color.py:37-39 | a position is in bin j exactly when one of its grades reads `GRADES[j]` once every `*` is removed: "5*" counts as 5, and a grade outside "1".."9" is in no bin |
| Legacy.BinLines | pymol-color.py:55-57 | per bin, in bin order, `select N, resi R` then `color C, N` |
| Legacy.GeneratePymolScript | pymol-color.py:51-62 | `output_string` is `gray80`, the bin lines, `show surface`, `set transparency, 0.2`, `bg_color white`, each followed by a newline |
| Legacy.LegacyScriptReadsBack | consurf_color.py:20-31 | the script has 2·bins+4 lines and splits back into exactly them, with nothing after the last newline |
| Legacy.EmptyBinStillSelected | moda-color.py:31-32 | a bin no row matches still gets the line `select N, resi ` |
| Paths.Parent | pymol-color.py:72-73 | `parent` keeps whether the path is absolute, and keeps it well formed |
| Paths.Child | src/main.py:11 | `parent / 'results'` is named `results` and has that parent |
| Paths.SuffixStart | pymol-color.py:72-73 | the suffix starts at the last `.`, unless that is the first or last character |
| Paths.Suffix | pymol-color.py:72-73 | stem and suffix make up the name; a suffix is empty or a `.` followed by text without `.` |
| Paths.WithName | pymol-color.py:72 | `with_name` fails exactly when the path has no name or the new name is invalid; otherwise same parent, new name |
| Paths.WithSuffix | pymol-color.py:73 | `with_suffix` succeeds exactly for a valid suffix on a path with a name; it keeps the parent and puts the suffix after the stem |
| Paths.StemOfSuffixed | pymol-color.py:72-73 | a base followed by a one-dot suffix splits back into the two |
| Paths.LegacyDottedStemLosesTag | pymol-color.py:72-73 | with a dot inside the stem, the legacy rule cuts off the tag and what follows the dot |
| Paths.LegacyDottedStemExample | pymol-color.py:72-73 | "run.v2.csv" gets "run.pml" |
| Paths.ExportPath | moda-color.py:53 | the intended name is the stem, the tag and the suffix, beside the input |
| Paths.ExportPathKeepsStem | consurf_color.py:49 | the intended name's stem is the input's stem with the tag, and its suffix the one asked for |
| Paths.LegacyAgreesOnPlainStem | moda-color.py:53 | without a dot inside the stem, the legacy rule gives the intended name `<stem><tag><suffix>` beside the input |
| Paths.LegacyPlainName | pymol-color.py:72-73 | without a dot inside the stem, the legacy rule succeeds, and names the output `<stem><tag><suffix>` in the input's directory |
| Paths.PymolColorExportName | pymol-color.py:72-73 | pymol-color.py writes `<stem>-coloring-script.pml` beside the input |
| Paths.ModaColorExportName | moda-color.py:53 | moda-color.py writes `<stem>-moda-coloring-script.py` beside the input |
| Paths.ConsurfColorExportName | consurf_color.py:49 | consurf_color.py writes `<stem>-consurf-coloring-script.py` beside the input |
| Paths.ScriptPathName | src/main.py:10-11 | a script name exists exactly for paths with a name; it is `<stem>-coloring-script.pml` in `results` beside the input |
| Cli.Completed | src/main.py:34-35 | how many paths come before the first one without a name |
| Cli.ScriptForValue | src/main.py:8-11 | a path has an output exactly when it has a name; the output is its script at its script path |
| Cli.ScriptsFor | src/main.py:34 | one outcome per path |
| Cli.MakeScript | src/main.py:8-29 | `make_script` gives the script of the mode's groupings at the script path, or fails for a path without a name |
| Cli.RunAll | src/main.py:32-35 | an unknown mode fails before any file is read; otherwise the outcome of the loop over the paths |
| Cli.RunPaths | src/main.py:34-35 | the loop writes the outputs of the paths in order and stops at the first failure |
| Cli.CollectPrefix | src/main.py:34-35 | the run writes one file per path before the first failing one, and reports that path |
| Cli.RunStops | main.py:108-111 | `main` handles the paths in argument order up to the first one without a name, which is the one reported |
| Cli.CollectAt | src/main.py:34-35 | each written file is the outcome of the path at its position |
| Cli.RunAt | src/main.py:34-35 | the k-th file written belongs to the k-th path |
| Cli.RunOutput | src/main.py:32-35 | the k-th file written is the script of the k-th path's data, in `results` beside it |

## Left out

- Reading CSV files (`read_csv`, `skiprows`, `usecols`, `index_col`) is left out. Tables are given as parsed rows.
- Creating the `results` directory and writing files are left out. The files are returned as values.
- Argument parsing (`argparse`, `src/utils.py`) is left out. `src/utils.py` is not part of this model.
- The PyMOL calls of `color_by_score` are foreign calls that change viewer state, and are left out. Only the mode check and the groupings are modelled.
- The debug `print` in `bin_residues` is left out. It does not affect the result.
- The `import_data: function` annotation of `make_script` names an undefined `function`. The model follows the intended emitter, not that load error.
- `output_directory/output_path` in `make_script` joins the `results` directory with `output_path`, which already holds the input's directory. The model writes `<parent>/results/<stem>-coloring-script.pml`, which is what the code does only for a bare file name. For a relative input with a directory, such as `data/x.csv`, the code opens `data/results/data/x-coloring-script.pml`, whose directory is never created, so `open` raises. For an absolute input, `/` discards the left side, and the file lands beside the input.
- `get_residues` applied to a whole DataFrame (ConSurf) is modelled like the Series case: a row matches when its value equals the bin name.
- MODA scores are reals. `np.inf` is modelled as the open upper end of the last bin, and NaN scores as missing.
- `set transparency, {0.2:.1f}` is written as the literal `set transparency, 0.2`.
- Custom tables with non-string categories or colours are out of scope. Category and colour cells are strings or missing.
- Adapters.ImportCustom, Adapters.ImportModa, Adapters.ImportConsurf: residue cells are integers. A blank residue cell is not modelled. In pandas it makes the whole column float, and `astype(str)` then writes `42.0` and `nan`. A custom residue that is not an integer, such as `10-20`, is not modelled either. `Extension.ResidueNoPlus` and `Extension.TokenRoundTrip` rely on this restriction.
- Adapters.StripMarkers, Adapters.CleanClinVar, Adapters.ExtractResidue: pandas applies `.str` only to text columns. A ConSurf grade column with no `*` anywhere is read as integers, and a gnomAD column that is empty throughout is read as floats. On such columns the `.str` calls raise `AttributeError`. The model treats every such cell as text and returns groups.
- Paths are a flag for absolute plus non-empty components. Path normalisation beyond that is not modelled.
- Adapters.SortBySeverity: ties between variants of equal severity are kept in row order. The model fixes a stable order, because pandas' default sort does not promise one.
- Text.Lower: lower-cases ASCII letters only, because the model has no Unicode case tables. `Text.IsWordChar` is likewise the ASCII part of `\w`, and `Text.IsDigit` only `0`-`9`.
- Adapters.Missense: its own contract states only the length bound. The contents are stated by `Adapters.MissenseMembers`.
- Cli.RunAll: no file system failures are modelled. The only failures are an unknown mode and a path without a name.

## Findings

| source | as written | input that shows it | evidently intended | confidence | as-written member | corrected member |
|---|---|---|---|---|---|---|
| pymol-color.py:72-73 | `with_name(f'{stem}-coloring-script').with_suffix('.pml')`, so `with_suffix` treats the part after a dot inside the stem as a suffix and replaces it | `run.v2.csv` gives `run.pml` | `run.v2-coloring-script.pml` (the same holds for moda-color.py:53 and consurf_color.py:49) | not executed | Paths.LegacyDottedStemExample | Paths.ExportPathKeepsStem |
