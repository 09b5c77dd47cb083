/**
 * The script `make_script` writes (main.py, src/main.py): `color gray80`, two
 * lines per group, then `show surface`, `set transparency, 0.2` and
 * `bg_color white`, the last one without a newline.
 */
module Script {
  import opened Text
  import opened Grouping

  const HEADER: string := "color gray80"
  const SHOW_SURFACE: string := "show surface"
  /** `f'set transparency, {0.2:.1f}'`. */
  const SET_TRANSPARENCY: string := "set transparency, 0.2"
  const BACKGROUND: string := "bg_color white"

  /** `select L, resi R`: a named selection of the group's residues. */
  function SelectLine(g: Group): string
  {
    "select " + g.category + ", resi " + Token(g)
  }

  /** `color C, L`: colours that selection. */
  function ColorLine(g: Group): string
  {
    "color " + g.color + ", " + g.category
  }

  /** The two lines of each group, in group order. */
  function GroupLines(groups: seq<Group>): (lines: seq<string>)
    ensures |lines| == 2 * |groups|
    ensures forall i :: 0 <= i < |groups| ==>
      lines[2 * i] == SelectLine(groups[i]) && lines[2 * i + 1] == ColorLine(groups[i])
  {
    if groups == [] then []
    else
      var rest := GroupLines(groups[1..]);
      var lines := [SelectLine(groups[0]), ColorLine(groups[0])] + rest;
      assert forall i :: 1 <= i < |groups| ==> groups[i] == groups[1..][i - 1];
      lines
  }

  lemma {:induction false} GroupLinesAppend(groups: seq<Group>, g: Group)
    ensures GroupLines(groups + [g]) == GroupLines(groups) + [SelectLine(g), ColorLine(g)]
  {
    if groups != [] {
      assert (groups + [g])[1..] == groups[1..] + [g];
      GroupLinesAppend(groups[1..], g);
    }
  }

  /** The lines of the script, in the order they are written. */
  function ScriptLines(groups: seq<Group>): seq<string>
  {
    [HEADER] + GroupLines(groups) + [SHOW_SURFACE, SET_TRANSPARENCY, BACKGROUND]
  }

  /** Two lines, each newline-terminated. */
  lemma TerminatedPair(a: string, b: string)
    ensures Terminated([a, b]) == a + "\n" + b + "\n"
  {
    assert [a, b][1..] == [b];
    assert Terminated([b]) == b + "\n" + Terminated([]);
  }

  /** Writing two more lines, each with its newline. */
  lemma AppendPair(lines: seq<string>, a: string, b: string)
    ensures Terminated(lines + [a, b]) == Terminated(lines) + a + "\n" + b + "\n"
  {
    TerminatedAppend(lines, [a, b]);
    TerminatedPair(a, b);
  }

  /** `make_script`'s writes to the output file, collected into the file's text. */
  method WriteScript(groups: seq<Group>) returns (text: string)
    ensures text == Join(ScriptLines(groups), "\n")
  {
    text := HEADER + "\n";
    assert groups[..0] == [];
    assert Terminated([HEADER]) == HEADER + "\n" + Terminated([]);
    var i := 0;
    while i < |groups|
      invariant 0 <= i <= |groups|
      invariant text == Terminated([HEADER] + GroupLines(groups[..i]))
    {
      var select, color := SelectLine(groups[i]), ColorLine(groups[i]);
      GroupLinesAppend(groups[..i], groups[i]);
      assert groups[..i + 1] == groups[..i] + [groups[i]];
      assert [HEADER] + GroupLines(groups[..i + 1]) == ([HEADER] + GroupLines(groups[..i])) + [select, color];
      AppendPair([HEADER] + GroupLines(groups[..i]), select, color);
      text := text + select + "\n";
      text := text + color + "\n";
      i := i + 1;
    }
    assert groups[..i] == groups;
    var body := [HEADER] + GroupLines(groups);
    AppendPair(body, SHOW_SURFACE, SET_TRANSPARENCY);
    text := text + SHOW_SURFACE + "\n";
    text := text + SET_TRANSPARENCY + "\n";
    TerminatedThenLast(body + [SHOW_SURFACE, SET_TRANSPARENCY], BACKGROUND);
    assert body + [SHOW_SURFACE, SET_TRANSPARENCY] + [BACKGROUND] == ScriptLines(groups);
    text := text + BACKGROUND;
  }

  /** No category, colour or residue of any group holds a newline. */
  predicate SingleLineFields(groups: seq<Group>)
  {
    forall i :: 0 <= i < |groups| ==>
      '\n' !in groups[i].category && '\n' !in groups[i].color
      && forall n :: 0 <= n < |groups[i].residues| ==> '\n' !in groups[i].residues[n]
  }

  lemma FixedLinesSingle()
    ensures '\n' !in HEADER && '\n' !in SHOW_SURFACE && '\n' !in SET_TRANSPARENCY && '\n' !in BACKGROUND
    ensures '\n' !in "select " && '\n' !in ", resi " && '\n' !in "color " && '\n' !in ", "
  {
  }

  /**
   * The script reads back as exactly its lines: the header, two lines per
   * group, the three fixed lines, and nothing after `bg_color white`.
   */
  lemma ScriptReadsBack(groups: seq<Group>)
    requires SingleLineFields(groups)
    ensures Split(Join(ScriptLines(groups), "\n"), '\n') == ScriptLines(groups)
    ensures |ScriptLines(groups)| == 2 * |groups| + 4
  {
    var lines := ScriptLines(groups);
    FixedLinesSingle();
    forall i | 0 <= i < |groups| ensures '\n' !in SelectLine(groups[i]) && '\n' !in ColorLine(groups[i]) {
      JoinAvoids(groups[i].residues, "+", '\n');
    }
    var body := GroupLines(groups);
    forall k | 0 <= k < |body| ensures '\n' !in body[k] {
      var i := k / 2;
      if k == 2 * i {
        assert body[k] == SelectLine(groups[i]);
      } else {
        assert body[k] == ColorLine(groups[i]);
      }
    }
    assert lines == [HEADER] + body + [SHOW_SURFACE, SET_TRANSPARENCY, BACKGROUND];
    forall k | 0 <= k < |lines| ensures '\n' !in lines[k] {
      if 1 <= k <= |body| {
        assert lines[k] == body[k - 1];
      }
    }
    SplitJoin(lines, '\n');
  }
}
