/**
 * `bin_residues` (main.py, src/extension.py): records are grouped by their
 * (category, colour) pair, records missing either are dropped (groupby drops
 * NaN keys), residues are collected in row order, and the groups are sorted by
 * category and then colour: by category rank when the category column is an
 * ordered categorical (MODA, gnomAD), by Python string order otherwise
 * (ConSurf, custom tables).
 */
module Grouping {
  import opened Wrappers
  import opened Text
  import opened Adapters

  /** The order `sort_index(level='label')` sorts the category level by. */
  datatype CategoryOrder = Categories(levels: seq<string>) | Lexical

  datatype Pair = Pair(category: string, color: string)

  /** One row of `to_records()`: a category, its colour and the residues carrying both. */
  datatype Group = Group(category: string, color: string, residues: seq<string>)

  /** The residue list of a group as the script shows it: joined by '+'. */
  function Token(g: Group): string
  {
    Join(g.residues, "+")
  }

  predicate Complete(r: Record)
  {
    r.category.Some? && r.color.Some?
  }

  function PairOf(r: Record): Pair
    requires Complete(r)
  {
    Pair(r.category.value, r.color.value)
  }

  /** The pairs that occur in the records. */
  function Occurring(recs: seq<Record>): set<Pair>
  {
    set k | 0 <= k < |recs| && Complete(recs[k]) :: PairOf(recs[k])
  }

  function Rank(order: CategoryOrder, category: string): nat
  {
    match order
    case Lexical => 0
    case Categories(levels) => Position(levels, category)
  }

  /** Sorting key order: category rank, then category text, then colour text. */
  predicate Before(order: CategoryOrder, p: Pair, q: Pair)
  {
    Rank(order, p.category) < Rank(order, q.category)
    || (Rank(order, p.category) == Rank(order, q.category)
        && (LexLess(p.category, q.category) || (p.category == q.category && LexLess(p.color, q.color))))
  }

  lemma BeforeIrreflexive(order: CategoryOrder, p: Pair)
    ensures !Before(order, p, p)
  {
    LexLessIrreflexive(p.category);
    LexLessIrreflexive(p.color);
  }

  lemma BeforeTransitive(order: CategoryOrder, p: Pair, q: Pair, s: Pair)
    requires Before(order, p, q) && Before(order, q, s)
    ensures Before(order, p, s)
  {
    if Rank(order, p.category) == Rank(order, q.category) == Rank(order, s.category) {
      if LexLess(p.category, q.category) && LexLess(q.category, s.category) {
        LexLessTransitive(p.category, q.category, s.category);
      } else if p.category == q.category == s.category {
        LexLessTransitive(p.color, q.color, s.color);
      }
    }
  }

  lemma BeforeTotal(order: CategoryOrder, p: Pair, q: Pair)
    requires p != q
    ensures Before(order, p, q) || Before(order, q, p)
  {
    if p.category != q.category {
      LexLessTotal(p.category, q.category);
    } else {
      LexLessTotal(p.color, q.color);
    }
  }

  predicate Ascending(order: CategoryOrder, ps: seq<Pair>)
  {
    forall i, j :: 0 <= i < j < |ps| ==> Before(order, ps[i], ps[j])
  }

  /** Adds `p` to a strictly ascending sequence of pairs, keeping it strictly ascending. */
  function Insert(order: CategoryOrder, p: Pair, ps: seq<Pair>): (r: seq<Pair>)
    requires Ascending(order, ps)
    ensures Ascending(order, r)
    ensures forall x :: x in r <==> x == p || x in ps
  {
    if ps == [] then [p]
    else if p == ps[0] then ps
    else if Before(order, p, ps[0]) then
      HeadBeforeAll(order, p, ps);
      ConsAscending(order, p, ps);
      [p] + ps
    else
      BeforeTotal(order, p, ps[0]);
      AscendingTail(order, ps);
      var rest := Insert(order, p, ps[1..]);
      ConsAscending(order, ps[0], rest);
      [ps[0]] + rest
  }

  lemma ConsAscending(order: CategoryOrder, a: Pair, rest: seq<Pair>)
    requires Ascending(order, rest)
    requires forall x :: x in rest ==> Before(order, a, x)
    ensures Ascending(order, [a] + rest)
  {
    var r := [a] + rest;
    forall i, j | 0 <= i < j < |r| ensures Before(order, r[i], r[j]) {
      assert r[j] == rest[j - 1] && rest[j - 1] in rest;
      if i > 0 {
        assert r[i] == rest[i - 1];
      }
    }
  }

  lemma HeadBeforeAll(order: CategoryOrder, p: Pair, ps: seq<Pair>)
    requires Ascending(order, ps) && ps != [] && Before(order, p, ps[0])
    ensures forall x :: x in ps ==> Before(order, p, x)
  {
    forall x | x in ps ensures Before(order, p, x) {
      var j :| 0 <= j < |ps| && ps[j] == x;
      if j > 0 {
        BeforeTransitive(order, p, ps[0], ps[j]);
      }
    }
  }

  lemma AscendingTail(order: CategoryOrder, ps: seq<Pair>)
    requires Ascending(order, ps) && ps != []
    ensures Ascending(order, ps[1..])
    ensures forall x :: x in ps[1..] ==> Before(order, ps[0], x)
  {
    forall x | x in ps[1..] ensures Before(order, ps[0], x) {
      var j :| 0 <= j < |ps[1..]| && ps[1..][j] == x;
      assert ps[j + 1] == x;
    }
    forall i, j | 0 <= i < j < |ps| - 1 ensures Before(order, ps[1..][i], ps[1..][j]) {
      assert ps[1..][i] == ps[i + 1] && ps[1..][j] == ps[j + 1];
    }
  }

  /** The distinct pairs of the records, in sorting key order. */
  function SortedPairs(order: CategoryOrder, recs: seq<Record>): (r: seq<Pair>)
    ensures Ascending(order, r)
    ensures forall p :: p in r <==> p in Occurring(recs)
  {
    if recs == [] then []
    else
      var rest := SortedPairs(order, recs[1..]);
      assert forall k :: 1 <= k < |recs| ==> recs[k] == recs[1..][k - 1];
      assert Occurring(recs) == Occurring(recs[1..]) + (if Complete(recs[0]) then {PairOf(recs[0])} else {}) by {
        forall p ensures p in Occurring(recs) <==> p in Occurring(recs[1..]) || (Complete(recs[0]) && p == PairOf(recs[0])) {
          if p in Occurring(recs) {
            var k :| 0 <= k < |recs| && Complete(recs[k]) && PairOf(recs[k]) == p;
            if k > 0 { assert recs[1..][k - 1] == recs[k]; }
          }
          if p in Occurring(recs[1..]) {
            var k :| 0 <= k < |recs[1..]| && Complete(recs[1..][k]) && PairOf(recs[1..][k]) == p;
            assert recs[k + 1] == recs[1..][k];
          }
        }
      }
      if Complete(recs[0]) then Insert(order, PairOf(recs[0]), rest) else rest
  }

  /** The residues of the records carrying pair `p`, in row order. */
  function Members(recs: seq<Record>, p: Pair): (r: seq<string>)
    ensures |r| <= |recs|
    ensures r != [] <==> p in Occurring(recs)
  {
    if recs == [] then []
    else
      var rest := Members(recs[1..], p);
      assert p in Occurring(recs) <==> p in Occurring(recs[1..]) || (Complete(recs[0]) && p == PairOf(recs[0])) by {
        if p in Occurring(recs) {
          var k :| 0 <= k < |recs| && Complete(recs[k]) && PairOf(recs[k]) == p;
          if k > 0 { assert recs[1..][k - 1] == recs[k]; }
        }
        if p in Occurring(recs[1..]) {
          var k :| 0 <= k < |recs[1..]| && Complete(recs[1..][k]) && PairOf(recs[1..][k]) == p;
          assert recs[k + 1] == recs[1..][k];
        }
      }
      if Complete(recs[0]) && PairOf(recs[0]) == p then [recs[0].residue] + rest else rest
  }

  function PairsOf(groups: seq<Group>): (ps: seq<Pair>)
    ensures |ps| == |groups|
    ensures forall i :: 0 <= i < |groups| ==> ps[i] == Pair(groups[i].category, groups[i].color)
  {
    seq(|groups|, i requires 0 <= i < |groups| => Pair(groups[i].category, groups[i].color))
  }

  /**
   * `bin_residues`: exactly one group per (category, colour) pair that occurs,
   * none empty, strictly ascending by the sort key, each holding the residues
   * of the records that carry its pair in row order.
   */
  function BinResidues(recs: seq<Record>, order: CategoryOrder): (groups: seq<Group>)
    ensures Ascending(order, PairsOf(groups))
    ensures forall p :: p in PairsOf(groups) <==> p in Occurring(recs)
    ensures forall i :: 0 <= i < |groups| ==>
      groups[i].residues != [] && groups[i].residues == Members(recs, PairsOf(groups)[i])
  {
    var ps := SortedPairs(order, recs);
    var groups := seq(|ps|, i requires 0 <= i < |ps| => Group(ps[i].category, ps[i].color, Members(recs, ps[i])));
    assert PairsOf(groups) == ps;
    groups
  }

  /** A residue is a member of a pair's group exactly when some record carries both. */
  lemma {:induction false} MembersExact(recs: seq<Record>, p: Pair, x: string)
    ensures x in Members(recs, p) <==>
      exists k :: 0 <= k < |recs| && Complete(recs[k]) && PairOf(recs[k]) == p && recs[k].residue == x
  {
    if recs != [] {
      MembersExact(recs[1..], p, x);
      if exists k :: 0 <= k < |recs| && Complete(recs[k]) && PairOf(recs[k]) == p && recs[k].residue == x {
        var k :| 0 <= k < |recs| && Complete(recs[k]) && PairOf(recs[k]) == p && recs[k].residue == x;
        if k > 0 { assert recs[1..][k - 1] == recs[k]; }
      }
      if exists k :: 0 <= k < |recs[1..]| && Complete(recs[1..][k]) && PairOf(recs[1..][k]) == p && recs[1..][k].residue == x {
        var k :| 0 <= k < |recs[1..]| && Complete(recs[1..][k]) && PairOf(recs[1..][k]) == p && recs[1..][k].residue == x;
        assert recs[k + 1] == recs[1..][k];
      }
    }
  }

  /** Every record with both a category and a colour lands in exactly one group: the one of its pair. */
  lemma RecordInItsGroup(recs: seq<Record>, order: CategoryOrder, k: nat)
    requires k < |recs| && Complete(recs[k])
    ensures var groups := BinResidues(recs, order);
      exists i :: 0 <= i < |groups| && PairsOf(groups)[i] == PairOf(recs[k]) && recs[k].residue in groups[i].residues
    ensures var groups := BinResidues(recs, order);
      forall i, j :: 0 <= i < |groups| && 0 <= j < |groups| && PairsOf(groups)[i] == PairOf(recs[k]) && PairsOf(groups)[j] == PairOf(recs[k]) ==> i == j
  {
    var groups := BinResidues(recs, order);
    var p := PairOf(recs[k]);
    assert p in Occurring(recs);
    var i :| 0 <= i < |groups| && PairsOf(groups)[i] == p;
    MembersExact(recs, p, recs[k].residue);
    forall i, j | 0 <= i < |groups| && 0 <= j < |groups| && PairsOf(groups)[i] == p && PairsOf(groups)[j] == p
      ensures i == j
    {
      if i < j || j < i {
        BeforeIrreflexive(order, p);
      }
    }
  }

  /**
   * With an ordered category column whose records all take their colour from a
   * fixed palette, the groups follow the order of the categories, at most one per
   * category, each with the palette colour of its category.
   */
  lemma VocabularyGroups(recs: seq<Record>, levels: seq<string>, colors: seq<string>)
    requires Distinct(levels) && |colors| == |levels|
    requires forall k :: 0 <= k < |recs| && Complete(recs[k]) ==>
      recs[k].category.value in levels && recs[k].color.value == colors[Position(levels, recs[k].category.value)]
    ensures var groups := BinResidues(recs, Categories(levels));
      forall i :: 0 <= i < |groups| ==>
        groups[i].category in levels && groups[i].color == colors[Position(levels, groups[i].category)]
    ensures var groups := BinResidues(recs, Categories(levels));
      forall i, j :: 0 <= i < j < |groups| ==> Position(levels, groups[i].category) < Position(levels, groups[j].category)
  {
    var groups := BinResidues(recs, Categories(levels));
    var ps := PairsOf(groups);
    forall i | 0 <= i < |groups|
      ensures groups[i].category in levels && groups[i].color == colors[Position(levels, groups[i].category)]
    {
      assert ps[i] in Occurring(recs);
    }
    forall i, j | 0 <= i < j < |groups|
      ensures Position(levels, groups[i].category) < Position(levels, groups[j].category)
    {
      assert Before(Categories(levels), ps[i], ps[j]);
      assert ps[i] in Occurring(recs) && ps[j] in Occurring(recs);
      if Position(levels, groups[i].category) == Position(levels, groups[j].category) {
        LexLessIrreflexive(groups[i].category);
        LexLessIrreflexive(groups[i].color);
      }
    }
  }
}
