/**
  What the aligner promises: the backward walk produces two sides of equal
  length that give back the inputs once the gaps are erased, its cost is
  the table's final value, and no alignment of the inputs is cheaper.
 */
module AlignerProperties {
  import opened Wrappers
  import opened Aligner

  // ---------------------------------------------------------------------
  // Alignments in general
  // ---------------------------------------------------------------------

  /** The characters of one side, gaps dropped. */
  function Erase(g: seq<Gapped>): (s: string)
    ensures |s| <= |g|
  {
    if g == [] then []
    else Erase(g[..|g| - 1]) + (if g[|g| - 1].Some? then [g[|g| - 1].value] else [])
  }

  /** Cost of one column: a gap against a character costs 1, a pair of
      characters costs their substitution cost. */
  function ColumnCost(x: Gapped, y: Gapped): nat {
    if x.Some? && y.Some? then SubstCost(x.value, y.value)
    else if x.Some? || y.Some? then 1
    else 0
  }

  /** Total cost of an alignment, column by column. */
  function AlignmentCost(t: seq<Gapped>, u: seq<Gapped>): nat
    requires |t| == |u|
  {
    if t == [] then 0
    else AlignmentCost(t[..|t| - 1], u[..|u| - 1]) + ColumnCost(t[|t| - 1], u[|u| - 1])
  }

  /** `t` over `u` is an alignment of `a` with `b`: equal lengths, erasing
      the gaps gives back each input, and no column is a gap on both sides. */
  ghost predicate IsAlignmentOf(t: seq<Gapped>, u: seq<Gapped>, a: string, b: string) {
    |t| == |u| && Erase(t) == a && Erase(u) == b
    && forall k :: 0 <= k < |t| ==> t[k].Some? || u[k].Some?
  }

  /** A string as a side without gaps. */
  function Lift(s: string): seq<Gapped> {
    seq(|s|, k requires 0 <= k < |s| => Some(s[k]))
  }

  /** Lifting a prefix one character longer adds that character as one
      more column. */
  lemma LiftSnoc(s: string, i: nat)
    requires 0 < i <= |s|
    ensures Lift(s[..i]) == Lift(s[..i - 1]) + [Some(s[i - 1])]
  {
  }

  /** A side made only of gaps. */
  function Gaps(n: nat): seq<Gapped> {
    seq(n, _ => None)
  }

  lemma EraseSnoc(g: seq<Gapped>, x: Gapped)
    ensures Erase(g + [x]) == Erase(g) + (if x.Some? then [x.value] else [])
  {
    assert (g + [x])[..|g|] == g;
  }

  lemma PrefixSnoc(s: string, i: nat)
    requires 0 < i <= |s|
    ensures s[..i] == s[..i - 1] + [s[i - 1]]
  {
  }

  lemma CostSnoc(t: seq<Gapped>, u: seq<Gapped>, x: Gapped, y: Gapped)
    requires |t| == |u|
    ensures AlignmentCost(t + [x], u + [y]) == AlignmentCost(t, u) + ColumnCost(x, y)
  {
    assert (t + [x])[..|t|] == t;
    assert (u + [y])[..|u|] == u;
  }

  // ---------------------------------------------------------------------
  // The cost table
  // ---------------------------------------------------------------------

  /** A cell costs nothing exactly when the two prefixes are equal. */
  lemma {:induction false} MinCostZeroIff(s0: string, s1: string, i: nat, j: nat)
    requires i <= |s0| && j <= |s1|
    ensures MinCost(s0, s1, i, j) == 0 <==> s0[..i] == s1[..j]
    decreases i + j
  {
    if i == 0 || j == 0 {
      assert |s0[..i]| == i && |s1[..j]| == j;
    } else {
      MinCostZeroIff(s0, s1, i - 1, j - 1);
      assert s0[..i] == s0[..i - 1] + [s0[i - 1]];
      assert s1[..j] == s1[..j - 1] + [s1[j - 1]];
      if s0[..i] == s1[..j] {
        assert s0[..i - 1] == s0[..i][..i - 1] == s1[..j][..j - 1] == s1[..j - 1];
        assert s0[i - 1] == s0[..i][i - 1] == s1[..j][j - 1] == s1[j - 1];
      }
    }
  }

  /** A cell costs at least the difference of the two prefix lengths (each
      surplus character needs its own deletion or insertion) and at most
      their sum (delete everything, insert everything). */
  lemma {:induction false} MinCostBounds(s0: string, s1: string, i: nat, j: nat)
    requires i <= |s0| && j <= |s1|
    ensures i - j <= MinCost(s0, s1, i, j) && j - i <= MinCost(s0, s1, i, j)
    ensures MinCost(s0, s1, i, j) <= i + j
    decreases i + j
  {
    if 0 < i && 0 < j {
      MinCostBounds(s0, s1, i - 1, j);
      MinCostBounds(s0, s1, i, j - 1);
      MinCostBounds(s0, s1, i - 1, j - 1);
    }
  }

  /** The cost of turning one prefix into the other does not depend on the
      direction. */
  lemma {:induction false} MinCostSymmetric(s0: string, s1: string, i: nat, j: nat)
    requires i <= |s0| && j <= |s1|
    ensures MinCost(s0, s1, i, j) == MinCost(s1, s0, j, i)
    decreases i + j
  {
    if 0 < i && 0 < j {
      MinCostSymmetric(s0, s1, i - 1, j);
      MinCostSymmetric(s0, s1, i, j - 1);
      MinCostSymmetric(s0, s1, i - 1, j - 1);
    }
  }

  /** The backpointer of an interior cell names the first candidate, in the
      order substitution, deletion, insertion, whose cost equals the
      cell's. */
  lemma BackpointerTieBreak(s0: string, s1: string, i: nat, j: nat)
    requires 0 < i <= |s0| && 0 < j <= |s1|
    ensures
      var here := MinCost(s0, s1, i, j);
      var p := Backpointer(s0, s1, i, j);
      var diagonal := here == MinCost(s0, s1, i - 1, j - 1) + SubstCost(s0[i - 1], s1[j - 1]);
      var vertical := here == MinCost(s0, s1, i - 1, j) + 1;
      var horizontal := here == MinCost(s0, s1, i, j - 1) + 1;
      (p == Coord(i - 1, j - 1) <==> diagonal)
      && (p == Coord(i - 1, j) <==> !diagonal && vertical)
      && (p == Coord(i, j - 1) <==> !diagonal && !vertical)
      && (p == Coord(i, j - 1) ==> horizontal)
  {
  }

  /** Following a backpointer costs exactly the difference between the two
      cells: the step lies on a cheapest path. */
  lemma BackpointerStep(s0: string, s1: string, i: nat, j: nat)
    requires i <= |s0| && j <= |s1| && 0 < i + j
    ensures
      var p := Backpointer(s0, s1, i, j);
      MinCost(s0, s1, i, j)
        == MinCost(s0, s1, p.row, p.col)
           + (if p.row < i && p.col < j then SubstCost(s0[i - 1], s1[j - 1]) else 1)
  {
  }

  /** Between "ab" and "ba" the last cell sees deletion and insertion tie
      below substitution, and the deletion is recorded; the swapped inputs
      record a deletion as well, so the alignment of the swapped inputs is
      not the mirror image of the alignment of the inputs. */
  lemma TieBreakPrefersDeletion()
    ensures Backpointer("ab", "ba", 2, 2) == Coord(1, 2)
    ensures Backpointer("ba", "ab", 2, 2) == Coord(1, 2)
  {
    assert MinCost("ab", "ba", 1, 1) == 2;
    assert MinCost("ab", "ba", 1, 2) == 1;
    assert MinCost("ab", "ba", 2, 1) == 1;
    assert MinCost("ba", "ab", 1, 1) == 2;
    assert MinCost("ba", "ab", 1, 2) == 1;
    assert MinCost("ba", "ab", 2, 1) == 1;
  }

  // ---------------------------------------------------------------------
  // The backward walk
  // ---------------------------------------------------------------------

  /** Erasing the gaps of the first side of the walk from (i, j) gives back
      s0[..i]. */
  lemma {:induction false} WalkErasesTop(s0: string, s1: string, b: array2<Option<Coord>>, i: nat, j: nat)
    requires WellFormed(b, |s0|, |s1|)
    requires i <= |s0| && j <= |s1|
    ensures Erase(Walk(s0, s1, b, i, j).top) == s0[..i]
    decreases i + j
  {
    if 0 < i + j {
      var p := b[i, j].value;
      WalkLast(s0, s1, b, i, j);
      WalkErasesTop(s0, s1, b, p.row, p.col);
      var rest := Walk(s0, s1, b, p.row, p.col);
      var x0: Gapped := if p.row < i then Some(s0[i - 1]) else None;
      EraseSnoc(rest.top, x0);
      if p.row < i {
        PrefixSnoc(s0, i);
      }
    }
  }

  /** Erasing the gaps of the second side of the walk from (i, j) gives back
      s1[..j]. */
  lemma {:induction false} WalkErasesBottom(s0: string, s1: string, b: array2<Option<Coord>>, i: nat, j: nat)
    requires WellFormed(b, |s0|, |s1|)
    requires i <= |s0| && j <= |s1|
    ensures Erase(Walk(s0, s1, b, i, j).bottom) == s1[..j]
    decreases i + j
  {
    if 0 < i + j {
      var p := b[i, j].value;
      WalkLast(s0, s1, b, i, j);
      WalkErasesBottom(s0, s1, b, p.row, p.col);
      var rest := Walk(s0, s1, b, p.row, p.col);
      var x1: Gapped := if p.col < j then Some(s1[j - 1]) else None;
      EraseSnoc(rest.bottom, x1);
      if p.col < j {
        PrefixSnoc(s1, j);
      }
    }
  }

  /** No column of the walk is a gap on both sides. */
  lemma {:induction false} WalkHasNoEmptyColumn(s0: string, s1: string, b: array2<Option<Coord>>, i: nat, j: nat)
    requires WellFormed(b, |s0|, |s1|)
    requires i <= |s0| && j <= |s1|
    ensures forall k :: 0 <= k < |Walk(s0, s1, b, i, j).top| ==>
              Walk(s0, s1, b, i, j).top[k].Some? || Walk(s0, s1, b, i, j).bottom[k].Some?
    decreases i + j
  {
    if 0 < i + j {
      var p := b[i, j].value;
      WalkLast(s0, s1, b, i, j);
      WalkHasNoEmptyColumn(s0, s1, b, p.row, p.col);
    }
  }

  /** On any well-formed table the walk is an alignment of the two
      prefixes: equal lengths, the inputs come back once the gaps are
      erased, and no column is empty. */
  lemma WalkIsAlignment(s0: string, s1: string, b: array2<Option<Coord>>, i: nat, j: nat)
    requires WellFormed(b, |s0|, |s1|)
    requires i <= |s0| && j <= |s1|
    ensures IsAlignmentOf(Walk(s0, s1, b, i, j).top, Walk(s0, s1, b, i, j).bottom, s0[..i], s1[..j])
  {
    WalkErasesTop(s0, s1, b, i, j);
    WalkErasesBottom(s0, s1, b, i, j);
    WalkHasNoEmptyColumn(s0, s1, b, i, j);
  }

  /** On the table of s0 and s1 the walk from (i, j) costs exactly the
      table's value there. */
  lemma {:induction false} WalkCost(s0: string, s1: string, b: array2<Option<Coord>>, i: nat, j: nat)
    requires Built(b, s0, s1)
    requires i <= |s0| && j <= |s1|
    ensures AlignmentCost(Walk(s0, s1, b, i, j).top, Walk(s0, s1, b, i, j).bottom) == MinCost(s0, s1, i, j)
    decreases i + j
  {
    if i == 0 && j == 0 {
    } else {
      var p := b[i, j].value;
      assert p == Backpointer(s0, s1, i, j);
      var rest := Walk(s0, s1, b, p.row, p.col);
      WalkLast(s0, s1, b, i, j);
      WalkCost(s0, s1, b, p.row, p.col);
      BackpointerStep(s0, s1, i, j);
      var x0: Gapped := if p.row < i then Some(s0[i - 1]) else None;
      var x1: Gapped := if p.col < j then Some(s1[j - 1]) else None;
      CostSnoc(rest.top, rest.bottom, x0, x1);
    }
  }

  /** Dropping the last column of a side that erases to s[..n] leaves a side
      that erases to the prefix one shorter when that column held a
      character, and to the same prefix when it held a gap. */
  lemma EraseLast(g: seq<Gapped>, s: string, n: nat)
    requires g != [] && n <= |s| && Erase(g) == s[..n]
    ensures
      var x := g[|g| - 1];
      && (x.Some? ==> 0 < n && x.value == s[n - 1] && Erase(g[..|g| - 1]) == s[..n - 1])
      && (x.None? ==> Erase(g[..|g| - 1]) == s[..n])
  {
    var g', x := g[..|g| - 1], g[|g| - 1];
    assert Erase(g) == Erase(g') + (if x.Some? then [x.value] else []);
    if x.Some? {
      PrefixUnsnoc(Erase(g'), x.value, s, n);
    } else {
      assert Erase(g') + [] == Erase(g');
    }
  }

  /** A prefix that ends in c is one character longer than the prefix
      before it. */
  lemma PrefixUnsnoc(e: string, c: char, s: string, n: nat)
    requires n <= |s| && e + [c] == s[..n]
    ensures 0 < n && c == s[n - 1] && e == s[..n - 1]
  {
    assert |e| + 1 == n;
    assert (e + [c])[..n - 1] == e;
    assert (e + [c])[n - 1] == c;
  }

  /** A cell is never dearer than a neighbour plus the cost of the column
      that steps from it. */
  lemma MinCostBelowStep(s0: string, s1: string, i: nat, j: nat, x: Gapped, y: Gapped)
    requires i <= |s0| && j <= |s1|
    requires x.Some? || y.Some?
    requires x.Some? ==> 0 < i && x.value == s0[i - 1]
    requires y.Some? ==> 0 < j && y.value == s1[j - 1]
    ensures MinCost(s0, s1, i, j)
         <= MinCost(s0, s1, if x.Some? then i - 1 else i, if y.Some? then j - 1 else j) + ColumnCost(x, y)
  {
  }

  /** No alignment of s0[..i] with s1[..j] costs less than the table's value
      at (i, j). */
  lemma {:induction false} NoAlignmentIsCheaper(s0: string, s1: string, i: nat, j: nat,
                                                t: seq<Gapped>, u: seq<Gapped>)
    requires i <= |s0| && j <= |s1|
    requires IsAlignmentOf(t, u, s0[..i], s1[..j])
    ensures MinCost(s0, s1, i, j) <= AlignmentCost(t, u)
    decreases |t|
  {
    if t == [] {
      assert |s0[..i]| == 0 && |s1[..j]| == 0;
    } else {
      var k := |t| - 1;
      var t', u', x, y := t[..k], u[..k], t[k], u[k];
      assert t == t' + [x] && u == u' + [y];
      CostSnoc(t', u', x, y);
      EraseLast(t, s0, i);
      EraseLast(u, s1, j);
      var i': nat := if x.Some? then i - 1 else i;
      var j': nat := if y.Some? then j - 1 else j;
      assert IsAlignmentOf(t', u', s0[..i'], s1[..j']) by {
        forall m | 0 <= m < |t'| ensures t'[m].Some? || u'[m].Some? {
          assert t'[m] == t[m] && u'[m] == u[m];
        }
      }
      NoAlignmentIsCheaper(s0, s1, i', j', t', u');
      MinCostBelowStep(s0, s1, i, j, x, y);
    }
  }

  /** The alignment read off the table of s0 and s1 is an alignment of the
      two inputs, costs the table's final value, and is a cheapest one. */
  lemma OptimalAlignment(s0: string, s1: string, b: array2<Option<Coord>>)
    requires Built(b, s0, s1)
    ensures
      var w := Walk(s0, s1, b, |s0|, |s1|);
      IsAlignmentOf(w.top, w.bottom, s0, s1)
      && AlignmentCost(w.top, w.bottom) == MinCost(s0, s1, |s0|, |s1|)
      && forall t, u :: IsAlignmentOf(t, u, s0, s1) ==> AlignmentCost(w.top, w.bottom) <= AlignmentCost(t, u)
  {
    assert s0[..|s0|] == s0 && s1[..|s1|] == s1;
    WalkIsAlignment(s0, s1, b, |s0|, |s1|);
    WalkCost(s0, s1, b, |s0|, |s1|);
    forall t, u | IsAlignmentOf(t, u, s0, s1)
      ensures MinCost(s0, s1, |s0|, |s1|) <= AlignmentCost(t, u)
    {
      NoAlignmentIsCheaper(s0, s1, |s0|, |s1|, t, u);
    }
  }

  /** Aligning a string with itself pairs every character with itself:
      no gap on either side. */
  lemma {:induction false} IdenticalInputs(s: string, b: array2<Option<Coord>>, i: nat)
    requires Built(b, s, s)
    requires i <= |s|
    ensures Walk(s, s, b, i, i) == Alignment(Lift(s[..i]), Lift(s[..i]))
  {
    if i > 0 {
      MinCostZeroIff(s, s, i - 1, i - 1);
      InteriorCell(s, s, i, i, MinCost(s, s, i - 1, i) + 1, MinCost(s, s, i, i - 1) + 1,
                   MinCost(s, s, i - 1, i - 1) + SubstCost(s[i - 1], s[i - 1]));
      assert b[i, i] == Some(Coord(i - 1, i - 1));
      WalkLast(s, s, b, i, i);
      IdenticalInputs(s, b, i - 1);
      LiftSnoc(s, i);
    } else {
      assert Lift(s[..0]) == [];
    }
  }

  /** Aligning a string with itself returns the string on both sides, at
      cost 0. */
  lemma AlignIdentical(s: string, b: array2<Option<Coord>>)
    requires Built(b, s, s)
    ensures Render(Walk(s, s, b, |s|, |s|).top) == s
    ensures Render(Walk(s, s, b, |s|, |s|).bottom) == s
    ensures MinCost(s, s, |s|, |s|) == 0
  {
    assert s[..|s|] == s;
    IdenticalInputs(s, b, |s|);
    MinCostZeroIff(s, s, |s|, |s|);
    assert Render(Lift(s)) == s;
  }

  /** Along row 0 every step is an insertion: gaps on the first side, the
      prefix of the second string on the other. */
  lemma {:induction false} WalkAlongFirstRow(s0: string, s1: string, b: array2<Option<Coord>>, j: nat)
    requires WellFormed(b, |s0|, |s1|)
    requires j <= |s1|
    ensures Walk(s0, s1, b, 0, j) == Alignment(Gaps(j), Lift(s1[..j]))
  {
    if j > 0 {
      assert b[0, j].value == Coord(0, j - 1);
      WalkAlongFirstRow(s0, s1, b, j - 1);
      assert Gaps(j - 1) + [None] == Gaps(j);
      assert Lift(s1[..j - 1]) + [Some(s1[j - 1])] == Lift(s1[..j]);
    }
  }

  /** Along column 0 every step is a deletion: the prefix of the first
      string on one side, gaps on the second. */
  lemma {:induction false} WalkAlongFirstColumn(s0: string, s1: string, b: array2<Option<Coord>>, i: nat)
    requires WellFormed(b, |s0|, |s1|)
    requires i <= |s0|
    ensures Walk(s0, s1, b, i, 0) == Alignment(Lift(s0[..i]), Gaps(i))
  {
    if i > 0 {
      assert b[i, 0].value == Coord(i - 1, 0);
      WalkAlongFirstColumn(s0, s1, b, i - 1);
      assert Gaps(i - 1) + [None] == Gaps(i);
      assert Lift(s0[..i - 1]) + [Some(s0[i - 1])] == Lift(s0[..i]);
    }
  }
}
