/**
  Minimum-cost alignment of two strings: the weighted Levenshtein table of
  Jurafsky and Martin (Fig. 2.21) with insertion and deletion cost 1 and
  substitution cost 2, its backpointer table, and the backward walk that
  turns the backpointers into two padded strings.
 */
module Aligner {
  import opened Wrappers

  /** One side of an alignment column: a character, or `None` for a gap. */
  type Gapped = Option<char>

  /** The character a gap is printed as. */
  const Gap: char := ' '

  /** A cell of the tables: row index into the first string, column index
      into the second. */
  datatype Coord = Coord(row: nat, col: nat)

  /** The only error `ComputeBackpointers` raises. */
  datatype Error = InvalidInput

  /** The two padded sides of an alignment, gaps still distinct from
      characters. */
  datatype Alignment = Alignment(top: seq<Gapped>, bottom: seq<Gapped>)

  // ---------------------------------------------------------------------
  // Costs and the edit-distance recurrence
  // ---------------------------------------------------------------------

  /** Cost of pairing two characters: nothing for a match, 2 for a true
      substitution, so that a substitution never beats a deletion plus an
      insertion. */
  function SubstCost(c0: char, c1: char): (r: nat)
    ensures r == 0 <==> c0 == c1
    ensures r <= 2 && r % 2 == 0
  {
    if c0 == c1 then 0 else 2
  }

  function Min3(a: int, b: int, c: int): (r: int)
    ensures r <= a && r <= b && r <= c
    ensures r == a || r == b || r == c
  {
    if a <= b && a <= c then a else if b <= c then b else c
  }

  /** The cost table's value at (i, j): the cheapest way to turn s0[..i]
      into s1[..j], by the recurrence of the table (edges i and j, interior
      the cheapest of deletion, insertion and substitution). */
  function MinCost(s0: string, s1: string, i: nat, j: nat): (d: nat)
    requires i <= |s0| && j <= |s1|
  {
    if i == 0 then j
    else if j == 0 then i
    else
      Min3(MinCost(s0, s1, i - 1, j) + 1,
           MinCost(s0, s1, i, j - 1) + 1,
           MinCost(s0, s1, i - 1, j - 1) + SubstCost(s0[i - 1], s1[j - 1]))
  }

  // ---------------------------------------------------------------------
  // Backpointers
  // ---------------------------------------------------------------------

  /** `p` is one of the three cells a move into (i, j) can come from. */
  predicate IsNeighbour(i: nat, j: nat, p: Coord) {
    (0 < i && 0 < j && p == Coord(i - 1, j - 1))
    || (0 < i && p == Coord(i - 1, j))
    || (0 < j && p == Coord(i, j - 1))
  }

  /** The backpointer the table records at (i, j): along the edges toward
      the origin; inside, the first candidate that attains the minimum, in
      the order substitution, deletion, insertion. */
  function Backpointer(s0: string, s1: string, i: nat, j: nat): (p: Coord)
    requires i <= |s0| && j <= |s1| && 0 < i + j
    ensures IsNeighbour(i, j, p)
    ensures p.row + p.col < i + j
  {
    if i == 0 then Coord(0, j - 1)
    else if j == 0 then Coord(i - 1, 0)
    else
      var delCost := MinCost(s0, s1, i - 1, j) + 1;
      var insCost := MinCost(s0, s1, i, j - 1) + 1;
      var subCost := MinCost(s0, s1, i - 1, j - 1) + SubstCost(s0[i - 1], s1[j - 1]);
      var best := Min3(delCost, insCost, subCost);
      if best == subCost then Coord(i - 1, j - 1)
      else if best == delCost then Coord(i - 1, j)
      else Coord(i, j - 1)
  }

  /** Every cell other than the origin holds an in-range neighbour, so a
      walk along backpointers always reaches the origin. */
  ghost predicate WellFormed(b: array2<Option<Coord>>, m: nat, n: nat)
    reads b
  {
    b.Length0 == m + 1 && b.Length1 == n + 1
    && forall i: nat, j: nat :: i <= m && j <= n && 0 < i + j ==>
         b[i, j].Some? && IsNeighbour(i, j, b[i, j].value)
  }

  /** `b` is the backpointer table of `s0` and `s1`: well formed, the origin
      has no entry and every other cell holds `Backpointer`. */
  ghost predicate Built(b: array2<Option<Coord>>, s0: string, s1: string)
    reads b
  {
    WellFormed(b, |s0|, |s1|)
    && b[0, 0] == None
    && forall i: nat, j: nat {:trigger b[i, j]} :: i <= |s0| && j <= |s1| && 0 < i + j ==>
         b[i, j] == Some(Backpointer(s0, s1, i, j))
  }

  /** The cells the fill has reached when it is about to compute (i, j):
      both edges, every earlier row, and the earlier cells of row i. */
  predicate Done(i': nat, j': nat, i: nat, j: nat) {
    i' == 0 || j' == 0 || i' < i || (i' == i && j' < j)
  }

  /** Every cell the fill has reached holds its final cost and, away from
      the origin, its final backpointer. */
  ghost predicate Filled(dp: array2<int>, backptr: array2<Option<Coord>>,
                         s0: string, s1: string, i: nat, j: nat)
    reads dp, backptr
  {
    dp.Length0 == backptr.Length0 == |s0| + 1
    && dp.Length1 == backptr.Length1 == |s1| + 1
    && backptr[0, 0] == None
    && (forall i': nat, j': nat {:trigger dp[i', j']} ::
          i' <= |s0| && j' <= |s1| && Done(i', j', i, j) ==> dp[i', j'] == MinCost(s0, s1, i', j'))
    && (forall i': nat, j': nat {:trigger backptr[i', j']} ::
          i' <= |s0| && j' <= |s1| && Done(i', j', i, j) && 0 < i' + j' ==>
          backptr[i', j'] == Some(Backpointer(s0, s1, i', j')))
  }

  /** Fills the cost table `dp` and the backpointer table: the two edge
      loops first, then the interior row by row. */
  method FillTables(s0: string, s1: string)
    returns (dp: array2<int>, backptr: array2<Option<Coord>>)
    ensures fresh(dp) && fresh(backptr)
    ensures dp.Length0 == |s0| + 1 && dp.Length1 == |s1| + 1
    ensures forall i: nat, j: nat {:trigger dp[i, j]} :: i <= |s0| && j <= |s1| ==>
              dp[i, j] == MinCost(s0, s1, i, j)
    ensures Built(backptr, s0, s1)
  {
    var m, n := |s0|, |s1|;
    dp := new int[m + 1, n + 1];
    backptr := new Option<Coord>[m + 1, n + 1]((_, _) => None);
    FillEdges(s0, s1, dp, backptr);
    for i := 1 to m + 1
      invariant Filled(dp, backptr, s0, s1, i, 1)
    {
      FillRow(s0, s1, dp, backptr, i);
    }
    assert Filled(dp, backptr, s0, s1, m + 1, 1);
  }

  /** The base cases: column 0 holds i and points up, row 0 holds j and
      points left. */
  method FillEdges(s0: string, s1: string, dp: array2<int>, backptr: array2<Option<Coord>>)
    requires dp.Length0 == backptr.Length0 == |s0| + 1
    requires dp.Length1 == backptr.Length1 == |s1| + 1
    requires backptr[0, 0] == None
    modifies dp, backptr
    ensures Filled(dp, backptr, s0, s1, 1, 1)
  {
    var m, n := |s0|, |s1|;
    for i := 0 to m + 1
      invariant backptr[0, 0] == None
      invariant forall i': nat :: i' < i ==>
                  dp[i', 0] == i' && (0 < i' ==> backptr[i', 0] == Some(Coord(i' - 1, 0)))
    {
      dp[i, 0] := i;
      if i > 0 {
        backptr[i, 0] := Some(Coord(i - 1, 0));
      }
    }
    for j := 0 to n + 1
      invariant backptr[0, 0] == None
      invariant forall i': nat :: i' <= m ==>
                  dp[i', 0] == i' && (0 < i' ==> backptr[i', 0] == Some(Coord(i' - 1, 0)))
      invariant forall j': nat :: j' < j ==>
                  dp[0, j'] == j' && (0 < j' ==> backptr[0, j'] == Some(Coord(0, j' - 1)))
    {
      dp[0, j] := j;
      if j > 0 {
        backptr[0, j] := Some(Coord(0, j - 1));
      }
    }
  }

  /** Row i of the interior, cell by cell from left to right. */
  method FillRow(s0: string, s1: string, dp: array2<int>, backptr: array2<Option<Coord>>, i: nat)
    requires 0 < i <= |s0|
    requires Filled(dp, backptr, s0, s1, i, 1)
    modifies dp, backptr
    ensures Filled(dp, backptr, s0, s1, i + 1, 1)
  {
    for j := 1 to |s1| + 1
      invariant Filled(dp, backptr, s0, s1, i, j)
    {
      FillCell(s0, s1, dp, backptr, i, j);
    }
  }

  /** One interior cell: it takes the cheapest of its three candidates and
      records the first one attaining it, in the order substitution,
      deletion, insertion. */
  method FillCell(s0: string, s1: string, dp: array2<int>, backptr: array2<Option<Coord>>, i: nat, j: nat)
    requires 0 < i <= |s0| && 0 < j <= |s1|
    requires Filled(dp, backptr, s0, s1, i, j)
    modifies dp, backptr
    ensures Filled(dp, backptr, s0, s1, i, j + 1)
  {
    assert Done(i - 1, j, i, j) && Done(i, j - 1, i, j) && Done(i - 1, j - 1, i, j);
    var delCost := dp[i - 1, j] + 1;
    var insCost := dp[i, j - 1] + 1;
    var subCost := dp[i - 1, j - 1] + SubstCost(s0[i - 1], s1[j - 1]);
    var best := Min3(delCost, insCost, subCost);
    var prev: Coord;
    if best == subCost {
      prev := Coord(i - 1, j - 1);
    } else if best == delCost {
      prev := Coord(i - 1, j);
    } else {
      prev := Coord(i, j - 1);
    }
    InteriorCell(s0, s1, i, j, delCost, insCost, subCost);
    dp[i, j] := best;
    backptr[i, j] := Some(prev);
    // Every other reached cell is untouched by the two writes.
    forall i': nat, j': nat | i' <= |s0| && j' <= |s1| && Done(i', j', i, j + 1)
      ensures dp[i', j'] == MinCost(s0, s1, i', j')
      ensures 0 < i' + j' ==> backptr[i', j'] == Some(Backpointer(s0, s1, i', j'))
    {
      if i' != i || j' != j {
        assert Done(i', j', i, j);
      }
    }
  }

  /** An interior cell, given its three candidate costs: its cost is the
      cheapest of them and its backpointer the first to attain it. */
  lemma InteriorCell(s0: string, s1: string, i: nat, j: nat, delCost: int, insCost: int, subCost: int)
    requires 0 < i <= |s0| && 0 < j <= |s1|
    requires delCost == MinCost(s0, s1, i - 1, j) + 1
    requires insCost == MinCost(s0, s1, i, j - 1) + 1
    requires subCost == MinCost(s0, s1, i - 1, j - 1) + SubstCost(s0[i - 1], s1[j - 1])
    ensures MinCost(s0, s1, i, j) == Min3(delCost, insCost, subCost)
    ensures Backpointer(s0, s1, i, j)
            == if Min3(delCost, insCost, subCost) == subCost then Coord(i - 1, j - 1)
               else if Min3(delCost, insCost, subCost) == delCost then Coord(i - 1, j)
               else Coord(i, j - 1)
  {
  }

  /** Builds the backpointer table of two strings; an absent string is
      rejected before any table exists. The cost table is discarded. */
  method ComputeBackpointers(s0: Option<string>, s1: Option<string>)
    returns (r: Result<array2<Option<Coord>>, Error>)
    ensures r.Failure? <==> s0.None? || s1.None?
    ensures r.Failure? ==> r.error == InvalidInput
    ensures r.Success? ==> fresh(r.value) && Built(r.value, s0.value, s1.value)
  {
    if s0.None? || s1.None? {
      return Failure(InvalidInput);
    }
    var dp, backptr := FillTables(s0.value, s1.value);
    return Success(backptr);
  }

  // ---------------------------------------------------------------------
  // The backward walk
  // ---------------------------------------------------------------------

  /** The alignment of s0[..i] and s1[..j] read off the backpointers,
      leftmost column first: each step back adds one column, a pair of
      characters on a diagonal step and a gap on the side that did not
      move otherwise. */
  ghost function Walk(s0: string, s1: string, b: array2<Option<Coord>>, i: nat, j: nat): (w: Alignment)
    reads b
    requires WellFormed(b, |s0|, |s1|)
    requires i <= |s0| && j <= |s1|
    ensures |w.top| == |w.bottom|
    decreases i + j
  {
    if i == 0 && j == 0 then Alignment([], [])
    else
      var p := b[i, j].value;
      var rest := Walk(s0, s1, b, p.row, p.col);
      if p.row == i - 1 && p.col == j - 1 then
        Alignment(rest.top + [Some(s0[i - 1])], rest.bottom + [Some(s1[j - 1])])
      else if p.row == i - 1 && p.col == j then
        Alignment(rest.top + [Some(s0[i - 1])], rest.bottom + [None])
      else
        Alignment(rest.top + [None], rest.bottom + [Some(s1[j - 1])])
  }

  /** One step of the walk from (i, j): the column it adds is the character
      of each side whose index moves back, and a gap on a side that stays. */
  lemma WalkLast(s0: string, s1: string, b: array2<Option<Coord>>, i: nat, j: nat)
    requires WellFormed(b, |s0|, |s1|)
    requires i <= |s0| && j <= |s1| && 0 < i + j
    ensures
      var p := b[i, j].value;
      var rest := Walk(s0, s1, b, p.row, p.col);
      && (if p.row < i then p.row == i - 1 else p.row == i)
      && (if p.col < j then p.col == j - 1 else p.col == j)
      && (p.row < i || p.col < j)
      && Walk(s0, s1, b, i, j)
         == Alignment(rest.top + [if p.row < i then Some(s0[i - 1]) else None],
                      rest.bottom + [if p.col < j then Some(s1[j - 1]) else None])
  {
  }

  /** The sequence in reverse order. */
  function Reverse<T>(s: seq<T>): (r: seq<T>)
    ensures |r| == |s|
    ensures forall k :: 0 <= k < |s| ==> r[k] == s[|s| - 1 - k]
  {
    if s == [] then [] else [s[|s| - 1]] + Reverse(s[..|s| - 1])
  }

  /** Moving one element from the end of the walk to the end of the
      emitted list leaves the reversed emitted list lined up with the
      rest of the walk. */
  lemma WalkStepReversed<T>(rest: seq<T>, emitted: seq<T>, emitted': seq<T>)
    requires |emitted'| == |emitted| + 1 && emitted'[..|emitted|] == emitted
    ensures (rest + [emitted'[|emitted|]]) + Reverse(emitted) == rest + Reverse(emitted')
  {
  }

  /** The printable form of one side: every gap becomes a space. */
  function Render(g: seq<Gapped>): string {
    seq(|g|, k requires 0 <= k < |g| => if g[k].Some? then g[k].value else Gap)
  }

  /** Walks the backpointers from (|s0|, |s1|) back to the origin, emitting
      one column per step, then reverses and renders both sides. */
  method Align(s0: string, s1: string, backptr: array2<Option<Coord>>)
    returns (r0: string, r1: string)
    requires WellFormed(backptr, |s0|, |s1|)
    ensures r0 == Render(Walk(s0, s1, backptr, |s0|, |s1|).top)
    ensures r1 == Render(Walk(s0, s1, backptr, |s0|, |s1|).bottom)
    ensures |r0| == |r1|
  {
    var i: nat, j: nat := |s0|, |s1|;
    var aligned0: seq<Gapped> := [];
    var aligned1: seq<Gapped> := [];
    ghost var whole := Walk(s0, s1, backptr, |s0|, |s1|);

    while !(i == 0 && j == 0)
      invariant i <= |s0| && j <= |s1|
      invariant whole.top == Walk(s0, s1, backptr, i, j).top + Reverse(aligned0)
      invariant whole.bottom == Walk(s0, s1, backptr, i, j).bottom + Reverse(aligned1)
      decreases i + j
    {
      // WellFormed guarantees an entry here, so the source's defensive
      // stop on a missing backpointer is never taken.
      var prev := backptr[i, j].value;
      var pi, pj := prev.row, prev.col;
      ghost var before0, before1 := aligned0, aligned1;
      if pi == i - 1 && pj == j - 1 {
        aligned0 := aligned0 + [Some(s0[i - 1])];
        aligned1 := aligned1 + [Some(s1[j - 1])];
      } else if pi == i - 1 && pj == j {
        aligned0 := aligned0 + [Some(s0[i - 1])];
        aligned1 := aligned1 + [None];
      } else {
        aligned0 := aligned0 + [None];
        aligned1 := aligned1 + [Some(s1[j - 1])];
      }
      WalkLast(s0, s1, backptr, i, j);
      WalkStepReversed(Walk(s0, s1, backptr, pi, pj).top, before0, aligned0);
      WalkStepReversed(Walk(s0, s1, backptr, pi, pj).bottom, before1, aligned1);
      i, j := pi, pj;
    }
    r0 := Render(Reverse(aligned0));
    r1 := Render(Reverse(aligned1));
  }
}
