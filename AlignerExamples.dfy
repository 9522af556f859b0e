/**
  Concrete runs of the aligner: the padded strings the backward walk
  returns on the table built for a few pairs of inputs.
 */
module AlignerExamples {
  import opened Wrappers
  import opened Aligner
  import opened AlignerProperties

  /** "ab" against "ba": the last cell records a deletion of 'b', then 'a'
      is matched and 'b' inserted, giving " ab" over "ba ". */
  lemma AlignAbBa(b: array2<Option<Coord>>)
    requires Built(b, "ab", "ba")
    ensures Render(Walk("ab", "ba", b, 2, 2).top) == " ab"
    ensures Render(Walk("ab", "ba", b, 2, 2).bottom) == "ba "
  {
    TieBreakPrefersDeletion();
    assert Backpointer("ab", "ba", 1, 2) == Coord(0, 1);
    assert b[2, 2] == Some(Coord(1, 2)) && b[1, 2] == Some(Coord(0, 1));
    WalkLast("ab", "ba", b, 0, 1);
    WalkLast("ab", "ba", b, 1, 2);
    WalkLast("ab", "ba", b, 2, 2);
  }

  /** The swapped inputs take the same shape of path: " ba" over "ab ". */
  lemma AlignBaAb(b: array2<Option<Coord>>)
    requires Built(b, "ba", "ab")
    ensures Render(Walk("ba", "ab", b, 2, 2).top) == " ba"
    ensures Render(Walk("ba", "ab", b, 2, 2).bottom) == "ab "
  {
    TieBreakPrefersDeletion();
    assert Backpointer("ba", "ab", 1, 2) == Coord(0, 1);
    assert b[2, 2] == Some(Coord(1, 2)) && b[1, 2] == Some(Coord(0, 1));
    WalkLast("ba", "ab", b, 0, 1);
    WalkLast("ba", "ab", b, 1, 2);
    WalkLast("ba", "ab", b, 2, 2);
  }

  /** Swapping the inputs does not in general swap the two padded strings:
      the first side for ("ba", "ab") is not the second side for
      ("ab", "ba"). */
  lemma SwappedInputsAreNotMirrored(b: array2<Option<Coord>>, c: array2<Option<Coord>>)
    requires Built(b, "ab", "ba") && Built(c, "ba", "ab")
    ensures Render(Walk("ba", "ab", c, 2, 2).top) != Render(Walk("ab", "ba", b, 2, 2).bottom)
    ensures Render(Walk("ba", "ab", c, 2, 2).bottom) != Render(Walk("ab", "ba", b, 2, 2).top)
  {
    AlignAbBa(b);
    AlignBaAb(c);
    assert " ba"[0] != "ba "[0];
    assert "ab "[0] != " ab"[0];
  }

  /** The cost table of "around" against "rounded": away from column 0,
      row i costs one more than the distance from the diagonal j == i - 1
      on which the shared "round" is matched. */
  lemma {:induction false} AroundRoundedCost(s0: string, s1: string, i: nat, j: nat)
    requires s0 == "around" && s1 == "rounded"
    requires 0 < i <= 6 && j <= 7
    ensures MinCost(s0, s1, i, j) == if j == 0 then i else if j < i then i - j else j - i + 2
    decreases i + j
  {
    if 0 < j {
      if 1 < i {
        AroundRoundedCost(s0, s1, i - 1, j);
        AroundRoundedCost(s0, s1, i - 1, j - 1);
      }
      AroundRoundedCost(s0, s1, i, j - 1);
      AroundRoundedMatches(s0, s1, i, j);
      InteriorCell(s0, s1, i, j, MinCost(s0, s1, i - 1, j) + 1, MinCost(s0, s1, i, j - 1) + 1,
                   MinCost(s0, s1, i - 1, j - 1) + SubstCost(s0[i - 1], s1[j - 1]));
    }
  }

  /** The characters of "around" and "rounded" that are equal: the shared
      "round" on the diagonal j == i - 1, and the two final 'd's. */
  lemma AroundRoundedMatches(s0: string, s1: string, i: nat, j: nat)
    requires s0 == "around" && s1 == "rounded"
    requires 0 < i <= 6 && 0 < j <= 7
    ensures s0[i - 1] == s1[j - 1] <==> (j == i - 1 || (i == 6 && j == 7))
  {
  }

  /** Along the path the walk takes, each interior cell points back
      diagonally, except (5, 6) and (5, 5), which point left: there the
      inserted 'e' and 'd' are cheaper than any pairing. */
  lemma AroundRoundedBackpointer(s0: string, s1: string, i: nat, j: nat)
    requires s0 == "around" && s1 == "rounded"
    requires (i == 6 && j == 7) || (i == 5 && 4 <= j <= 6) || (1 < i < 5 && j == i - 1)
    ensures Backpointer(s0, s1, i, j) == if i == 5 && 5 <= j then Coord(i, j - 1) else Coord(i - 1, j - 1)
  {
    AroundRoundedCost(s0, s1, i, j - 1);
    if 1 < i {
      AroundRoundedCost(s0, s1, i - 1, j);
      AroundRoundedCost(s0, s1, i - 1, j - 1);
    }
    AroundRoundedMatches(s0, s1, i, j);
    InteriorCell(s0, s1, i, j, MinCost(s0, s1, i - 1, j) + 1, MinCost(s0, s1, i, j - 1) + 1,
                 MinCost(s0, s1, i - 1, j - 1) + SubstCost(s0[i - 1], s1[j - 1]));
  }

  /** The walk from (3, 2) back to the origin: the 'a' deleted, then "ro"
      matched. */
  lemma AroundRoundedWalkStart(s0: string, s1: string, b: array2<Option<Coord>>)
    requires s0 == "around" && s1 == "rounded"
    requires Built(b, s0, s1)
    ensures Walk(s0, s1, b, 3, 2) == Alignment([Some('a'), Some('r'), Some('o')], [None, Some('r'), Some('o')])
  {
    AroundRoundedBackpointer(s0, s1, 3, 2);
    AroundRoundedBackpointer(s0, s1, 2, 1);
    assert b[3, 2] == Some(Coord(2, 1)) && b[2, 1] == Some(Coord(1, 0));
    assert b[1, 0] == Some(Coord(0, 0));
    WalkLast(s0, s1, b, 1, 0);
    WalkLast(s0, s1, b, 2, 1);
    WalkLast(s0, s1, b, 3, 2);
  }

  /** The walk from (5, 4) back to the origin: "un" matched as well. */
  lemma AroundRoundedWalkPrefix(s0: string, s1: string, b: array2<Option<Coord>>)
    requires s0 == "around" && s1 == "rounded"
    requires Built(b, s0, s1)
    ensures Walk(s0, s1, b, 5, 4)
         == Alignment([Some('a'), Some('r'), Some('o'), Some('u'), Some('n')],
                      [None, Some('r'), Some('o'), Some('u'), Some('n')])
  {
    AroundRoundedWalkStart(s0, s1, b);
    AroundRoundedBackpointer(s0, s1, 5, 4);
    AroundRoundedBackpointer(s0, s1, 4, 3);
    assert b[5, 4] == Some(Coord(4, 3)) && b[4, 3] == Some(Coord(3, 2));
    WalkLast(s0, s1, b, 4, 3);
    WalkLast(s0, s1, b, 5, 4);
  }

  /** The whole walk: three more columns, the 'd's matched around an
      inserted "ed"'s 'e' and 'd'. */
  lemma AroundRoundedWalk(s0: string, s1: string, b: array2<Option<Coord>>)
    requires s0 == "around" && s1 == "rounded"
    requires Built(b, s0, s1)
    ensures Walk(s0, s1, b, 6, 7)
         == Alignment([Some('a'), Some('r'), Some('o'), Some('u'), Some('n'), None, None, Some('d')],
                      [None, Some('r'), Some('o'), Some('u'), Some('n'), Some('d'), Some('e'), Some('d')])
  {
    AroundRoundedWalkPrefix(s0, s1, b);
    AroundRoundedBackpointer(s0, s1, 6, 7);
    AroundRoundedBackpointer(s0, s1, 5, 6);
    AroundRoundedBackpointer(s0, s1, 5, 5);
    assert b[6, 7] == Some(Coord(5, 6)) && b[5, 6] == Some(Coord(5, 5));
    assert b[5, 5] == Some(Coord(5, 4));
    WalkLast(s0, s1, b, 5, 5);
    WalkLast(s0, s1, b, 5, 6);
    WalkLast(s0, s1, b, 6, 7);
  }

  /** The code's own answer for "around" against "rounded": "aroun  d" over
      " rounded", not the "around  " over " rounded" its documentation
      gives; the cheapest cost is 3. */
  lemma AlignAroundRounded(s0: string, s1: string, b: array2<Option<Coord>>)
    requires s0 == "around" && s1 == "rounded"
    requires Built(b, s0, s1)
    ensures Render(Walk(s0, s1, b, 6, 7).top) == "aroun  d"
    ensures Render(Walk(s0, s1, b, 6, 7).bottom) == " rounded"
    ensures MinCost(s0, s1, 6, 7) == 3
  {
    AroundRoundedCost(s0, s1, 6, 7);
    AroundRoundedWalk(s0, s1, b);
  }
}
