/**
 * Sowing: seeds taken from one hole are dropped one by one into the holes
 * that follow it around the ring.  The two strategies differ only in which
 * holes may receive a seed.
 */
module Sowing {
  import opened Holes
  import opened Players
  import opened Boards

  /**
   * The two sowing strategies.  `OpponentOnly` skips the starting hole and
   * every hole of the sower.  `AnyHole`, used for red seeds, is an assumed
   * pattern: the opponent-only walk without its ownership test, so that it
   * skips only the starting hole.
   */
  datatype Pattern = AnyHole | OpponentOnly

  /** Whether hole `j` may receive a seed when `side` sows from `start`. */
  predicate Receives(p: Pattern, side: int, start: int, j: int) {
    0 <= j < NumHoles && j != start && (p == AnyHole || !Owns(side, j))
  }

  /** One step forward around the ring. */
  function Next(idx: int): (r: int)
    requires 0 <= idx < NumHoles
    ensures 0 <= r < NumHoles
    ensures r == (idx + 1) % NumHoles
  {
    if idx == NumHoles - 1 then 0 else idx + 1
  }

  /** The hole `d` steps forward from `from`. */
  function Ahead(from: int, d: int): (r: int)
    requires 0 <= from < NumHoles && 0 <= d <= NumHoles
    ensures 0 <= r < NumHoles
  {
    if from + d < NumHoles then from + d else from + d - NumHoles
  }

  /** Under parity ownership one of any four consecutive holes receives, whatever the start hole is. */
  lemma ReceiverWithinFour(p: Pattern, side: int, start: int, from: int)
    requires 0 <= from < NumHoles
    ensures exists e :: 1 <= e <= 4 && Receives(p, side, start, Ahead(from, e))
  {
    var a := Next(from);
    var c := Next(Next(a));
    NeighboursAlternate(side, a);
    NeighboursAlternate(side, c);
    assert Ahead(from, 1) == a && Ahead(from, 2) == Next(a);
    assert Ahead(from, 3) == c && Ahead(from, 4) == Next(c);
  }

  /** The first offset from `d` on whose hole receives, or 4 when none before it does. */
  function Scan(p: Pattern, side: int, start: int, from: int, d: int): (g: int)
    requires 0 <= from < NumHoles && 1 <= d <= 4
    ensures d <= g <= 4
    decreases 4 - d
  {
    if d == 4 || Receives(p, side, start, Ahead(from, d)) then d
    else Scan(p, side, start, from, d + 1)
  }

  lemma {:induction false} ScanFirst(p: Pattern, side: int, start: int, from: int, d: int)
    requires 0 <= from < NumHoles && 1 <= d <= 4
    requires exists e :: d <= e <= 4 && Receives(p, side, start, Ahead(from, e))
    ensures Receives(p, side, start, Ahead(from, Scan(p, side, start, from, d)))
    ensures forall e :: d <= e < Scan(p, side, start, from, d) ==> !Receives(p, side, start, Ahead(from, e))
    decreases 4 - d
  {
    if d < 4 && !Receives(p, side, start, Ahead(from, d)) {
      ScanFirst(p, side, start, from, d + 1);
    }
  }

  /**
   * How many steps forward from `from` the next receiving hole lies, at most
   * four (GapFirst states that it is the first such offset).
   */
  function Gap(p: Pattern, side: int, start: int, from: int): (g: int)
    requires 0 <= from < NumHoles
    ensures 1 <= g <= 4
  {
    Scan(p, side, start, from, 1)
  }

  /** The hole `Gap` steps ahead receives, and no hole before it does. */
  lemma GapFirst(p: Pattern, side: int, start: int, from: int)
    requires 0 <= from < NumHoles
    ensures Receives(p, side, start, Ahead(from, Gap(p, side, start, from)))
    ensures forall d :: 1 <= d < Gap(p, side, start, from) ==> !Receives(p, side, start, Ahead(from, d))
  {
    ReceiverWithinFour(p, side, start, from);
    ScanFirst(p, side, start, from, 1);
  }

  /** Stepping onto a hole that does not receive brings the next receiver one step closer. */
  lemma GapShrinks(p: Pattern, side: int, start: int, from: int)
    requires 0 <= from < NumHoles && !Receives(p, side, start, Next(from))
    ensures Gap(p, side, start, Next(from)) == Gap(p, side, start, from) - 1
  {
    var g := Gap(p, side, start, from);
    GapFirst(p, side, start, from);
    GapFirst(p, side, start, Next(from));
    assert Ahead(from, 1) == Next(from);
    assert forall d :: 1 <= d <= 3 ==> Ahead(Next(from), d) == Ahead(from, d + 1);
  }

  /** The ring after one seed of `color` was dropped into hole `j`. */
  function Drop(cells: seq<Counts>, j: int, color: SeedColor): (r: seq<Counts>)
    requires 0 <= j < |cells|
    ensures |r| == |cells|
  {
    cells[j := cells[j].Plus(color)]
  }

  /*
   * Sowing, step by step: `left` seeds are still in hand and the cursor is on
   * `idx`.  Each step moves the cursor one hole forward and drops a seed there
   * when that hole may receive one.  `Walk` is the ring the walk leaves and
   * `WalkEnd` the last hole that received (`last` if none did); the holes
   * visited do not depend on the contents of the ring.
   */

  function Walk(p: Pattern, side: int, start: int, color: SeedColor,
                cells: seq<Counts>, idx: int, left: nat): (r: seq<Counts>)
    requires |cells| == NumHoles && 0 <= idx < NumHoles
    ensures |r| == NumHoles
    decreases left, Gap(p, side, start, idx)
  {
    if left == 0 then cells
    else
      var j := Next(idx);
      if Receives(p, side, start, j) then
        Walk(p, side, start, color, Drop(cells, j, color), j, left - 1)
      else
        GapShrinks(p, side, start, idx);
        Walk(p, side, start, color, cells, j, left)
  }

  function WalkEnd(p: Pattern, side: int, start: int, idx: int, left: nat, last: int): int
    requires 0 <= idx < NumHoles
    decreases left, Gap(p, side, start, idx)
  {
    if left == 0 then last
    else
      var j := Next(idx);
      if Receives(p, side, start, j) then
        WalkEnd(p, side, start, j, left - 1, j)
      else
        GapShrinks(p, side, start, idx);
        WalkEnd(p, side, start, j, left, last)
  }

  /** The ring after `seeds` seeds of `color` taken from hole `start` were sown (unchanged when `seeds <= 0`). */
  function Sown(p: Pattern, side: int, start: int, color: SeedColor, cells: seq<Counts>, seeds: int): (r: seq<Counts>)
    requires |cells| == NumHoles && 0 <= start < NumHoles
    ensures |r| == NumHoles
  {
    if seeds <= 0 then cells else Walk(p, side, start, color, cells, start, seeds)
  }

  /** The hole that receives the last of `seeds` seeds sown from `start`, or -1 when `seeds <= 0`. */
  function LastSown(p: Pattern, side: int, start: int, seeds: int): int
    requires 0 <= start < NumHoles
  {
    if seeds <= 0 then -1 else WalkEnd(p, side, start, start, seeds, -1)
  }

  /** Sowing raises the ring's total by exactly the number of seeds sown. */
  lemma {:induction false} WalkTotal(p: Pattern, side: int, start: int, color: SeedColor,
                                     cells: seq<Counts>, idx: int, left: nat)
    requires |cells| == NumHoles && 0 <= idx < NumHoles
    ensures SumTotals(Walk(p, side, start, color, cells, idx, left)) == SumTotals(cells) + left
    decreases left, Gap(p, side, start, idx)
  {
    if left > 0 {
      var j := Next(idx);
      if Receives(p, side, start, j) {
        SumUpdate(cells, j, cells[j].Plus(color));
        WalkTotal(p, side, start, color, Drop(cells, j, color), j, left - 1);
      } else {
        GapShrinks(p, side, start, idx);
        WalkTotal(p, side, start, color, cells, j, left);
      }
    }
  }

  /**
   * Only seeds of `color` are added, and only to holes that may receive:
   * every other colour keeps its count, no count goes down, and a hole that
   * cannot receive (the start hole, and with `OpponentOnly` each hole of
   * the sower) is left exactly as it was.
   */
  lemma {:induction false} WalkOnlyInReceivers(p: Pattern, side: int, start: int, color: SeedColor,
                                               cells: seq<Counts>, idx: int, left: nat)
    requires |cells| == NumHoles && 0 <= idx < NumHoles
    ensures var r := Walk(p, side, start, color, cells, idx, left);
            forall j :: 0 <= j < NumHoles ==>
              r[j].Count(color) >= cells[j].Count(color) &&
              (forall c :: c != color ==> r[j].Count(c) == cells[j].Count(c)) &&
              (!Receives(p, side, start, j) ==> r[j] == cells[j])
    decreases left, Gap(p, side, start, idx)
  {
    if left > 0 {
      var j := Next(idx);
      if Receives(p, side, start, j) {
        WalkOnlyInReceivers(p, side, start, color, Drop(cells, j, color), j, left - 1);
      } else {
        GapShrinks(p, side, start, idx);
        WalkOnlyInReceivers(p, side, start, color, cells, j, left);
      }
    }
  }

  /** When seeds remain, the walk ends on a hole that received one and still holds it. */
  lemma {:induction false} WalkLast(p: Pattern, side: int, start: int, color: SeedColor,
                                    cells: seq<Counts>, idx: int, left: nat, last: int)
    requires |cells| == NumHoles && 0 <= idx < NumHoles && left > 0
    ensures var e := WalkEnd(p, side, start, idx, left, last);
            Receives(p, side, start, e) && Walk(p, side, start, color, cells, idx, left)[e].Count(color) > 0
    decreases left, Gap(p, side, start, idx)
  {
    var j := Next(idx);
    if Receives(p, side, start, j) {
      var d := Drop(cells, j, color);
      if left > 1 {
        WalkLast(p, side, start, color, d, j, left - 1, j);
      } else {
        assert Walk(p, side, start, color, d, j, 0) == d;
      }
    } else {
      GapShrinks(p, side, start, idx);
      WalkLast(p, side, start, color, cells, j, left, last);
    }
  }

  /** When something is sown, the hole answered is one that may receive, so it lies on the ring. */
  lemma LastSownReceives(p: Pattern, side: int, start: int, seeds: int)
    requires 0 <= start < NumHoles && seeds > 0
    ensures Receives(p, side, start, LastSown(p, side, start, seeds))
  {
    WalkLast(p, side, start, Red, Uniform(Empty), start, seeds, -1);
  }

  /** One step of the walk, with the cursor advanced as the strategy writes it, `(idx + 1) % n`. */
  lemma WalkStep(p: Pattern, side: int, start: int, color: SeedColor,
                 cells: seq<Counts>, idx: int, left: nat, last: int)
    requires |cells| == NumHoles && 0 <= idx < NumHoles && left > 0
    ensures var j := (idx + 1) % NumHoles;
            if Receives(p, side, start, j) then
              Walk(p, side, start, color, cells, idx, left) == Walk(p, side, start, color, Drop(cells, j, color), j, left - 1) &&
              WalkEnd(p, side, start, idx, left, last) == WalkEnd(p, side, start, j, left - 1, j)
            else
              Walk(p, side, start, color, cells, idx, left) == Walk(p, side, start, color, cells, j, left) &&
              WalkEnd(p, side, start, idx, left, last) == WalkEnd(p, side, start, j, left, last) &&
              Gap(p, side, start, j) < Gap(p, side, start, idx)
  {
    if !Receives(p, side, start, Next(idx)) {
      GapShrinks(p, side, start, idx);
    }
  }

  /** Drops one seed of `color` into hole `idx`; the other holes are untouched. */
  method DropSeed(board: Board, idx: int, color: SeedColor)
    requires board.Valid() && 0 <= idx < NumHoles
    modifies board.Repr
    ensures board.Valid()
    ensures board.Cells() == Drop(old(board.Cells()), idx, color)
  {
    var h := board.GetHole(idx);
    h.AddSeed(color);
  }

  /**
   * Drops `seeds` seeds of `color` into the holes after `startIndex`, one per
   * receiving hole in circular order, and answers the index of the hole that
   * received the last seed, or -1 when nothing was sown.
   */
  method Sow(p: Pattern, board: Board, current: Player, startIndex: int, seeds: int, color: SeedColor)
    returns (last: int)
    requires board.Valid() && 0 <= startIndex < NumHoles
    modifies board.Repr
    ensures board.Valid()
    ensures board.Cells() == Sown(p, current.index, startIndex, color, old(board.Cells()), seeds)
    ensures last == LastSown(p, current.index, startIndex, seeds)
  {
    if seeds <= 0 {
      return -1;
    }
    ghost var side := current.index;
    ghost var goal := Walk(p, side, startIndex, color, board.Cells(), startIndex, seeds);
    ghost var goalLast := WalkEnd(p, side, startIndex, startIndex, seeds, -1);
    var idx := startIndex;
    last := -1;
    var n := board.GetNumHoles();
    var left := seeds;
    while left > 0
      invariant board.Valid() && 0 <= idx < NumHoles && 0 <= left
      invariant Walk(p, side, startIndex, color, board.Cells(), idx, left) == goal
      invariant WalkEnd(p, side, startIndex, idx, left, last) == goalLast
      decreases left, Gap(p, side, startIndex, idx)
    {
      WalkStep(p, side, startIndex, color, board.Cells(), idx, left, last);
      idx := (idx + 1) % n;
      var receives := idx != startIndex && !(p == OpponentOnly && current.OwnsHoleIndex(idx));
      assert receives == Receives(p, side, startIndex, idx);
      if receives {
        DropSeed(board, idx, color);
        left := left - 1;
        last := idx;
      }
    }
  }
}
