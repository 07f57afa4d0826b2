/**
 * The rule controller: the backward capture chain, the starvation sweep,
 * the end-of-game test and the winner code.
 */
module Rules {
  import opened Holes
  import opened Players
  import opened Boards

  /** One hole backward around the ring. */
  function Prev(i: int): (r: int)
    requires 0 <= i < NumHoles
    ensures 0 <= r < NumHoles
  {
    if i == 0 then NumHoles - 1 else i - 1
  }

  /** `Prev` is the step the controller writes as `(i - 1 + n) % n`. */
  lemma PrevWraps(i: int)
    requires 0 <= i < NumHoles
    ensures Prev(i) == (i - 1 + NumHoles) % NumHoles
  {
  }

  /** The hole `s` steps backward from `i`. */
  function Back(i: int, s: int): (r: int)
    requires 0 <= i < NumHoles && 0 <= s <= NumHoles
    ensures 0 <= r < NumHoles
  {
    if s <= i then i - s else i - s + NumHoles
  }

  /** How many steps backward from `i` hole `j` lies. */
  function Behind(i: int, j: int): (d: int)
    requires 0 <= i < NumHoles && 0 <= j < NumHoles
    ensures 0 <= d < NumHoles && Back(i, d) == j
  {
    if j <= i then i - j else i - j + NumHoles
  }

  /** A hole is taken by the capture chain when it holds exactly two or three seeds. */
  predicate Takes(c: Counts) {
    2 <= c.Total() <= 3
  }

  /** How many holes of `cells` hold two or three seeds. */
  function Capturable(cells: seq<Counts>): nat {
    if cells == [] then 0
    else Capturable(cells[..|cells| - 1]) + (if Takes(cells[|cells| - 1]) then 1 else 0)
  }

  /** Emptying a hole that the chain takes lowers the number of takeable holes by one. */
  lemma {:induction false} CapturableClear(cells: seq<Counts>, i: int)
    requires 0 <= i < |cells| && Takes(cells[i])
    ensures Capturable(cells[i := Empty]) + 1 == Capturable(cells)
  {
    var n := |cells| - 1;
    var e := cells[i := Empty];
    assert e[n] == if i == n then Empty else cells[n];
    if i < n {
      assert e[..n] == cells[..n][i := Empty];
      CapturableClear(cells[..n], i);
    } else {
      assert e[..n] == cells[..n];
    }
  }

  /** No more holes can be taken than the ring has. */
  lemma {:induction false} CapturableBound(cells: seq<Counts>)
    ensures Capturable(cells) <= |cells|
  {
    if cells != [] {
      CapturableBound(cells[..|cells| - 1]);
    }
  }

  /*
   * The capture chain from hole `i`: while the current hole holds two or
   * three seeds they go to the mover, the hole is emptied and the chain moves
   * one hole backward.  `Captured` is the ring it leaves, `Gained` the seeds
   * it credits and `Reach` the number of holes it takes.
   */

  function Captured(cells: seq<Counts>, i: int): (r: seq<Counts>)
    requires |cells| == NumHoles && 0 <= i < NumHoles
    ensures |r| == NumHoles
    decreases Capturable(cells)
  {
    if Takes(cells[i]) then
      CapturableClear(cells, i);
      Captured(cells[i := Empty], Prev(i))
    else cells
  }

  function Gained(cells: seq<Counts>, i: int): nat
    requires |cells| == NumHoles && 0 <= i < NumHoles
    decreases Capturable(cells)
  {
    if Takes(cells[i]) then
      CapturableClear(cells, i);
      cells[i].Total() + Gained(cells[i := Empty], Prev(i))
    else 0
  }

  function Reach(cells: seq<Counts>, i: int): nat
    requires |cells| == NumHoles && 0 <= i < NumHoles
    decreases Capturable(cells)
  {
    if Takes(cells[i]) then
      CapturableClear(cells, i);
      1 + Reach(cells[i := Empty], Prev(i))
    else 0
  }

  /** Stepping one hole backward moves every other hole one step closer. */
  lemma BehindPrev(i: int, j: int)
    requires 0 <= i < NumHoles && 0 <= j < NumHoles && j != i
    ensures Behind(Prev(i), j) == Behind(i, j) - 1
  {
  }

  /** The chain takes no more holes than hold two or three seeds. */
  lemma {:induction false} CapturesReach(cells: seq<Counts>, i: int)
    requires |cells| == NumHoles && 0 <= i < NumHoles
    ensures Reach(cells, i) <= Capturable(cells)
    decreases Capturable(cells)
  {
    if Takes(cells[i]) {
      CapturableClear(cells, i);
      CapturesReach(cells[i := Empty], Prev(i));
    }
  }

  /** A hole the chain does not reach keeps its contents. */
  lemma {:induction false} CapturesUntouched(cells: seq<Counts>, i: int, j: int)
    requires |cells| == NumHoles && 0 <= i < NumHoles && 0 <= j < NumHoles
    requires Behind(i, j) >= Reach(cells, i)
    ensures Captured(cells, i)[j] == cells[j]
    decreases Capturable(cells)
  {
    if Takes(cells[i]) {
      CapturableClear(cells, i);
      BehindPrev(i, j);
      CapturesUntouched(cells[i := Empty], Prev(i), j);
    }
  }

  /** A hole the chain reaches held two or three seeds and is left empty. */
  lemma {:induction false} CapturesTaken(cells: seq<Counts>, i: int, j: int)
    requires |cells| == NumHoles && 0 <= i < NumHoles && 0 <= j < NumHoles
    requires Behind(i, j) < Reach(cells, i)
    ensures Takes(cells[j]) && Captured(cells, i)[j] == Empty
    decreases Capturable(cells)
  {
    var e := cells[i := Empty];
    CapturableClear(cells, i);
    if j == i {
      CapturesReach(e, Prev(i));
      CapturableBound(cells);
      CapturesUntouched(e, Prev(i), j);
    } else {
      BehindPrev(i, j);
      CapturesTaken(e, Prev(i), j);
    }
  }

  /** The chain stops on a hole that does not hold two or three seeds. */
  lemma {:induction false} CapturesStop(cells: seq<Counts>, i: int)
    requires |cells| == NumHoles && 0 <= i < NumHoles
    requires Reach(cells, i) <= NumHoles
    ensures !Takes(Captured(cells, i)[Back(i, Reach(cells, i))])
    decreases Capturable(cells)
  {
    if Takes(cells[i]) {
      var e := cells[i := Empty];
      CapturableClear(cells, i);
      CapturesReach(e, Prev(i));
      CapturableBound(e);
      CapturesStop(e, Prev(i));
    }
  }

  /** Every seed the chain takes from the ring is credited to the mover. */
  lemma {:induction false} CapturesConserve(cells: seq<Counts>, i: int)
    requires |cells| == NumHoles && 0 <= i < NumHoles
    ensures SumTotals(Captured(cells, i)) + Gained(cells, i) == SumTotals(cells)
    decreases Capturable(cells)
  {
    if Takes(cells[i]) {
      CapturableClear(cells, i);
      SumUpdate(cells, i, Empty);
      CapturesConserve(cells[i := Empty], Prev(i));
    }
  }

  /**
   * What the chain does: the `Reach` holes backward from `i` (at most the
   * holes that held two or three seeds, so at most sixteen) held two or three
   * seeds and are now empty, every other hole is unchanged, the chain stopped
   * on a hole that does not hold two or three seeds, and every seed taken
   * from the ring is credited to the mover.
   */
  lemma CapturesSpec(cells: seq<Counts>, i: int)
    requires |cells| == NumHoles && 0 <= i < NumHoles
    ensures var r, k := Captured(cells, i), Reach(cells, i);
            k <= Capturable(cells) <= NumHoles &&
            (forall j :: 0 <= j < NumHoles && Behind(i, j) < k ==> Takes(cells[j]) && r[j] == Empty) &&
            (forall j :: 0 <= j < NumHoles && Behind(i, j) >= k ==> r[j] == cells[j]) &&
            !Takes(r[Back(i, k)]) &&
            SumTotals(r) + Gained(cells, i) == SumTotals(cells)
  {
    var r, k := Captured(cells, i), Reach(cells, i);
    CapturesReach(cells, i);
    CapturableBound(cells);
    CapturesStop(cells, i);
    CapturesConserve(cells, i);
    forall j | 0 <= j < NumHoles && Behind(i, j) < k
      ensures Takes(cells[j]) && r[j] == Empty
    {
      CapturesTaken(cells, i, j);
    }
    forall j | 0 <= j < NumHoles && Behind(i, j) >= k
      ensures r[j] == cells[j]
    {
      CapturesUntouched(cells, i, j);
    }
  }

  /**
   * One link of the chain: once hole `i` is taken, the rest of the chain runs
   * from the hole before it, which the controller writes `(i - 1 + n) % n`.
   */
  lemma CapturesStep(cells: seq<Counts>, i: int)
    requires |cells| == NumHoles && 0 <= i < NumHoles && Takes(cells[i])
    ensures Capturable(cells[i := Empty]) < Capturable(cells)
    ensures Captured(cells[i := Empty], (i - 1 + NumHoles) % NumHoles) == Captured(cells, i)
    ensures cells[i].Total() + Gained(cells[i := Empty], (i - 1 + NumHoles) % NumHoles) == Gained(cells, i)
  {
    CapturableClear(cells, i);
    PrevWraps(i);
  }

  /** Credits `current` with the `count` seeds of hole `i`, which is `h`, and empties the hole. */
  method Take(board: Board, current: Player, h: Hole, i: int, count: int)
    requires board.Valid() && 0 <= i < NumHoles && h == board.holes[i]
    modifies board.Repr, current
    ensures board.Valid()
    ensures board.Cells() == old(board.Cells())[i := Empty]
    ensures current.captured == old(current.captured) + count
  {
    current.AddCaptured(count);
    h.Clear();
  }

  /**
   * The capture rule: from `lastIndex` backward, every hole holding two or
   * three seeds is emptied into `current`'s tally, until a hole that does not.
   */
  method ApplyCaptures(board: Board, current: Player, lastIndex: int)
    requires board.Valid() && 0 <= lastIndex < NumHoles
    modifies board.Repr, current
    ensures board.Valid()
    ensures board.Cells() == Captured(old(board.Cells()), lastIndex)
    ensures current.captured == old(current.captured) + Gained(old(board.Cells()), lastIndex)
  {
    ghost var goal := Captured(board.Cells(), lastIndex);
    ghost var goalTally := current.captured + Gained(board.Cells(), lastIndex);
    ghost var cells := board.Cells();
    ghost var tally := current.captured;
    var i := lastIndex;
    var n := board.GetNumHoles();
    while true
      invariant board.Valid() && 0 <= i < NumHoles
      invariant board.Cells() == cells && current.captured == tally
      invariant Captured(cells, i) == goal
      invariant tally + Gained(cells, i) == goalTally
      decreases Capturable(cells)
    {
      var h := board.GetHole(i);
      var count := h.Total();
      assert count == cells[i].Total();
      if count == 2 || count == 3 {
        CapturesStep(cells, i);
        Take(board, current, h, i, count);
        cells, tally := cells[i := Empty], tally + count;
        i := (i - 1 + n) % n;
      } else {
        break;
      }
    }
  }

  /*
   * The starvation rule: when the holes of side `opponent` are all empty, the
   * mover takes every seed left on the ring.  `Starved` is the ring it
   * leaves and `Swept` the seeds it credits.
   */

  function Starved(cells: seq<Counts>, opponent: int): (r: seq<Counts>)
    requires |cells| == NumHoles
    ensures |r| == NumHoles
  {
    if OwnedSum(cells, opponent) == 0 then Uniform(Empty) else cells
  }

  function Swept(cells: seq<Counts>, opponent: int): (r: nat)
    requires |cells| == NumHoles
    ensures r <= SumTotals(cells)
    ensures r > 0 ==> OwnedSum(cells, opponent) == 0
  {
    if OwnedSum(cells, opponent) == 0 then SumTotals(cells) else 0
  }

  /**
   * Starvation moves seeds only from the ring to the mover, and does all or
   * nothing: when every hole of the opponent is empty the ring ends empty and
   * the mover gains all it held, and when one of them holds a seed nothing
   * changes.
   */
  lemma StarveSpec(cells: seq<Counts>, opponent: int)
    requires |cells| == NumHoles
    ensures SumTotals(Starved(cells, opponent)) + Swept(cells, opponent) == SumTotals(cells)
    ensures (forall j :: 0 <= j < NumHoles && Owns(opponent, j) ==> cells[j].Total() == 0) ==>
              Starved(cells, opponent) == Uniform(Empty) && Swept(cells, opponent) == SumTotals(cells)
    ensures (exists j :: 0 <= j < NumHoles && Owns(opponent, j) && cells[j].Total() > 0) ==>
              Starved(cells, opponent) == cells && Swept(cells, opponent) == 0
  {
    InitialTotal();
    OwnedSumZero(cells, opponent);
  }

  /** The starvation rule on the board and the mover's tally. */
  method ApplyStarvation(board: Board, current: Player, opponent: Player)
    requires board.Valid()
    modifies board.Repr, current
    ensures board.Valid()
    ensures board.Cells() == Starved(old(board.Cells()), opponent.index)
    ensures current.captured == old(current.captured) + Swept(old(board.Cells()), opponent.index)
  {
    var oppSeeds := board.TotalSeedsOwnedBy(opponent);
    if oppSeeds == 0 {
      var remaining := board.CollectAllSeeds();
      current.AddCaptured(remaining);
    }
  }

  /** The end-of-game condition: a tally of at least 49, or fewer than ten seeds left on the ring. */
  predicate GameOver(remaining: int, p1: int, p2: int) {
    p1 >= 49 || p2 >= 49 || remaining < 10
  }

  /**
   * With the 96 seeds of a game shared between the ring and the two
   * non-negative tallies, the game is over exactly when a tally reaches 49 or
   * the tallies together exceed 86, and at most one side can reach 49.
   */
  lemma GameOverByTallies(remaining: int, p1: int, p2: int)
    requires remaining + p1 + p2 == 96 && remaining >= 0 && p1 >= 0 && p2 >= 0
    ensures GameOver(remaining, p1, p2) <==> p1 >= 49 || p2 >= 49 || p1 + p2 > 86
    ensures !(p1 >= 49 && p2 >= 49)
  {
  }

  /** Whether the game is over for the board and the first two players. */
  method IsGameOver(board: Board, players: seq<Player>) returns (over: bool)
    requires board.Valid() && |players| >= 2
    ensures over <==> GameOver(SumTotals(board.Cells()), players[0].captured, players[1].captured)
  {
    var remaining := board.TotalSeeds();
    var p1 := players[0].GetCaptured();
    var p2 := players[1].GetCaptured();
    if p1 >= 49 || p2 >= 49 {
      return true;
    }
    if remaining < 10 {
      return true;
    }
    return false;
  }

  /** The winner code as computed: the three-way comparison of the two tallies. */
  function Compare(p1: int, p2: int): (w: int)
    ensures w == 1 <==> p1 > p2
    ensures w == 0 <==> p1 == p2
    ensures w == -1 <==> p1 < p2
  {
    if p1 < p2 then -1 else if p1 == p2 then 0 else 1
  }

  /** The winner code of the first two players, as the controller computes it. */
  function Winner(players: seq<Player>): (w: int)
    requires |players| >= 2
    reads players
    ensures w == Compare(players[0].captured, players[1].captured)
    ensures -1 <= w <= 1
  {
    Compare(players[0].captured, players[1].captured)
  }

  /** The winner code as documented: 0 for the first player, 1 for the second, -1 for a draw. */
  function IntendedCode(p1: int, p2: int): (w: int)
    ensures w == 0 <==> p1 > p2
    ensures w == 1 <==> p1 < p2
    ensures w == -1 <==> p1 == p2
  {
    if p1 > p2 then 0 else if p1 < p2 then 1 else -1
  }

  /** The documented winner code of the first two players. */
  function IntendedWinner(players: seq<Player>): (w: int)
    requires |players| >= 2
    reads players
    ensures w == IntendedCode(players[0].captured, players[1].captured)
    ensures -1 <= w <= 1
  {
    IntendedCode(players[0].captured, players[1].captured)
  }

  /**
   * The computed code never agrees with the documented one: read with the
   * documented meaning, a win of the first player is reported as the second
   * player's, a win of the second player as a draw, and a draw as the first
   * player's win.
   */
  lemma WinnerMisreads(p1: int, p2: int)
    ensures Compare(p1, p2) != IntendedCode(p1, p2)
    ensures p1 > p2 ==> Compare(p1, p2) == IntendedCode(p2 + 1, p2 + 2)
    ensures p1 < p2 ==> Compare(p1, p2) == IntendedCode(p1, p1)
    ensures p1 == p2 ==> Compare(p1, p2) == IntendedCode(p1 + 1, p1)
  {
  }
}
