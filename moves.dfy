/**
 * The four move commands.  A move names a hole of the mover and a move type;
 * it empties some counters of that hole, sows them in one or two phases with
 * the cursor carried from one phase to the next, then applies the capture
 * rule from the final cursor and the starvation rule.
 */
module Moves {
  import opened Holes
  import opened Players
  import opened Boards
  import opened Sowing
  import opened Rules

  /** Red, Blue, Transparent-as-Red and Transparent-as-Blue. */
  datatype MoveType = R | B | TR | TB

  /** The sowing strategy of a move type: the red pattern sows anywhere, the blue one only on the opponent's side. */
  function PatternOf(kind: MoveType): Pattern {
    if kind == R || kind == TR then AnyHole else OpponentOnly
  }

  /** The colour sown by the last (or only) phase. */
  function MainColor(kind: MoveType): SeedColor {
    if kind == R || kind == TR then Red else Blue
  }

  /** The colour a move type never takes and never sows. */
  function OtherColor(kind: MoveType): SeedColor {
    if kind == R || kind == TR then Blue else Red
  }

  /** Whether transparent seeds are sown first. */
  predicate TwoPhase(kind: MoveType) {
    kind == TR || kind == TB
  }

  /** How many seeds the first (transparent) phase sows from hole contents `c`. */
  function FirstSeeds(c: Counts, kind: MoveType): nat {
    if TwoPhase(kind) then c.transparent else 0
  }

  /** How many seeds of the main colour are sown from hole contents `c`. */
  function SecondSeeds(c: Counts, kind: MoveType): nat {
    c.Count(MainColor(kind))
  }

  /**
   * The origin hole once the counters a move takes were emptied: exactly the
   * seeds the two phases sow leave it, and the other colour stays.
   */
  function Emptied(c: Counts, kind: MoveType): (r: Counts)
    ensures r.Count(MainColor(kind)) == 0
    ensures r.Count(OtherColor(kind)) == c.Count(OtherColor(kind))
    ensures r.transparent == if TwoPhase(kind) then 0 else c.transparent
    ensures r.Total() + FirstSeeds(c, kind) + SecondSeeds(c, kind) == c.Total()
  {
    if TwoPhase(kind) then c.Without(Transparent).Without(MainColor(kind))
    else c.Without(MainColor(kind))
  }

  /** A move succeeds exactly when the mover owns the hole and the hole holds a seed the move takes. */
  predicate Legal(cells: seq<Counts>, side: int, hole: int, kind: MoveType)
    requires |cells| == NumHoles && 0 <= hole < NumHoles
  {
    Owns(side, hole) && FirstSeeds(cells[hole], kind) + SecondSeeds(cells[hole], kind) > 0
  }

  /**
   * The cursor after one phase that sows `seeds` seeds from `start`: the hole
   * of the last seed, or `start` itself when the phase sows nothing.
   */
  function PhaseEnd(p: Pattern, side: int, start: int, seeds: int): (r: int)
    requires 0 <= start < NumHoles
    ensures 0 <= r < NumHoles
  {
    if seeds > 0 then
      LastSownReceives(p, side, start, seeds);
      LastSown(p, side, start, seeds)
    else start
  }

  /** The cursor after the first (transparent) phase. */
  function FirstEnd(side: int, hole: int, kind: MoveType, c: Counts): (r: int)
    requires 0 <= hole < NumHoles
    ensures 0 <= r < NumHoles
  {
    PhaseEnd(PatternOf(kind), side, hole, FirstSeeds(c, kind))
  }

  /** The cursor the capture rule starts from: the second phase continues from `FirstEnd`. */
  function FinalCursor(side: int, hole: int, kind: MoveType, c: Counts): (r: int)
    requires 0 <= hole < NumHoles
    ensures 0 <= r < NumHoles
  {
    PhaseEnd(PatternOf(kind), side, FirstEnd(side, hole, kind, c), SecondSeeds(c, kind))
  }

  /** The ring once the origin was emptied and both phases were sown (the second from `FirstEnd`). */
  function Sowed(cells: seq<Counts>, side: int, hole: int, kind: MoveType): (r: seq<Counts>)
    requires |cells| == NumHoles && 0 <= hole < NumHoles
    ensures |r| == NumHoles
  {
    var c := cells[hole];
    var p := PatternOf(kind);
    var emptied := cells[hole := Emptied(c, kind)];
    var first := Sown(p, side, hole, Transparent, emptied, FirstSeeds(c, kind));
    Sown(p, side, FirstEnd(side, hole, kind, c), MainColor(kind), first, SecondSeeds(c, kind))
  }

  /** The ring after the whole move: sowing, captures from the final cursor, then starvation of `opponent`. */
  function Played(cells: seq<Counts>, side: int, opponent: int, hole: int, kind: MoveType): (r: seq<Counts>)
    requires |cells| == NumHoles && 0 <= hole < NumHoles
    ensures |r| == NumHoles
  {
    var sowed := Sowed(cells, side, hole, kind);
    Starved(Captured(sowed, FinalCursor(side, hole, kind, cells[hole])), opponent)
  }

  /** The seeds credited to the mover by the move: its captures plus a starvation sweep. */
  function Earned(cells: seq<Counts>, side: int, opponent: int, hole: int, kind: MoveType): nat
    requires |cells| == NumHoles && 0 <= hole < NumHoles
  {
    var sowed := Sowed(cells, side, hole, kind);
    var cursor := FinalCursor(side, hole, kind, cells[hole]);
    Gained(sowed, cursor) + Swept(Captured(sowed, cursor), opponent)
  }

  /** Sowing puts back on the ring exactly the seeds taken out of the origin. */
  lemma SowedConserves(cells: seq<Counts>, side: int, hole: int, kind: MoveType)
    requires |cells| == NumHoles && 0 <= hole < NumHoles
    ensures SumTotals(Sowed(cells, side, hole, kind)) == SumTotals(cells)
  {
    var c := cells[hole];
    var p := PatternOf(kind);
    var t, s := FirstSeeds(c, kind), SecondSeeds(c, kind);
    var emptied := cells[hole := Emptied(c, kind)];
    SumUpdate(cells, hole, Emptied(c, kind));
    var first := Sown(p, side, hole, Transparent, emptied, t);
    if t > 0 {
      WalkTotal(p, side, hole, Transparent, emptied, hole, t);
    }
    assert SumTotals(first) == SumTotals(emptied) + t;
    if s > 0 {
      WalkTotal(p, side, FirstEnd(side, hole, kind, c), MainColor(kind), first, FirstEnd(side, hole, kind, c), s);
    }
  }

  /** Conservation: the seeds on the ring plus those credited to the mover are the seeds the ring held before. */
  lemma PlayConserves(cells: seq<Counts>, side: int, opponent: int, hole: int, kind: MoveType)
    requires |cells| == NumHoles && 0 <= hole < NumHoles
    ensures SumTotals(Played(cells, side, opponent, hole, kind)) + Earned(cells, side, opponent, hole, kind)
            == SumTotals(cells)
  {
    var sowed := Sowed(cells, side, hole, kind);
    var cursor := FinalCursor(side, hole, kind, cells[hole]);
    SowedConserves(cells, side, hole, kind);
    CapturesConserve(sowed, cursor);
    StarveSpec(Captured(sowed, cursor), opponent);
  }

  /** Transparent seeds only widen the choice: wherever Red (Blue) is legal, Transparent-as-Red (-Blue) is too. */
  lemma TransparentWidens(cells: seq<Counts>, side: int, hole: int)
    requires |cells| == NumHoles && 0 <= hole < NumHoles
    ensures Legal(cells, side, hole, R) ==> Legal(cells, side, hole, TR)
    ensures Legal(cells, side, hole, B) ==> Legal(cells, side, hole, TB)
    ensures Legal(cells, side, hole, TR) <==> Legal(cells, side, hole, R) || (Owns(side, hole) && cells[hole].transparent > 0)
    ensures Legal(cells, side, hole, TB) <==> Legal(cells, side, hole, B) || (Owns(side, hole) && cells[hole].transparent > 0)
  {
  }

  /**
   * What sowing does to each hole: only the transparent and main-colour
   * counters grow, the other colour is never touched anywhere, and a hole the
   * strategy never sows into keeps its contents (the origin its emptied ones).
   */
  lemma SowedShape(cells: seq<Counts>, side: int, hole: int, kind: MoveType)
    requires |cells| == NumHoles && 0 <= hole < NumHoles
    ensures var r := Sowed(cells, side, hole, kind);
            forall j :: 0 <= j < NumHoles ==>
              r[j].Count(OtherColor(kind)) == cells[j].Count(OtherColor(kind)) &&
              (PatternOf(kind) == OpponentOnly && Owns(side, j) ==>
                 r[j] == if j == hole then Emptied(cells[hole], kind) else cells[j])
  {
    var c := cells[hole];
    var p := PatternOf(kind);
    var t, s := FirstSeeds(c, kind), SecondSeeds(c, kind);
    var emptied := cells[hole := Emptied(c, kind)];
    var first := Sown(p, side, hole, Transparent, emptied, t);
    var f := FirstEnd(side, hole, kind, c);
    if t > 0 {
      WalkOnlyInReceivers(p, side, hole, Transparent, emptied, hole, t);
    }
    if s > 0 {
      WalkOnlyInReceivers(p, side, f, MainColor(kind), first, f, s);
    }
  }

  /**
   * The second phase starts from the hole of the last transparent seed: when
   * transparent seeds were sown that hole is not the origin, and with the blue
   * pattern it is the opponent's, so on later laps the origin can receive
   * again and that hole is the one skipped.
   */
  lemma SecondPhaseStart(side: int, hole: int, kind: MoveType, c: Counts)
    requires 0 <= hole < NumHoles && FirstSeeds(c, kind) > 0
    ensures FirstEnd(side, hole, kind, c) != hole
    ensures PatternOf(kind) == OpponentOnly ==> !Owns(side, FirstEnd(side, hole, kind, c))
  {
    LastSownReceives(PatternOf(kind), side, hole, FirstSeeds(c, kind));
  }

  /** One turn of a game: the side to move, its origin hole and the move type. */
  datatype Turn = Turn(side: int, hole: int, kind: MoveType)

  /** Every turn is played by side 0 or side 1 from a hole of the ring. */
  predicate WellFormed(turns: seq<Turn>) {
    forall k :: 0 <= k < |turns| ==> 0 <= turns[k].hole < NumHoles && 0 <= turns[k].side <= 1
  }

  /** The ring after the turns were tried in order; an illegal turn leaves it as it was. */
  function Replay(cells: seq<Counts>, turns: seq<Turn>): seq<Counts>
    requires |cells| == NumHoles && WellFormed(turns)
    decreases |turns|
  {
    if turns == [] then cells
    else
      var t := turns[0];
      var next := if Legal(cells, t.side, t.hole, t.kind) then Played(cells, t.side, 1 - t.side, t.hole, t.kind) else cells;
      Replay(next, turns[1..])
  }

  /** The seeds credited to side `who` over those turns. */
  function Score(cells: seq<Counts>, turns: seq<Turn>, who: int): nat
    requires |cells| == NumHoles && WellFormed(turns)
    decreases |turns|
  {
    if turns == [] then 0
    else
      var t := turns[0];
      if Legal(cells, t.side, t.hole, t.kind) then
        (if t.side == who then Earned(cells, t.side, 1 - t.side, t.hole, t.kind) else 0)
        + Score(Played(cells, t.side, 1 - t.side, t.hole, t.kind), turns[1..], who)
      else Score(cells, turns[1..], who)
  }

  /** Over any sequence of turns, the seeds on the ring plus both sides' scores stay what the ring held. */
  lemma {:induction false} ReplayConserves(cells: seq<Counts>, turns: seq<Turn>)
    requires |cells| == NumHoles && WellFormed(turns)
    ensures SumTotals(Replay(cells, turns)) + Score(cells, turns, 0) + Score(cells, turns, 1) == SumTotals(cells)
    decreases |turns|
  {
    if turns != [] {
      var t := turns[0];
      assert WellFormed(turns[1..]) by {
        forall k | 0 <= k < |turns[1..]| ensures 0 <= turns[1..][k].hole < NumHoles && 0 <= turns[1..][k].side <= 1 {
          assert turns[1..][k] == turns[k + 1];
        }
      }
      if Legal(cells, t.side, t.hole, t.kind) {
        PlayConserves(cells, t.side, 1 - t.side, t.hole, t.kind);
        ReplayConserves(Played(cells, t.side, 1 - t.side, t.hole, t.kind), turns[1..]);
      } else {
        ReplayConserves(cells, turns[1..]);
      }
    }
  }

  /** From a fresh board, seeds on the ring plus both tallies stay 96 whatever is played. */
  lemma FreshGameConserves(turns: seq<Turn>)
    requires WellFormed(turns)
    ensures SumTotals(Replay(Uniform(Initial), turns)) + Score(Uniform(Initial), turns, 0) + Score(Uniform(Initial), turns, 1) == 96
  {
    ReplayConserves(Uniform(Initial), turns);
    InitialTotal();
  }

  /** Takes every seed of `color` out of hole `idx` and answers how many there were. */
  method TakeAllOf(board: Board, idx: int, color: SeedColor) returns (s: nat)
    requires board.Valid() && 0 <= idx < NumHoles
    modifies board.Repr
    ensures board.Valid()
    ensures s == old(board.Cells())[idx].Count(color)
    ensures board.Cells() == old(board.Cells())[idx := old(board.Cells())[idx].Without(color)]
  {
    var h := board.GetHole(idx);
    match color
    case Red => s := h.TakeAllRed();
    case Blue => s := h.TakeAllBlue();
    case Transparent => s := h.TakeAllTransparent();
  }

  /**
   * A move bound to a board, the mover, the opponent and an origin hole.
   * `Execute` answers whether the move was legal and applied; an illegal move
   * changes nothing.
   */
  class MoveCommand {
    const board: Board
    const current: Player
    const opponent: Player
    const holeIndex: int
    const kind: MoveType

    constructor (board: Board, current: Player, opponent: Player, holeIndex: int, kind: MoveType)
      ensures this.board == board && this.current == current && this.opponent == opponent
      ensures this.holeIndex == holeIndex && this.kind == kind
    {
      this.board := board;
      this.current := current;
      this.opponent := opponent;
      this.holeIndex := holeIndex;
      this.kind := kind;
    }

    /** The outcome every command promises for its move type `k`. */
    twostate predicate Performed(k: MoveType, ok: bool)
      reads this, board, board.holes, board.Repr, current
      requires old(board.Valid()) && board.Valid() && 0 <= holeIndex < NumHoles
    {
      var before := old(board.Cells());
      (ok <==> Legal(before, current.index, holeIndex, k)) &&
      (ok ==> board.Cells() == Played(before, current.index, opponent.index, holeIndex, k) &&
              current.captured == old(current.captured) + Earned(before, current.index, opponent.index, holeIndex, k)) &&
      (!ok ==> board.Cells() == before && current.captured == old(current.captured))
    }

    /** The rule calls every command ends with: captures from `lastIndex`, then starvation of the opponent. */
    method ApplyRules(lastIndex: int)
      requires board.Valid() && 0 <= lastIndex < NumHoles
      modifies board.Repr, current
      ensures board.Valid()
      ensures board.Cells() == Starved(Captured(old(board.Cells()), lastIndex), opponent.index)
      ensures current.captured == old(current.captured) + Gained(old(board.Cells()), lastIndex)
                                  + Swept(Captured(old(board.Cells()), lastIndex), opponent.index)
    {
      ApplyCaptures(board, current, lastIndex);
      ApplyStarvation(board, current, opponent);
    }

    /**
     * The two phases of a transparent move, from its emptied origin: the
     * transparent seeds first, then the seeds of the main colour from the
     * hole the first phase ended on, each phase skipped when it has no seeds.
     */
    method SowPhases(p: Pattern, main: SeedColor, tSeeds: nat, seeds: nat) returns (lastIndex: int)
      requires board.Valid() && 0 <= holeIndex < NumHoles
      modifies board.Repr
      ensures board.Valid()
      ensures board.Cells() == Sown(p, current.index, PhaseEnd(p, current.index, holeIndex, tSeeds), main,
                                    Sown(p, current.index, holeIndex, Transparent, old(board.Cells()), tSeeds), seeds)
      ensures lastIndex == PhaseEnd(p, current.index, PhaseEnd(p, current.index, holeIndex, tSeeds), seeds)
    {
      lastIndex := holeIndex;
      if tSeeds > 0 {
        lastIndex := Sow(p, board, current, lastIndex, tSeeds, Transparent);
      }
      assert lastIndex == PhaseEnd(p, current.index, holeIndex, tSeeds);
      if seeds > 0 {
        lastIndex := Sow(p, board, current, lastIndex, seeds, main);
      }
    }

    /** Red: all red seeds of the origin, sown with the red pattern. */
    method ExecuteRed() returns (ok: bool)
      requires board.Valid() && 0 <= holeIndex < NumHoles
      modifies board.Repr, current
      ensures board.Valid()
      ensures Performed(R, ok)
    {
      ghost var before := board.Cells();
      if !current.OwnsHoleIndex(holeIndex) {
        return false;
      }
      var seeds := TakeAllOf(board, holeIndex, Red);
      if seeds <= 0 {
        assert before[holeIndex].Without(Red) == before[holeIndex];
        return false;
      }
      assert before[holeIndex].Without(Red) == Emptied(before[holeIndex], R);
      var lastIndex := Sow(AnyHole, board, current, holeIndex, seeds, Red);
      assert lastIndex == FinalCursor(current.index, holeIndex, R, before[holeIndex]);
      assert board.Cells() == Sowed(before, current.index, holeIndex, R);
      ApplyRules(lastIndex);
      return true;
    }

    /** Blue: all blue seeds of the origin, sown on the opponent's side only. */
    method ExecuteBlue() returns (ok: bool)
      requires board.Valid() && 0 <= holeIndex < NumHoles
      modifies board.Repr, current
      ensures board.Valid()
      ensures Performed(B, ok)
    {
      ghost var before := board.Cells();
      if !current.OwnsHoleIndex(holeIndex) {
        return false;
      }
      var seeds := TakeAllOf(board, holeIndex, Blue);
      if seeds <= 0 {
        assert before[holeIndex].Without(Blue) == before[holeIndex];
        return false;
      }
      assert before[holeIndex].Without(Blue) == Emptied(before[holeIndex], B);
      var lastIndex := Sow(OpponentOnly, board, current, holeIndex, seeds, Blue);
      assert lastIndex == FinalCursor(current.index, holeIndex, B, before[holeIndex]);
      assert board.Cells() == Sowed(before, current.index, holeIndex, B);
      ApplyRules(lastIndex);
      return true;
    }

    /** Transparent-as-Red: the transparent seeds, then the red ones from where they ended, both with the red pattern. */
    method ExecuteTransparentAsRed() returns (ok: bool)
      requires board.Valid() && 0 <= holeIndex < NumHoles
      modifies board.Repr, current
      ensures board.Valid()
      ensures Performed(TR, ok)
    {
      ghost var before := board.Cells();
      ghost var c, side := before[holeIndex], current.index;
      if !current.OwnsHoleIndex(holeIndex) {
        return false;
      }
      var tSeeds := TakeAllOf(board, holeIndex, Transparent);
      var rSeeds := TakeAllOf(board, holeIndex, Red);
      ghost var emptied := board.Cells();
      assert emptied == before[holeIndex := Emptied(c, TR)];
      if tSeeds + rSeeds <= 0 {
        assert Emptied(c, TR) == c;
        return false;
      }
      var lastIndex := SowPhases(AnyHole, Red, tSeeds, rSeeds);
      assert board.Cells() == Sowed(before, side, holeIndex, TR);
      assert lastIndex == FinalCursor(side, holeIndex, TR, c);
      ApplyRules(lastIndex);
      return true;
    }

    /** Transparent-as-Blue: the transparent seeds, then the blue ones from where they ended, both on the opponent's side only. */
    method ExecuteTransparentAsBlue() returns (ok: bool)
      requires board.Valid() && 0 <= holeIndex < NumHoles
      modifies board.Repr, current
      ensures board.Valid()
      ensures Performed(TB, ok)
    {
      ghost var before := board.Cells();
      ghost var c, side := before[holeIndex], current.index;
      if !current.OwnsHoleIndex(holeIndex) {
        return false;
      }
      var tSeeds := TakeAllOf(board, holeIndex, Transparent);
      var bSeeds := TakeAllOf(board, holeIndex, Blue);
      ghost var emptied := board.Cells();
      assert emptied == before[holeIndex := Emptied(c, TB)];
      if tSeeds + bSeeds <= 0 {
        assert Emptied(c, TB) == c;
        return false;
      }
      var lastIndex := SowPhases(OpponentOnly, Blue, tSeeds, bSeeds);
      assert board.Cells() == Sowed(before, side, holeIndex, TB);
      assert lastIndex == FinalCursor(side, holeIndex, TB, c);
      ApplyRules(lastIndex);
      return true;
    }

    /**
     * Runs the command of this move type.  Board seeds plus both tallies are
     * conserved, and the opponent's tally is never touched.
     */
    method Execute() returns (ok: bool)
      requires board.Valid() && 0 <= holeIndex < NumHoles
      modifies board.Repr, current
      ensures board.Valid()
      ensures Performed(kind, ok)
      ensures current != opponent ==> opponent.captured == old(opponent.captured)
      ensures current != opponent ==>
                SumTotals(board.Cells()) + current.captured + opponent.captured
                == old(SumTotals(board.Cells()) + current.captured + opponent.captured)
    {
      ghost var before := board.Cells();
      ghost var side, opp := current.index, opponent.index;
      PlayConserves(before, side, opp, holeIndex, kind);
      match kind
      case R => ok := ExecuteRed();
      case B => ok := ExecuteBlue();
      case TR => ok := ExecuteTransparentAsRed();
      case TB => ok := ExecuteTransparentAsBlue();
      if ok {
        assert board.Cells() == Played(before, side, opp, holeIndex, kind);
        assert current.captured == old(current.captured) + Earned(before, side, opp, holeIndex, kind);
      } else {
        assert board.Cells() == before && current.captured == old(current.captured);
      }
    }
  }
}
