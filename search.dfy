/**
 * The search player: legal-move generation, move ordering by killer move,
 * history score and hole total, the killer and history tables, successor
 * positions built on copies, depth-limited alpha-beta and the iterative
 * deepening loop that picks a move among the best ones.
 */
module Search {
  import opened Holes
  import opened Players
  import opened Boards
  import opened Rules
  import opened Moves
  import opened Factory

  /** A candidate move of the search: a 0-based origin hole and a move type. */
  datatype MoveOption = MoveOption(holeIndex: int, kind: MoveType)

  /** The position of a move type in the order R, B, TR, TB. */
  function Ordinal(k: MoveType): (o: nat)
    ensures o < 4
  {
    match k
    case R => 0
    case B => 1
    case TR => 2
    case TB => 3
  }

  /** Different move types have different positions. */
  lemma OrdinalDistinct(a: MoveType, b: MoveType)
    ensures Ordinal(a) == Ordinal(b) ==> a == b
  {
  }

  /** The letters a move type is written with. */
  function Suffix(k: MoveType): string {
    match k
    case R => "R"
    case B => "B"
    case TR => "TR"
    case TB => "TB"
  }

  /** The notation of a move: the 1-based hole number followed by the type letters. */
  function ToNotation(m: MoveOption): string
    requires m.holeIndex >= 0
  {
    Decimal(m.holeIndex + 1) + Suffix(m.kind)
  }

  /** The type letters are upper-case letters, and the move factory reads them back as their move type. */
  lemma SuffixReads(k: MoveType)
    ensures Suffix(k) != [] && !IsDigit(Suffix(k)[0]) && !Trimmable(Suffix(k)[|Suffix(k)| - 1])
    ensures forall i :: 0 <= i < |Suffix(k)| ==> 'A' <= Suffix(k)[i] <= 'Z'
    ensures RemoveWhitespace(Suffix(k)) == Suffix(k) && TypeOf(Suffix(k)) == Some(k)
  {
    NoWhitespaceKept(Suffix(k));
  }

  /** The type letters do not start with a digit. */
  lemma SuffixStarts(k: MoveType)
    ensures Suffix(k) != [] && !IsDigit(Suffix(k)[0])
  {
  }

  /** A hole number of the ring followed by type letters names that hole and type. */
  lemma SuffixDecides(n: nat, k: MoveType)
    requires 1 <= n <= NumHoles
    ensures Decide(n, RemoveWhitespace(Suffix(k))) == Some((n - 1, k))
  {
    SuffixReads(k);
  }

  /** Reading the notation of any move of the ring back through the move factory gives that move. */
  lemma NotationRoundTrip(m: MoveOption)
    requires 0 <= m.holeIndex < NumHoles
    ensures Parse(ToNotation(m)) == Some((m.holeIndex, m.kind))
  {
    var n, t := m.holeIndex + 1, Suffix(m.kind);
    var s := ToNotation(m);
    assert UpperAll(Trim(s)) == s by { NotationNormal(m); }
    assert Read(s) == Decide(n, RemoveWhitespace(t)) by {
      SuffixStarts(m.kind);
      ReadsNumeral(n, t);
    }
    SuffixDecides(n, m.kind);
  }

  /** A notation is already trimmed and upper-cased. */
  lemma NotationNormal(m: MoveOption)
    requires m.holeIndex >= 0
    ensures UpperAll(Trim(ToNotation(m))) == ToNotation(m)
  {
    var n, t := m.holeIndex + 1, Suffix(m.kind);
    var d := Decimal(n);
    var s := d + t;
    DecimalReads(n);
    SuffixReads(m.kind);
    assert s[0] == d[0] && s[|s| - 1] == t[|t| - 1];
    forall i | 0 <= i < |s| ensures !('a' <= s[i] <= 'z') {
      if i >= |d| {
        assert s[i] == t[i - |d|];
      } else {
        assert s[i] == d[i];
      }
    }
    Normalised(s);
  }

  /** Different moves of the ring are written differently. */
  lemma NotationInjective(m1: MoveOption, m2: MoveOption)
    requires 0 <= m1.holeIndex < NumHoles && 0 <= m2.holeIndex < NumHoles
    ensures ToNotation(m1) == ToNotation(m2) ==> m1 == m2
  {
    NotationRoundTrip(m1);
    NotationRoundTrip(m2);
  }

  /** The moves the generator emits for hole `i` holding `c`, in the order R, B, TR, TB. */
  function HoleMoves(i: int, c: Counts): seq<MoveOption> {
    (if c.red > 0 then [MoveOption(i, R)] else []) +
    (if c.blue > 0 then [MoveOption(i, B)] else []) +
    (if c.transparent + c.red > 0 then [MoveOption(i, TR)] else []) +
    (if c.transparent + c.blue > 0 then [MoveOption(i, TB)] else [])
  }

  /** The moves emitted for the holes below `n` that `side` owns, hole by hole, before sorting. */
  function Emitted(cells: seq<Counts>, side: int, n: nat): seq<MoveOption>
    requires n <= |cells|
  {
    if n == 0 then []
    else Emitted(cells, side, n - 1) + (if Owns(side, n - 1) then HoleMoves(n - 1, cells[n - 1]) else [])
  }

  /** The moves generated for `side` over the whole ring, before sorting. */
  function Generated(cells: seq<Counts>, side: int): seq<MoveOption>
    requires |cells| == NumHoles
  {
    Emitted(cells, side, |cells|)
  }

  /** A hole's generation conditions are exactly the move commands' legality conditions. */
  lemma HoleMovesLegal(i: int, c: Counts, m: MoveOption)
    ensures m in HoleMoves(i, c) <==> m.holeIndex == i && FirstSeeds(c, m.kind) + SecondSeeds(c, m.kind) > 0
    ensures |HoleMoves(i, c)| <= 4
  {
  }

  /** The generator emits a move exactly when the move command would accept it. */
  lemma {:induction false} EmittedLegal(cells: seq<Counts>, side: int, n: nat, m: MoveOption)
    requires |cells| == NumHoles && n <= NumHoles
    ensures m in Emitted(cells, side, n) <==> 0 <= m.holeIndex < n && Legal(cells, side, m.holeIndex, m.kind)
  {
    if n > 0 {
      EmittedLegal(cells, side, n - 1, m);
      HoleMovesLegal(n - 1, cells[n - 1], m);
    }
  }

  /** The moves emitted for hole `i` alone: its moves when `side` owns it, none otherwise. */
  function HoleSlot(cells: seq<Counts>, side: int, i: int): seq<MoveOption>
    requires 0 <= i < |cells|
  {
    if Owns(side, i) then HoleMoves(i, cells[i]) else []
  }

  /** Two neighbouring holes contribute at most four moves, since the side owns only one of them. */
  lemma PairBound(cells: seq<Counts>, side: int, i: int)
    requires |cells| == NumHoles && 0 <= i && i + 1 < NumHoles
    ensures |HoleSlot(cells, side, i)| + |HoleSlot(cells, side, i + 1)| <= 4
  {
    NeighboursAlternate(side, i);
    HoleMovesLegal(i, cells[i], MoveOption(0, R));
    HoleMovesLegal(i + 1, cells[i + 1], MoveOption(0, R));
  }

  /** Ownership alternates along the ring, so at most four moves per two holes are emitted. */
  lemma {:induction false} EmittedBound(cells: seq<Counts>, side: int, n: nat)
    requires |cells| == NumHoles && n <= NumHoles && n % 2 == 0
    ensures |Emitted(cells, side, n)| <= 2 * n
  {
    if n >= 2 {
      EmittedBound(cells, side, n - 2);
      assert Emitted(cells, side, n - 1) == Emitted(cells, side, n - 2) + HoleSlot(cells, side, n - 2);
      assert Emitted(cells, side, n) == Emitted(cells, side, n - 1) + HoleSlot(cells, side, n - 1);
      PairBound(cells, side, n - 2);
    }
  }

  /** At most 32 moves are generated. */
  lemma EmittedAtMost32(cells: seq<Counts>, side: int)
    requires |cells| == NumHoles
    ensures |Generated(cells, side)| <= 32
  {
    EmittedBound(cells, side, |cells|);
  }

  /** No move is emitted twice. */
  lemma {:induction false} EmittedDistinct(cells: seq<Counts>, side: int, n: nat)
    requires |cells| == NumHoles && n <= NumHoles
    ensures Distinct(Emitted(cells, side, n))
  {
    if n > 0 {
      EmittedDistinct(cells, side, n - 1);
      var front, last := Emitted(cells, side, n - 1), HoleSlot(cells, side, n - 1);
      assert Emitted(cells, side, n) == front + last;
      forall m | m in front ensures m !in last {
        EmittedBelow(cells, side, n - 1, m);
        HoleMovesLegal(n - 1, cells[n - 1], m);
      }
      HoleMovesDistinct(n - 1, cells[n - 1]);
      DistinctConcat(front, last);
    }
  }

  /** Every move emitted for the holes below `n` is on one of them. */
  lemma {:induction false} EmittedBelow(cells: seq<Counts>, side: int, n: nat, m: MoveOption)
    requires n <= |cells|
    ensures m in Emitted(cells, side, n) ==> 0 <= m.holeIndex < n
  {
    if n > 0 {
      EmittedBelow(cells, side, n - 1, m);
      assert m in HoleSlot(cells, side, n - 1) ==> m.holeIndex == n - 1;
      assert Emitted(cells, side, n) == Emitted(cells, side, n - 1) + HoleSlot(cells, side, n - 1);
    }
  }

  /** A hole's moves have different types. */
  lemma HoleMovesDistinct(i: int, c: Counts)
    ensures Distinct(HoleMoves(i, c))
  {
    var s := HoleMoves(i, c);
    forall a, b | 0 <= a < b < |s| ensures s[a] != s[b] {
      var ka, kb := s[a].kind, s[b].kind;
      assert Ordinal(ka) < Ordinal(kb);
    }
  }

  /** No element occurs twice. */
  predicate Distinct(s: seq<MoveOption>) {
    forall i, j :: 0 <= i < j < |s| ==> s[i] != s[j]
  }

  /** Two lists without repetitions and without common elements join into one without repetitions. */
  lemma DistinctConcat(a: seq<MoveOption>, b: seq<MoveOption>)
    requires Distinct(a) && Distinct(b) && forall x :: x in a ==> x !in b
    ensures Distinct(a + b)
  {
    var all := a + b;
    forall i, j | 0 <= i < j < |all| ensures all[i] != all[j] {
      if j < |a| {
        assert all[i] == a[i] && all[j] == a[j];
      } else if i >= |a| {
        assert all[i] == b[i - |a|] && all[j] == b[j - |a|];
      } else {
        assert all[i] in a && all[j] == b[j - |a|];
      }
    }
  }

  /**
   * A sort key: killer flag, history score and hole total, compared in that
   * order, the larger first.
   */
  datatype Rank = Rank(killer: int, history: int, seeds: int)

  /** `a` may be placed before `b`: it is at least as large in the order killer, history, total. */
  predicate Outranks(a: Rank, b: Rank) {
    a.killer > b.killer ||
    (a.killer == b.killer && (a.history > b.history || (a.history == b.history && a.seeds >= b.seeds)))
  }

  /** The order is total and transitive. */
  lemma OutranksOrder(a: Rank, b: Rank, c: Rank)
    ensures Outranks(a, b) || Outranks(b, a)
    ensures Outranks(a, b) && Outranks(b, c) ==> Outranks(a, c)
  {
  }

  /** Every element may be placed before every later one. */
  predicate SortedBy(s: seq<MoveOption>, rank: MoveOption -> Rank) {
    forall i, j :: 0 <= i < j < |s| ==> Outranks(rank(s[i]), rank(s[j]))
  }

  /** `x` placed into a sorted list before the first element it outranks. */
  function Insert(x: MoveOption, s: seq<MoveOption>, rank: MoveOption -> Rank): (r: seq<MoveOption>)
    ensures multiset(r) == multiset(s) + multiset{x}
  {
    if s == [] || Outranks(rank(x), rank(s[0])) then [x] + s
    else
      assert s == [s[0]] + s[1..];
      [s[0]] + Insert(x, s[1..], rank)
  }

  /**
   * The list sorted by the comparator "larger rank first"; elements of equal
   * rank keep their order, as with a stable sort.
   */
  function SortBy(s: seq<MoveOption>, rank: MoveOption -> Rank): (r: seq<MoveOption>)
    ensures multiset(r) == multiset(s)
  {
    if s == [] then []
    else
      assert s == [s[0]] + s[1..];
      Insert(s[0], SortBy(s[1..], rank), rank)
  }

  lemma {:induction false} InsertSpec(x: MoveOption, s: seq<MoveOption>, rank: MoveOption -> Rank)
    requires SortedBy(s, rank)
    ensures SortedBy(Insert(x, s, rank), rank)
    ensures multiset(Insert(x, s, rank)) == multiset(s) + multiset{x}
  {
    if s == [] || Outranks(rank(x), rank(s[0])) {
      InsertFront(x, s, rank);
    } else {
      var tail := s[1..];
      assert s == [s[0]] + tail;
      SortedTail(s, rank);
      InsertSpec(x, tail, rank);
      OutranksOrder(rank(x), rank(s[0]), rank(x));
      InsertBehind(s[0], x, tail, Insert(x, tail, rank), rank);
    }
  }

  /** A list stays sorted without its head. */
  lemma SortedTail(s: seq<MoveOption>, rank: MoveOption -> Rank)
    requires s != [] && SortedBy(s, rank)
    ensures SortedBy(s[1..], rank)
    ensures forall y :: y in s[1..] ==> Outranks(rank(s[0]), rank(y))
  {
    var tail := s[1..];
    forall i, j | 0 <= i < j < |tail| ensures Outranks(rank(tail[i]), rank(tail[j])) {
      assert tail[i] == s[i + 1] && tail[j] == s[j + 1];
    }
    forall y | y in tail ensures Outranks(rank(s[0]), rank(y)) {
      var k :| 0 <= k < |tail| && tail[k] == y;
      assert s[k + 1] == y;
    }
  }

  /** An element that outranks the head of a sorted list may be put in front of it. */
  lemma InsertFront(x: MoveOption, s: seq<MoveOption>, rank: MoveOption -> Rank)
    requires SortedBy(s, rank) && (s == [] || Outranks(rank(x), rank(s[0])))
    ensures SortedBy([x] + s, rank)
  {
    var r := [x] + s;
    forall i, j | 0 <= i < j < |r| ensures Outranks(rank(r[i]), rank(r[j])) {
      if i == 0 {
        OutranksOrder(rank(x), rank(s[0]), rank(s[j - 1]));
      } else {
        assert r[i] == s[i - 1] && r[j] == s[j - 1];
      }
    }
  }

  /** A head that outranks everything in a sorted list may be put in front of it. */
  lemma InsertBehind(h: MoveOption, x: MoveOption, tail: seq<MoveOption>, rest: seq<MoveOption>, rank: MoveOption -> Rank)
    requires SortedBy(rest, rank) && multiset(rest) == multiset(tail) + multiset{x}
    requires Outranks(rank(h), rank(x)) && forall y :: y in tail ==> Outranks(rank(h), rank(y))
    ensures SortedBy([h] + rest, rank)
  {
    var r := [h] + rest;
    forall i, j | 0 <= i < j < |r| ensures Outranks(rank(r[i]), rank(r[j])) {
      if i == 0 {
        var y := rest[j - 1];
        assert y in multiset(rest);
        assert y == x || y in multiset(tail);
      } else {
        assert r[i] == rest[i - 1] && r[j] == rest[j - 1];
      }
    }
  }

  /** Sorting gives a sorted permutation of its input. */
  lemma {:induction false} SortBySpec(s: seq<MoveOption>, rank: MoveOption -> Rank)
    ensures SortedBy(SortBy(s, rank), rank)
    ensures multiset(SortBy(s, rank)) == multiset(s)
  {
    if s != [] {
      SortBySpec(s[1..], rank);
      InsertSpec(s[0], SortBy(s[1..], rank), rank);
      assert s == [s[0]] + s[1..];
    }
  }

  /** The total of the origin hole of `m`, or 0 off the ring. */
  function SeedsAt(cells: seq<Counts>, hole: int): nat {
    if 0 <= hole < |cells| then cells[hole].Total() else 0
  }

  /** The generator's order: the fuller origin hole first. */
  function TotalRank(cells: seq<Counts>): MoveOption -> Rank {
    (m: MoveOption) => Rank(0, 0, SeedsAt(cells, m.holeIndex))
  }

  /** The value of `m` in a history row of 16 holes by 4 move types, or 0 off the ring. */
  function HistoryScore(row: seq<int>, m: MoveOption): int {
    if 0 <= m.holeIndex < NumHoles && |row| == 4 * NumHoles then row[m.holeIndex * 4 + Ordinal(m.kind)] else 0
  }

  /** The ordering of the search: the killer move first, then the higher history score, then the fuller hole. */
  function OrderRank(killer: Option<MoveOption>, row: seq<int>, cells: seq<Counts>): MoveOption -> Rank {
    (m: MoveOption) => Rank(if killer == Some(m) then 1 else 0, HistoryScore(row, m), SeedsAt(cells, m.holeIndex))
  }

  /** When the killer move is among the moves, ordering puts it first. */
  lemma KillerFirst(moves: seq<MoveOption>, k: MoveOption, row: seq<int>, cells: seq<Counts>)
    requires k in moves
    ensures SortBy(moves, OrderRank(Some(k), row, cells)) != []
    ensures SortBy(moves, OrderRank(Some(k), row, cells))[0] == k
  {
    var rank := OrderRank(Some(k), row, cells);
    var sorted := SortBy(moves, rank);
    SortBySpec(moves, rank);
    assert k in multiset(sorted);
    var j :| 0 <= j < |sorted| && sorted[j] == k;
    if j > 0 {
      assert Outranks(rank(sorted[0]), rank(sorted[j]));
    }
  }

  /** Ordering by history and total: of two moves, the one with the higher history score comes first. */
  lemma HistoryOrders(moves: seq<MoveOption>, row: seq<int>, cells: seq<Counts>, i: int, j: int)
    requires 0 <= i < j < |SortBy(moves, OrderRank(None, row, cells))|
    ensures var s := SortBy(moves, OrderRank(None, row, cells));
            HistoryScore(row, s[i]) > HistoryScore(row, s[j]) ||
            (HistoryScore(row, s[i]) == HistoryScore(row, s[j]) && SeedsAt(cells, s[i].holeIndex) >= SeedsAt(cells, s[j].holeIndex))
  {
    SortBySpec(moves, OrderRank(None, row, cells));
  }

  /** The static evaluation before its clamp: ring, tally of the evaluated side, tally of its opponent, evaluated side. */
  type Heuristic = (seq<Counts>, int, int, int) -> int

  /** The evaluator's final clamp into [0, 100]. */
  function Clamp(x: int): (r: int)
    ensures 0 <= r <= 100
    ensures 0 <= x <= 100 ==> r == x
    ensures x < 0 ==> r == 0
    ensures x > 100 ==> r == 100
  {
    if x < 0 then 0 else if x > 100 then 100 else x
  }

  /** The tally of side `i` among the two. */
  function Tally(t0: int, t1: int, i: int): int {
    if i == 0 then t0 else t1
  }

  /** The tally of side `who` after a move of `side` that earned `e` seeds. */
  function Credit(t: int, who: int, side: int, e: int): int {
    if side == who then t + e else t
  }

  /** The evaluation of a position for the root side, as the evaluator returns it. */
  function Leaf(h: Heuristic, cells: seq<Counts>, t0: int, t1: int, root: int): (v: int)
    ensures 0 <= v <= 100
  {
    Clamp(h(cells, Tally(t0, t1, root), Tally(t0, t1, 1 - root), root))
  }

  /** The larger and the smaller of two scores. */
  function Max(a: int, b: int): int {
    if a >= b then a else b
  }

  function Min(a: int, b: int): int {
    if a <= b then a else b
  }

  /** Every move of a list names a hole of the ring. */
  predicate OnRing(ms: seq<MoveOption>) {
    forall m :: m in ms ==> 0 <= m.holeIndex < NumHoles
  }

  /** The generated moves are moves of the ring. */
  lemma EmittedOnRing(cells: seq<Counts>, side: int)
    requires |cells| == NumHoles
    ensures OnRing(Generated(cells, side))
    ensures forall m :: m in Generated(cells, side) <==> 0 <= m.holeIndex < NumHoles && Legal(cells, side, m.holeIndex, m.kind)
  {
    forall m ensures m in Generated(cells, side) <==> 0 <= m.holeIndex < NumHoles && Legal(cells, side, m.holeIndex, m.kind) {
      EmittedLegal(cells, side, |cells|, m);
    }
  }

  /** The largest value of `f` over the non-empty list `ms`. */
  function MaxOf(ms: seq<MoveOption>, f: MoveOption --> int): (r: int)
    requires ms != [] && forall m :: m in ms ==> f.requires(m)
    ensures forall m :: m in ms ==> f(m) <= r
    ensures exists m :: m in ms && f(m) == r
  {
    if |ms| == 1 then f(ms[0])
    else
      var rest := MaxOf(ms[1..], f);
      assert forall m :: m in ms ==> m == ms[0] || m in ms[1..];
      Max(f(ms[0]), rest)
  }

  /** The smallest value of `f` over the non-empty list `ms`. */
  function MinOf(ms: seq<MoveOption>, f: MoveOption --> int): (r: int)
    requires ms != [] && forall m :: m in ms ==> f.requires(m)
    ensures forall m :: m in ms ==> f(m) >= r
    ensures exists m :: m in ms && f(m) == r
  {
    if |ms| == 1 then f(ms[0])
    else
      var rest := MinOf(ms[1..], f);
      assert forall m :: m in ms ==> m == ms[0] || m in ms[1..];
      Min(f(ms[0]), rest)
  }

  /**
   * The depth-limited minimax value, for the root side, of the position with
   * ring `cells`, tallies `t0` and `t1` and `side` to move, at `depth` below
   * the root: the evaluation at the depth limit, at the end of the game or
   * when no move is legal; otherwise the best child value for the root side
   * and the worst one for its opponent.  It does not depend on the order in
   * which moves are tried, and it lies in the evaluation's range.
   */
  function Value(h: Heuristic, cells: seq<Counts>, t0: int, t1: int, side: int, depth: int, limit: int, root: int): (v: int)
    requires |cells| == NumHoles && 0 <= side <= 1
    ensures 0 <= v <= 100
    decreases limit - depth, 2
  {
    if depth >= limit || GameOver(SumTotals(cells), t0, t1) then Leaf(h, cells, t0, t1, root)
    else
      var ms := Generated(cells, side);
      if ms == [] then Leaf(h, cells, t0, t1, root)
      else
        EmittedOnRing(cells, side);
        var f := Children(h, cells, t0, t1, side, depth, limit, root);
        if side == root then MaxOf(ms, f) else MinOf(ms, f)
  }

  /** The child values of a position as a function of the move, defined on the moves of the ring. */
  function Children(h: Heuristic, cells: seq<Counts>, t0: int, t1: int, side: int, depth: int, limit: int, root: int): (f: MoveOption --> int)
    requires |cells| == NumHoles && 0 <= side <= 1 && depth < limit
    ensures forall m: MoveOption :: 0 <= m.holeIndex < NumHoles ==> f.requires(m) && f(m) == Child(h, cells, t0, t1, side, depth, limit, root, m)
    decreases limit - depth, 1
  {
    (m: MoveOption) requires 0 <= m.holeIndex < NumHoles => Child(h, cells, t0, t1, side, depth, limit, root, m)
  }

  /** The value of the position reached by move `m`: the ring and the mover's tally after it, the other side to move. */
  function Child(h: Heuristic, cells: seq<Counts>, t0: int, t1: int, side: int, depth: int, limit: int, root: int, m: MoveOption): (v: int)
    requires |cells| == NumHoles && 0 <= side <= 1 && 0 <= m.holeIndex < NumHoles && depth < limit
    ensures 0 <= v <= 100
    decreases limit - depth, 0
  {
    var e := Earned(cells, side, 1 - side, m.holeIndex, m.kind);
    Value(h, Played(cells, side, 1 - side, m.holeIndex, m.kind),
          Credit(t0, 0, side, e), Credit(t1, 1, side, e), 1 - side, depth + 1, limit, root)
  }

  /**
   * What a fail-soft alpha-beta search promises about its result `r` for a
   * position of value `v` searched with window (`alpha`, `beta`): the exact
   * value inside the window, an upper bound at or below `alpha`, a lower bound
   * at or above `beta`.
   */
  predicate FailSoft(r: int, alpha: int, beta: int, v: int) {
    (r <= alpha ==> v <= r) && (r >= beta ==> v >= r) && (alpha < r < beta ==> r == v)
  }

  /** Minus and plus infinity of the search: below and above every score in [0, 100]. */
  const NegInf := -1
  const PosInf := 101

  /** With the full window the search result is the exact value. */
  lemma FullWindowExact(r: int, v: int)
    requires 0 <= r <= 100 && FailSoft(r, NegInf, PosInf, v)
    ensures r == v
  {
  }

  /** Whether `side` has a legal move on the ring `cells`. */
  predicate HasLegalMove(cells: seq<Counts>, side: int)
    requires |cells| == NumHoles
  {
    exists hole, kind :: 0 <= hole < NumHoles && Legal(cells, side, hole, kind)
  }

  /** The wall clock the search reads: the readings it returns, one after the other. */
  class Clock {
    const times: nat -> int
    var readings: nat

    constructor (times: nat -> int)
      ensures this.times == times && readings == 0
    {
      this.times := times;
      readings := 0;
    }

    /** The next reading, in nanoseconds. */
    method NanoTime() returns (t: int)
      modifies this
      ensures readings == old(readings) + 1 && t == times(old(readings))
    {
      t := times(readings);
      readings := readings + 1;
    }
  }

  /** A successor position on copies: its board, its players and the side to move. */
  datatype NodeState = NodeState(board: Board, players: array<Player>, currentPlayerIndex: int)

  /** A position the search can work on: a sound board, and players 0 and 1 at their own indices. */
  ghost predicate Node(board: Board, players: array<Player>, cur: int)
    reads board, board.holes, players
  {
    board.Valid() && players.Length == 2 && players[0].index == 0 && players[1].index == 1 &&
    players[0] != players[1] && 0 <= cur <= 1
  }

  class MinimaxPlayerController {
    const heuristic: Heuristic
    const maxDepth: int
    /** At most 0 means no time limit. */
    const timeLimitMillis: int
    const clock: Clock
    var deadlineNanos: int
    var currentDepthLimit: int
    /** One killer move per player and depth. */
    const killerMoves: array2<Option<MoveOption>>
    /** A history score per player, hole and move type. */
    const history: array3<int>

    ghost predicate Valid() {
      killerMoves.Length0 == 2 && killerMoves.Length1 == maxDepth + 1 &&
      history.Length0 == 2 && history.Length1 == NumHoles && history.Length2 == 4
    }

    /** Empty killer table, zero history. */
    constructor (heuristic: Heuristic, maxDepth: int, timeLimitMillis: int, clock: Clock)
      requires maxDepth + 1 >= 0
      ensures Valid() && fresh(killerMoves) && fresh(history)
      ensures this.heuristic == heuristic && this.maxDepth == maxDepth && this.timeLimitMillis == timeLimitMillis && this.clock == clock
      ensures forall p, d :: 0 <= p < 2 && 0 <= d < maxDepth + 1 ==> killerMoves[p, d] == None
      ensures forall p, i, t :: 0 <= p < 2 && 0 <= i < NumHoles && 0 <= t < 4 ==> history[p, i, t] == 0
    {
      this.heuristic := heuristic;
      this.maxDepth := maxDepth;
      this.timeLimitMillis := timeLimitMillis;
      this.clock := clock;
      killerMoves := new Option<MoveOption>[2, maxDepth + 1]((_, _) => None);
      history := new int[2, NumHoles, 4]((_, _, _) => 0);
    }

    /**
     * The move the search picks for `currentPlayerIndex`, which is also the
     * root side, in the notation a player types; nothing when the game is
     * over or the side has no legal move.  The deadline is set first, and
     * the `pick` drawn by the random generator chooses among the candidates
     * `RootCandidates` returns.
     */
    method ChooseMove(board: Board, players: array<Player>, currentPlayerIndex: int, pick: nat)
        returns (notation: Option<string>, ghost candidates: seq<MoveOption>, ghost used: int)
      requires Valid() && Node(board, players, currentPlayerIndex)
      modifies this`deadlineNanos, this`currentDepthLimit, clock, killerMoves, history
      ensures deadlineNanos == if timeLimitMillis > 0 then clock.times(old(clock.readings)) + timeLimitMillis * 1000000 else 0
      ensures notation.None? <==>
                GameOver(SumTotals(old(board.Cells())), old(players[0].captured), old(players[1].captured)) || !HasLegalMove(old(board.Cells()), currentPlayerIndex)
      ensures notation.Some? ==>
                candidates != [] &&
                (forall m :: m in candidates ==> 0 <= m.holeIndex < NumHoles && Legal(old(board.Cells()), currentPlayerIndex, m.holeIndex, m.kind)) &&
                notation.value == ToNotation(candidates[pick % |candidates|])
      ensures notation.Some? && maxDepth < 1 ==>
                |candidates| == 1 &&
                candidates <= SortBy(LegalMoves(old(board.Cells()), currentPlayerIndex),
                                     OrderRank(old(KillerAt(currentPlayerIndex, 0)), old(HistoryOf(currentPlayerIndex)), old(board.Cells())))
      ensures notation.Some? && timeLimitMillis <= 0 && maxDepth >= 1 ==>
                currentDepthLimit == maxDepth &&
                BestOfDepths(heuristic, old(board.Cells()), old(players[0].captured), old(players[1].captured), currentPlayerIndex, maxDepth, used, candidates)
    {
      ghost var cells, killer, row := board.Cells(), KillerAt(currentPlayerIndex, 0), HistoryOf(currentPlayerIndex);
      SetDeadline();
      assert board.Cells() == cells && KillerAt(currentPlayerIndex, 0) == killer && HistoryOf(currentPlayerIndex) == row;
      notation, candidates, used := PickMove(board, players, currentPlayerIndex, pick);
    }

    /** `ChooseMove` once the deadline is set. */
    method PickMove(board: Board, players: array<Player>, currentPlayerIndex: int, pick: nat)
        returns (notation: Option<string>, ghost candidates: seq<MoveOption>, ghost used: int)
      requires Valid() && Node(board, players, currentPlayerIndex)
      modifies this`currentDepthLimit, clock, killerMoves, history
      ensures notation.None? <==>
                GameOver(SumTotals(old(board.Cells())), old(players[0].captured), old(players[1].captured)) || !HasLegalMove(old(board.Cells()), currentPlayerIndex)
      ensures notation.Some? ==>
                candidates != [] &&
                (forall m :: m in candidates ==> 0 <= m.holeIndex < NumHoles && Legal(old(board.Cells()), currentPlayerIndex, m.holeIndex, m.kind)) &&
                notation.value == ToNotation(candidates[pick % |candidates|])
      ensures notation.Some? && maxDepth < 1 ==>
                |candidates| == 1 &&
                candidates <= SortBy(LegalMoves(old(board.Cells()), currentPlayerIndex),
                                     OrderRank(old(KillerAt(currentPlayerIndex, 0)), old(HistoryOf(currentPlayerIndex)), old(board.Cells())))
      ensures notation.Some? && timeLimitMillis <= 0 && maxDepth >= 1 ==>
                currentDepthLimit == maxDepth &&
                BestOfDepths(heuristic, old(board.Cells()), old(players[0].captured), old(players[1].captured), currentPlayerIndex, maxDepth, used, candidates)
    {
      ghost var cells, t0, t1 := board.Cells(), players[0].captured, players[1].captured;
      candidates, used := [], 0;
      var over := IsGameOver(board, players[..]);
      if over {
        return None, candidates, used;
      }
      assert players[currentPlayerIndex].index == currentPlayerIndex;
      var legal := GenerateLegalMoves(board, players[currentPlayerIndex]);
      NoLegalMoves(cells, currentPlayerIndex, legal);
      if |legal| == 0 {
        return None, candidates, used;
      }
      var bestMoves;
      bestMoves, used := RootCandidates(board, players, currentPlayerIndex, legal, cells, t0, t1);
      candidates := bestMoves;
      var chosen := bestMoves[pick % |bestMoves|];
      notation := Some(ToNotation(chosen));
    }

    /** The deadline: one clock reading plus the time limit in nanoseconds when there is a limit, 0 when not. */
    method SetDeadline()
      modifies this`deadlineNanos, clock
      ensures deadlineNanos == if timeLimitMillis > 0 then clock.times(old(clock.readings)) + timeLimitMillis * 1000000 else 0
      ensures clock.readings == old(clock.readings) + if timeLimitMillis > 0 then 1 else 0
    {
      if timeLimitMillis > 0 {
        var now := clock.NanoTime();
        deadlineNanos := now + timeLimitMillis * 1000000;
      } else {
        deadlineNanos := 0;
      }
    }

    /**
     * The candidates among the legal moves `legal` of a position that is not
     * over: the moves ordered once for depth 0 and searched by iterative
     * deepening, and the first ordered move alone when no depth kept a move.
     * With no depth to search that is the only candidate; without a time
     * limit and with a positive `maxDepth`, the candidates are those of the
     * deepest limit whose root value is the largest, and they include every
     * legal move whose child value equals it.
     */
    method RootCandidates(board: Board, players: array<Player>, currentPlayerIndex: int, legal: seq<MoveOption>,
                          ghost cells: seq<Counts>, ghost t0: int, ghost t1: int)
        returns (candidates: seq<MoveOption>, ghost used: int)
      requires Valid() && Node(board, players, currentPlayerIndex)
      requires board.Cells() == cells && players[0].captured == t0 && players[1].captured == t1
      requires !GameOver(SumTotals(cells), t0, t1)
      requires legal != [] && forall m :: m in legal <==> 0 <= m.holeIndex < NumHoles && Legal(cells, currentPlayerIndex, m.holeIndex, m.kind)
      modifies this`currentDepthLimit, clock, killerMoves, history
      ensures candidates != [] && forall m :: m in candidates ==> 0 <= m.holeIndex < NumHoles && Legal(cells, currentPlayerIndex, m.holeIndex, m.kind)
      ensures maxDepth < 1 ==>
                |candidates| == 1 && candidates <= old(SortBy(legal, OrderRank(KillerAt(currentPlayerIndex, 0), HistoryOf(currentPlayerIndex), cells)))
      ensures timeLimitMillis <= 0 && maxDepth >= 1 ==>
                currentDepthLimit == maxDepth && BestOfDepths(heuristic, cells, t0, t1, currentPlayerIndex, maxDepth, used, candidates)
    {
      var moves := OrderMoves(board, legal, currentPlayerIndex, 0);
      var bestScore;
      bestScore, candidates, used := Deepen(board, players, currentPlayerIndex, legal, moves, cells, t0, t1);
      if |candidates| == 0 {
        PermutationKeeps(legal, moves);
        candidates := [moves[0]];
        assert moves[0] in legal;
      }
    }

    /**
     * The moves of `currentPlayer`: for each owned hole, R, B, TR and TB when
     * the hole holds a seed that move takes, sorted by hole total, fullest first.
     */
    method GenerateLegalMoves(board: Board, currentPlayer: Player) returns (moves: seq<MoveOption>)
      requires board.Valid()
      ensures moves == LegalMoves(board.Cells(), currentPlayer.index)
      ensures forall m :: m in moves <==> 0 <= m.holeIndex < NumHoles && Legal(board.Cells(), currentPlayer.index, m.holeIndex, m.kind)
      ensures |moves| <= 32 && Distinct(moves)
      ensures forall i, j :: 0 <= i < j < |moves| ==> SeedsAt(board.Cells(), moves[i].holeIndex) >= SeedsAt(board.Cells(), moves[j].holeIndex)
    {
      moves := EmitMoves(board, currentPlayer);
      moves := SortBy(moves, TotalRank(board.Cells()));
      LegalMovesProperties(board.Cells(), currentPlayer.index);
    }

    /** The generator's loop: the moves of each owned hole in turn, before sorting. */
    method EmitMoves(board: Board, currentPlayer: Player) returns (moves: seq<MoveOption>)
      requires board.Valid()
      ensures moves == Generated(board.Cells(), currentPlayer.index)
    {
      ghost var cells := board.Cells();
      moves := [];
      var numHoles := board.GetNumHoles();
      for i := 0 to numHoles
        invariant moves == Emitted(cells, currentPlayer.index, i)
      {
        if !currentPlayer.OwnsHoleIndex(i) {
          continue;
        }
        var h := board.GetHole(i);
        moves := AddHoleMoves(moves, i, h);
      }
    }

    /** The killer move stored for `playerIndex` at `depth`, if that depth has a slot. */
    function KillerAt(playerIndex: int, depth: int): Option<MoveOption>
      reads killerMoves
      requires Valid() && 0 <= playerIndex < 2
    {
      if 0 <= depth < killerMoves.Length1 then killerMoves[playerIndex, depth] else None
    }

    /** The history scores of `playerIndex`, hole by hole and move type by move type. */
    function HistoryOf(playerIndex: int): (row: seq<int>)
      reads history
      requires Valid() && 0 <= playerIndex < 2
      ensures |row| == 4 * NumHoles
      ensures forall i, t :: 0 <= i < NumHoles && 0 <= t < 4 ==> row[i * 4 + t] == history[playerIndex, i, t]
    {
      seq(4 * NumHoles, k requires 0 <= k < 4 * NumHoles reads history => history[playerIndex, k / 4, k % 4])
    }

    /**
     * The moves reordered: the killer move of this player and depth first,
     * then by history score, then by hole total, each larger first.
     */
    method OrderMoves(board: Board, moves: seq<MoveOption>, playerIndex: int, depth: int) returns (ordered: seq<MoveOption>)
      requires Valid() && board.Valid() && 0 <= playerIndex < 2
      ensures ordered == SortBy(moves, OrderRank(KillerAt(playerIndex, depth), HistoryOf(playerIndex), board.Cells()))
      ensures multiset(ordered) == multiset(moves)
      ensures SortedBy(ordered, OrderRank(KillerAt(playerIndex, depth), HistoryOf(playerIndex), board.Cells()))
      ensures KillerAt(playerIndex, depth).Some? && KillerAt(playerIndex, depth).value in moves ==>
                ordered != [] && ordered[0] == KillerAt(playerIndex, depth).value
    {
      var killer: Option<MoveOption> := None;
      if depth >= 0 && depth < killerMoves.Length1 {
        killer := killerMoves[playerIndex, depth];
      }
      var rank := OrderRank(killer, HistoryOf(playerIndex), board.Cells());
      ordered := SortBy(moves, rank);
      SortBySpec(moves, rank);
      if killer.Some? && killer.value in moves {
        KillerFirst(moves, killer.value, HistoryOf(playerIndex), board.Cells());
      }
    }

    /**
     * After a cut-off by `move`: it becomes the killer of this player and
     * depth when the depth has a slot, and its history score grows by
     * depth * depth + 1; no other entry changes.
     */
    method StoreKillerAndHistory(playerIndex: int, depth: int, move: MoveOption)
      requires Valid() && 0 <= playerIndex < 2
      modifies killerMoves, history
      ensures forall p, d :: 0 <= p < 2 && 0 <= d < killerMoves.Length1 ==>
                killerMoves[p, d] == if p == playerIndex && d == depth then Some(move) else old(killerMoves[p, d])
      ensures forall p, i, t :: 0 <= p < 2 && 0 <= i < NumHoles && 0 <= t < 4 ==>
                history[p, i, t] == old(history[p, i, t]) +
                  (if p == playerIndex && i == move.holeIndex && t == Ordinal(move.kind) then depth * depth + 1 else 0)
      ensures forall p, i, t :: 0 <= p < 2 && 0 <= i < NumHoles && 0 <= t < 4 ==> history[p, i, t] >= old(history[p, i, t])
    {
      if depth >= 0 && depth < killerMoves.Length1 {
        killerMoves[playerIndex, depth] := Some(move);
      }
      var hole := move.holeIndex;
      if hole < 0 || hole >= NumHoles {
        return;
      }
      var typeIdx := Ordinal(move.kind);
      var increment := depth * depth + 1;
      history[playerIndex, hole, typeIdx] := history[playerIndex, hole, typeIdx] + increment;
    }

    /** Whether a time limit is set and the clock has passed the deadline; the clock is read only when a deadline is set. */
    method IsTimeUp() returns (up: bool)
      modifies clock
      ensures up <==> timeLimitMillis > 0 && deadlineNanos > 0 && clock.times(old(clock.readings)) > deadlineNanos
      ensures clock.readings == old(clock.readings) + if timeLimitMillis > 0 && deadlineNanos > 0 then 1 else 0
    {
      if timeLimitMillis > 0 && deadlineNanos > 0 {
        var now := clock.NanoTime();
        return now > deadlineNanos;
      }
      return false;
    }

    /**
     * The position after `move`, played by a command on copies of the board
     * and of every player; nothing when the command refuses the move.  The
     * given board and players are left as they were.
     */
    method ApplyMove(board: Board, players: array<Player>, currentPlayerIndex: int, move: MoveOption) returns (next: Option<NodeState>)
      requires board.Valid() && players.Length == 2 && 0 <= currentPlayerIndex < 2
      requires 0 <= move.holeIndex < NumHoles
      ensures next.None? <==> !Legal(old(board.Cells()), players[currentPlayerIndex].index, move.holeIndex, move.kind)
      ensures next.Some? ==>
                var n := next.value;
                fresh(n.players) && n.board.Valid() && fresh(n.board.holes) && fresh(n.board.Repr) &&
                n.currentPlayerIndex == 1 - currentPlayerIndex &&
                n.board.Cells() == Played(old(board.Cells()), players[currentPlayerIndex].index, players[1 - currentPlayerIndex].index, move.holeIndex, move.kind)
      ensures next.Some? ==>
                var n := next.value;
                n.players.Length == 2 && fresh(n.players[0]) && fresh(n.players[1]) && n.players[0] != n.players[1] &&
                n.players[0].index == players[0].index && n.players[1].index == players[1].index
      ensures next.Some? ==>
                var n := next.value;
                var e := Earned(old(board.Cells()), players[currentPlayerIndex].index, players[1 - currentPlayerIndex].index, move.holeIndex, move.kind);
                n.players[0].captured == Credit(players[0].captured, 0, currentPlayerIndex, e) &&
                n.players[1].captured == Credit(players[1].captured, 1, currentPlayerIndex, e)
    {
      var clonedBoard := new Board.Copy(board);
      var clonedPlayers := ClonePlayers(players);
      assert clonedBoard.Cells() == old(board.Cells());
      assert clonedPlayers[0] != clonedPlayers[1];
      assert clonedPlayers[0].index == players[0].index && clonedPlayers[1].index == players[1].index;
      ghost var c0, c1 := clonedPlayers[0].captured, clonedPlayers[1].captured;
      assert c0 == players[0].captured && c1 == players[1].captured;
      var ok := PerformFor(clonedBoard, clonedPlayers, currentPlayerIndex, move);
      if !ok {
        return None;
      }
      var nextPlayerIndex := 1 - currentPlayerIndex;
      next := Some(NodeState(clonedBoard, clonedPlayers, nextPlayerIndex));
    }

    /** The evaluator's score of the position for the root side. */
    method Evaluate(board: Board, players: array<Player>, rootPlayerIndex: int) returns (e: int)
      requires board.Valid() && players.Length == 2 && 0 <= rootPlayerIndex <= 1
      ensures e == Leaf(heuristic, board.Cells(), players[0].captured, players[1].captured, rootPlayerIndex)
    {
      var me := players[rootPlayerIndex];
      var opp := players[1 - rootPlayerIndex];
      e := Clamp(heuristic(board.Cells(), me.GetCaptured(), opp.GetCaptured(), rootPlayerIndex));
    }

    /**
     * Depth-limited alpha-beta from the position `board`, `players` with
     * `currentPlayerIndex` to move, `depth` plies below the root; `cells`,
     * `t0` and `t1` are the ring and the tallies of that position.  Without a
     * time limit the score is the position's minimax value when it lies
     * inside the window (`alpha`, `beta`), and a bound on it otherwise.
     */
    method Minimax(board: Board, players: array<Player>, currentPlayerIndex: int, depth: int, rootPlayerIndex: int,
                   alpha: int, beta: int, ghost cells: seq<Counts>, ghost t0: int, ghost t1: int) returns (score: int)
      requires Valid() && Node(board, players, currentPlayerIndex) && 0 <= rootPlayerIndex <= 1 && alpha < beta
      requires board.Cells() == cells && players[0].captured == t0 && players[1].captured == t1
      modifies clock, killerMoves, history
      ensures 0 <= score <= 100
      ensures timeLimitMillis <= 0 ==>
                FailSoft(score, alpha, beta, Value(heuristic, cells, t0, t1, currentPlayerIndex, depth, currentDepthLimit, rootPlayerIndex))
      decreases currentDepthLimit - depth, 6
    {
      var up := IsTimeUp();
      assert board.Cells() == cells;
      if up {
        score := Evaluate(board, players, rootPlayerIndex);
        return;
      }
      var over := IsGameOver(board, players[..]);
      if depth >= currentDepthLimit || over {
        ValueAtLeaf(heuristic, cells, t0, t1, currentPlayerIndex, depth, currentDepthLimit, rootPlayerIndex);
        score := Evaluate(board, players, rootPlayerIndex);
        return;
      }
      score := Expand(board, players, currentPlayerIndex, depth, rootPlayerIndex, alpha, beta, cells, t0, t1);
    }

    /**
     * The inner node part of `Minimax`: the legal moves generated, and the
     * evaluation when there is none.
     */
    method Expand(board: Board, players: array<Player>, currentPlayerIndex: int, depth: int, rootPlayerIndex: int,
                  alpha: int, beta: int, ghost cells: seq<Counts>, ghost t0: int, ghost t1: int) returns (score: int)
      requires Valid() && Node(board, players, currentPlayerIndex) && 0 <= rootPlayerIndex <= 1 && alpha < beta
      requires board.Cells() == cells && players[0].captured == t0 && players[1].captured == t1
      requires depth < currentDepthLimit && !GameOver(SumTotals(cells), t0, t1)
      modifies clock, killerMoves, history
      ensures 0 <= score <= 100
      ensures timeLimitMillis <= 0 ==>
                FailSoft(score, alpha, beta, Value(heuristic, cells, t0, t1, currentPlayerIndex, depth, currentDepthLimit, rootPlayerIndex))
      decreases currentDepthLimit - depth, 5
    {
      assert players[currentPlayerIndex].index == currentPlayerIndex;
      var moves := GenerateLegalMoves(board, players[currentPlayerIndex]);
      NoMovesNoneEmitted(cells, currentPlayerIndex, moves);
      if |moves| == 0 {
        ValueAtLeaf(heuristic, cells, t0, t1, currentPlayerIndex, depth, currentDepthLimit, rootPlayerIndex);
        score := Evaluate(board, players, rootPlayerIndex);
        return;
      }
      score := SearchMoves(board, players, currentPlayerIndex, depth, rootPlayerIndex, alpha, beta, moves, cells, t0, t1);
    }

    /**
     * The moves ordered for this player and depth, then searched by the
     * maximising loop when the root side is to move and by the minimising
     * one when not.
     */
    method SearchMoves(board: Board, players: array<Player>, currentPlayerIndex: int, depth: int, rootPlayerIndex: int,
                       alpha: int, beta: int, moves: seq<MoveOption>, ghost cells: seq<Counts>, ghost t0: int, ghost t1: int)
        returns (score: int)
      requires Valid() && Node(board, players, currentPlayerIndex) && 0 <= rootPlayerIndex <= 1 && alpha < beta
      requires board.Cells() == cells && players[0].captured == t0 && players[1].captured == t1
      requires depth < currentDepthLimit && !GameOver(SumTotals(cells), t0, t1)
      requires moves != [] && forall m :: m in moves <==> 0 <= m.holeIndex < NumHoles && Legal(cells, currentPlayerIndex, m.holeIndex, m.kind)
      modifies clock, killerMoves, history
      ensures 0 <= score <= 100
      ensures timeLimitMillis <= 0 ==>
                FailSoft(score, alpha, beta, Value(heuristic, cells, t0, t1, currentPlayerIndex, depth, currentDepthLimit, rootPlayerIndex))
      decreases currentDepthLimit - depth, 4
    {
      var ordered := OrderMoves(board, moves, currentPlayerIndex, depth);
      score := SearchOrdered(board, players, currentPlayerIndex, depth, rootPlayerIndex, alpha, beta, moves, ordered, cells, t0, t1);
    }

    /**
     * The ordered moves searched by the maximising loop when the root side
     * is to move and by the minimising one when not.
     */
    method SearchOrdered(board: Board, players: array<Player>, currentPlayerIndex: int, depth: int, rootPlayerIndex: int,
                         alpha: int, beta: int, moves: seq<MoveOption>, ordered: seq<MoveOption>,
                         ghost cells: seq<Counts>, ghost t0: int, ghost t1: int)
        returns (score: int)
      requires Valid() && Node(board, players, currentPlayerIndex) && 0 <= rootPlayerIndex <= 1 && alpha < beta
      requires board.Cells() == cells && players[0].captured == t0 && players[1].captured == t1
      requires depth < currentDepthLimit && !GameOver(SumTotals(cells), t0, t1)
      requires moves != [] && forall m :: m in moves <==> 0 <= m.holeIndex < NumHoles && Legal(cells, currentPlayerIndex, m.holeIndex, m.kind)
      requires multiset(ordered) == multiset(moves)
      modifies clock, killerMoves, history
      ensures 0 <= score <= 100
      ensures timeLimitMillis <= 0 ==>
                FailSoft(score, alpha, beta, Value(heuristic, cells, t0, t1, currentPlayerIndex, depth, currentDepthLimit, rootPlayerIndex))
      decreases currentDepthLimit - depth, 3
    {
      LoopSetup(heuristic, cells, t0, t1, currentPlayerIndex, depth, currentDepthLimit, rootPlayerIndex, moves, ordered);
      if currentPlayerIndex == rootPlayerIndex {
        score := SearchMax(board, players, currentPlayerIndex, depth, rootPlayerIndex, alpha, beta, ordered, cells, t0, t1,
                           Children(heuristic, cells, t0, t1, currentPlayerIndex, depth, currentDepthLimit, rootPlayerIndex), Generated(cells, currentPlayerIndex), Value(heuristic, cells, t0, t1, currentPlayerIndex, depth, currentDepthLimit, rootPlayerIndex));
      } else {
        score := SearchMin(board, players, currentPlayerIndex, depth, rootPlayerIndex, alpha, beta, ordered, cells, t0, t1,
                           Children(heuristic, cells, t0, t1, currentPlayerIndex, depth, currentDepthLimit, rootPlayerIndex), Generated(cells, currentPlayerIndex), Value(heuristic, cells, t0, t1, currentPlayerIndex, depth, currentDepthLimit, rootPlayerIndex));
      }
    }

    /**
     * One step of the search loops: `move` applied to copies of the position
     * and the result searched one ply deeper with the window (`alpha`,
     * `beta`); `played` is false when the copies refuse the move.
     */
    method SearchChild(board: Board, players: array<Player>, currentPlayerIndex: int, depth: int, rootPlayerIndex: int,
                       alpha: int, beta: int, move: MoveOption, ghost cells: seq<Counts>, ghost t0: int, ghost t1: int)
        returns (played: bool, score: int)
      requires Valid() && Node(board, players, currentPlayerIndex) && 0 <= rootPlayerIndex <= 1 && alpha < beta
      requires board.Cells() == cells && players[0].captured == t0 && players[1].captured == t1
      requires depth < currentDepthLimit && 0 <= move.holeIndex < NumHoles
      modifies clock, killerMoves, history
      ensures played <==> Legal(cells, currentPlayerIndex, move.holeIndex, move.kind)
      ensures played ==> 0 <= score <= 100
      ensures played && timeLimitMillis <= 0 ==>
                FailSoft(score, alpha, beta, Child(heuristic, cells, t0, t1, currentPlayerIndex, depth, currentDepthLimit, rootPlayerIndex, move))
      decreases currentDepthLimit - depth, 0
    {
      assert players[currentPlayerIndex].index == currentPlayerIndex && players[1 - currentPlayerIndex].index == 1 - currentPlayerIndex;
      ghost var e := Earned(cells, currentPlayerIndex, 1 - currentPlayerIndex, move.holeIndex, move.kind);
      ghost var after := Played(cells, currentPlayerIndex, 1 - currentPlayerIndex, move.holeIndex, move.kind);
      ghost var u0 := Credit(t0, 0, currentPlayerIndex, e);
      ghost var u1 := Credit(t1, 1, currentPlayerIndex, e);
      var next := ApplyMove(board, players, currentPlayerIndex, move);
      if next.None? {
        return false, 0;
      }
      var n := next.value;
      assert n.board.Cells() == after && n.players[0].captured == u0 && n.players[1].captured == u1;
      assert Node(n.board, n.players, n.currentPlayerIndex) && n.currentPlayerIndex == 1 - currentPlayerIndex;
      played := true;
      score := Minimax(n.board, n.players, n.currentPlayerIndex, depth + 1, rootPlayerIndex, alpha, beta, after, u0, u1);
    }

    /**
     * The maximising loop of `Minimax`: the moves in order, each searched
     * with the current window, a refused move skipped, alpha raised by each
     * score, and a cut-off, recorded in the killer and history tables, once
     * alpha reaches beta.
     */
    method SearchMax(board: Board, players: array<Player>, currentPlayerIndex: int, depth: int, rootPlayerIndex: int,
                     alpha0: int, beta: int, moves: seq<MoveOption>, ghost cells: seq<Counts>, ghost t0: int, ghost t1: int,
                     ghost f: MoveOption --> int, ghost gen: seq<MoveOption>, ghost v: int) returns (best: int)
      requires Valid() && Node(board, players, currentPlayerIndex) && currentPlayerIndex == rootPlayerIndex && alpha0 < beta
      requires board.Cells() == cells && players[0].captured == t0 && players[1].captured == t1
      requires depth < currentDepthLimit && OnRing(moves)
      requires f == Children(heuristic, cells, t0, t1, currentPlayerIndex, depth, currentDepthLimit, rootPlayerIndex)
      requires gen == Generated(cells, currentPlayerIndex) && MaxReady(f, gen, moves, v)
      modifies clock, killerMoves, history
      ensures 0 <= best <= 100
      ensures timeLimitMillis <= 0 ==> FailSoft(best, alpha0, beta, v)
      decreases currentDepthLimit - depth, 2
    {
      ghost var exact := timeLimitMillis <= 0;
      best := NegInf;
      var alpha := alpha0;
      var i := 0;
      while i < |moves|
        invariant 0 <= i <= |moves|
        invariant MaxLoop(f, gen, moves, i, best, alpha0, alpha, beta, exact)
      {
        var cut;
        best, alpha, cut := MaxVisit(board, players, currentPlayerIndex, depth, rootPlayerIndex, alpha0, alpha, beta, best,
                                     moves, i, cells, t0, t1, f, gen, v);
        if cut {
          return;
        }
        i := i + 1;
      }
      MaxDone(f, gen, moves, best, alpha0, alpha, beta, exact, v);
    }

    /**
     * One turn of the maximising loop: searches `moves[i]`, raises best and
     * alpha by its score, and cuts off (recording the move as killer and in
     * the history) once alpha reaches beta.
     */
    method MaxVisit(board: Board, players: array<Player>, currentPlayerIndex: int, depth: int, rootPlayerIndex: int,
                    alpha0: int, alpha: int, beta: int, best: int, moves: seq<MoveOption>, i: int,
                    ghost cells: seq<Counts>, ghost t0: int, ghost t1: int,
                    ghost f: MoveOption --> int, ghost gen: seq<MoveOption>, ghost v: int)
        returns (best1: int, alpha1: int, cut: bool)
      requires Valid() && Node(board, players, currentPlayerIndex) && currentPlayerIndex == rootPlayerIndex
      requires board.Cells() == cells && players[0].captured == t0 && players[1].captured == t1
      requires depth < currentDepthLimit && OnRing(moves) && 0 <= i < |moves|
      requires f == Children(heuristic, cells, t0, t1, currentPlayerIndex, depth, currentDepthLimit, rootPlayerIndex)
      requires gen == Generated(cells, currentPlayerIndex) && MaxReady(f, gen, moves, v)
      requires MaxLoop(f, gen, moves, i, best, alpha0, alpha, beta, timeLimitMillis <= 0)
      modifies clock, killerMoves, history
      ensures cut ==> 0 <= best1 <= 100 && (timeLimitMillis <= 0 ==> FailSoft(best1, alpha0, beta, v))
      ensures !cut ==> MaxLoop(f, gen, moves, i + 1, best1, alpha0, alpha1, beta, timeLimitMillis <= 0)
      decreases currentDepthLimit - depth, 1
    {
      ghost var exact := timeLimitMillis <= 0;
      var move := moves[i];
      var played, score := SearchChild(board, players, currentPlayerIndex, depth, rootPlayerIndex, alpha, beta, move, cells, t0, t1);
      ChildScore(heuristic, cells, t0, t1, currentPlayerIndex, depth, currentDepthLimit, rootPlayerIndex, move, played, score, alpha, beta, exact);
      best1, alpha1, cut := best, alpha, false;
      if !played {
        MaxSkip(f, gen, moves, i, best, alpha0, alpha, beta, exact);
        return;
      }
      if score > best1 {
        best1 := score;
      }
      if score > alpha1 {
        alpha1 := score;
      }
      if beta <= alpha1 {
        MaxCut(f, gen, moves, i, best, alpha0, alpha, beta, exact, score, v);
        StoreKillerAndHistory(currentPlayerIndex, depth, move);
        cut := true;
        return;
      }
      MaxStep(f, gen, moves, i, best, alpha0, alpha, beta, exact, score);
    }

    /**
     * The minimising loop of `Minimax`: as the maximising one, with beta
     * lowered by each score.
     */
    method SearchMin(board: Board, players: array<Player>, currentPlayerIndex: int, depth: int, rootPlayerIndex: int,
                     alpha: int, beta0: int, moves: seq<MoveOption>, ghost cells: seq<Counts>, ghost t0: int, ghost t1: int,
                     ghost f: MoveOption --> int, ghost gen: seq<MoveOption>, ghost v: int) returns (best: int)
      requires Valid() && Node(board, players, currentPlayerIndex) && currentPlayerIndex != rootPlayerIndex && alpha < beta0
      requires 0 <= rootPlayerIndex <= 1
      requires board.Cells() == cells && players[0].captured == t0 && players[1].captured == t1
      requires depth < currentDepthLimit && OnRing(moves)
      requires f == Children(heuristic, cells, t0, t1, currentPlayerIndex, depth, currentDepthLimit, rootPlayerIndex)
      requires gen == Generated(cells, currentPlayerIndex) && MinReady(f, gen, moves, v)
      modifies clock, killerMoves, history
      ensures 0 <= best <= 100
      ensures timeLimitMillis <= 0 ==> FailSoft(best, alpha, beta0, v)
      decreases currentDepthLimit - depth, 2
    {
      ghost var exact := timeLimitMillis <= 0;
      best := PosInf;
      var beta := beta0;
      var i := 0;
      while i < |moves|
        invariant 0 <= i <= |moves|
        invariant MinLoop(f, gen, moves, i, best, alpha, beta0, beta, exact)
      {
        var cut;
        best, beta, cut := MinVisit(board, players, currentPlayerIndex, depth, rootPlayerIndex, alpha, beta0, beta, best,
                                    moves, i, cells, t0, t1, f, gen, v);
        if cut {
          return;
        }
        i := i + 1;
      }
      MinDone(f, gen, moves, best, alpha, beta0, beta, exact, v);
    }

    /**
     * One turn of the minimising loop: searches `moves[i]`, lowers best and
     * beta by its score, and cuts off once beta reaches alpha.
     */
    method MinVisit(board: Board, players: array<Player>, currentPlayerIndex: int, depth: int, rootPlayerIndex: int,
                    alpha: int, beta0: int, beta: int, best: int, moves: seq<MoveOption>, i: int,
                    ghost cells: seq<Counts>, ghost t0: int, ghost t1: int,
                    ghost f: MoveOption --> int, ghost gen: seq<MoveOption>, ghost v: int)
        returns (best1: int, beta1: int, cut: bool)
      requires Valid() && Node(board, players, currentPlayerIndex) && currentPlayerIndex != rootPlayerIndex && 0 <= rootPlayerIndex <= 1
      requires board.Cells() == cells && players[0].captured == t0 && players[1].captured == t1
      requires depth < currentDepthLimit && OnRing(moves) && 0 <= i < |moves|
      requires f == Children(heuristic, cells, t0, t1, currentPlayerIndex, depth, currentDepthLimit, rootPlayerIndex)
      requires gen == Generated(cells, currentPlayerIndex) && MinReady(f, gen, moves, v)
      requires MinLoop(f, gen, moves, i, best, alpha, beta0, beta, timeLimitMillis <= 0)
      modifies clock, killerMoves, history
      ensures cut ==> 0 <= best1 <= 100 && (timeLimitMillis <= 0 ==> FailSoft(best1, alpha, beta0, v))
      ensures !cut ==> MinLoop(f, gen, moves, i + 1, best1, alpha, beta0, beta1, timeLimitMillis <= 0)
      decreases currentDepthLimit - depth, 1
    {
      ghost var exact := timeLimitMillis <= 0;
      var move := moves[i];
      var played, score := SearchChild(board, players, currentPlayerIndex, depth, rootPlayerIndex, alpha, beta, move, cells, t0, t1);
      ChildScore(heuristic, cells, t0, t1, currentPlayerIndex, depth, currentDepthLimit, rootPlayerIndex, move, played, score, alpha, beta, exact);
      best1, beta1, cut := best, beta, false;
      if !played {
        MinSkip(f, gen, moves, i, best, alpha, beta0, beta, exact);
        return;
      }
      if score < best1 {
        best1 := score;
      }
      if score < beta1 {
        beta1 := score;
      }
      if beta1 <= alpha {
        MinCut(f, gen, moves, i, best, alpha, beta0, beta, exact, score, v);
        StoreKillerAndHistory(currentPlayerIndex, depth, move);
        cut := true;
        return;
      }
      MinStep(f, gen, moves, i, best, alpha, beta0, beta, exact, score);
    }

    /**
     * The root loop of one depth limit: each move in order, until the time
     * is up, played and searched one ply deeper with the window (alpha, plus
     * infinity); the moves of the best score so far are kept, a better score
     * replacing them and an equal one joining them, and alpha rises to each
     * score.  Without a time limit the best is the root value and every
     * legal move of that child value is kept.
     */
    method SearchRoot(board: Board, players: array<Player>, currentPlayerIndex: int, moves: seq<MoveOption>,
                      ghost cells: seq<Counts>, ghost t0: int, ghost t1: int,
                      ghost f: MoveOption --> int, ghost gen: seq<MoveOption>, ghost v: int)
        returns (best: int, ties: seq<MoveOption>)
      requires Valid() && Node(board, players, currentPlayerIndex) && 0 < currentDepthLimit
      requires board.Cells() == cells && players[0].captured == t0 && players[1].captured == t1
      requires OnRing(moves)
      requires f == Children(heuristic, cells, t0, t1, currentPlayerIndex, 0, currentDepthLimit, currentPlayerIndex)
      requires gen == Generated(cells, currentPlayerIndex) && MaxReady(f, gen, moves, v)
      modifies clock, killerMoves, history
      ensures forall m :: m in ties ==> m in gen
      ensures ties == [] <==> best == NegInf
      ensures ties != [] ==> 0 <= best <= 100
      ensures timeLimitMillis <= 0 ==> best == v && ties != [] && forall m :: m in gen && f(m) == v ==> m in ties
    {
      ghost var exact := timeLimitMillis <= 0;
      best, ties := NegInf, [];
      var alpha := NegInf;
      var i := 0;
      while i < |moves|
        invariant 0 <= i <= |moves|
        invariant RootLoop(f, gen, moves, i, best, alpha, ties, exact)
      {
        var up := IsTimeUp();
        if up {
          break;
        }
        best, alpha, ties := RootVisit(board, players, currentPlayerIndex, alpha, best, ties, moves, i, cells, t0, t1, f, gen);
        i := i + 1;
      }
      if exact {
        RootDone(f, gen, moves, best, alpha, ties, v);
      }
    }

    /** One step of the root loop: the move `moves[i]` played and searched, and the kept moves updated. */
    method RootVisit(board: Board, players: array<Player>, currentPlayerIndex: int, alpha: int, best: int, ties: seq<MoveOption>,
                     moves: seq<MoveOption>, i: int, ghost cells: seq<Counts>, ghost t0: int, ghost t1: int,
                     ghost f: MoveOption --> int, ghost gen: seq<MoveOption>)
        returns (best1: int, alpha1: int, ties1: seq<MoveOption>)
      requires Valid() && Node(board, players, currentPlayerIndex) && 0 < currentDepthLimit
      requires board.Cells() == cells && players[0].captured == t0 && players[1].captured == t1
      requires OnRing(moves) && 0 <= i < |moves|
      requires f == Children(heuristic, cells, t0, t1, currentPlayerIndex, 0, currentDepthLimit, currentPlayerIndex)
      requires gen == Generated(cells, currentPlayerIndex) && DefinedOn(f, moves)
      requires RootLoop(f, gen, moves, i, best, alpha, ties, timeLimitMillis <= 0)
      modifies clock, killerMoves, history
      ensures RootLoop(f, gen, moves, i + 1, best1, alpha1, ties1, timeLimitMillis <= 0)
    {
      var move := moves[i];
      var played, score := SearchChild(board, players, currentPlayerIndex, 0, currentPlayerIndex, alpha, PosInf, move, cells, t0, t1);
      ChildScore(heuristic, cells, t0, t1, currentPlayerIndex, 0, currentDepthLimit, currentPlayerIndex, move,
                 played, score, alpha, PosInf, timeLimitMillis <= 0);
      best1, alpha1, ties1 := best, alpha, ties;
      if !played {
        RootSkip(f, gen, moves, i, best, alpha, ties, timeLimitMillis <= 0);
        return;
      }
      if score > best1 {
        best1 := score;
        ties1 := [move];
      } else if score == best1 {
        ties1 := ties1 + [move];
      }
      if score > alpha1 {
        alpha1 := score;
      }
      RootStep(f, gen, moves, i, best, alpha, ties, timeLimitMillis <= 0, score);
    }

    /**
     * The root loop at the current depth limit over `moves`, a reordering of
     * the list `legal` of the legal moves; without a time limit its best is
     * the root value at that limit, and every legal move whose child value
     * it is is kept.
     */
    method SearchDepth(board: Board, players: array<Player>, currentPlayerIndex: int, ghost legal: seq<MoveOption>, moves: seq<MoveOption>,
                       ghost cells: seq<Counts>, ghost t0: int, ghost t1: int)
        returns (best: int, ties: seq<MoveOption>)
      requires Valid() && Node(board, players, currentPlayerIndex) && 0 < currentDepthLimit
      requires board.Cells() == cells && players[0].captured == t0 && players[1].captured == t1
      requires !GameOver(SumTotals(cells), t0, t1)
      requires legal != [] && forall m :: m in legal <==> 0 <= m.holeIndex < NumHoles && Legal(cells, currentPlayerIndex, m.holeIndex, m.kind)
      requires multiset(moves) == multiset(legal)
      modifies clock, killerMoves, history
      ensures forall m :: m in ties ==> 0 <= m.holeIndex < NumHoles && Legal(cells, currentPlayerIndex, m.holeIndex, m.kind)
      ensures ties == [] <==> best == NegInf
      ensures ties != [] ==> 0 <= best <= 100
      ensures timeLimitMillis <= 0 ==>
                ties != [] && best == RootValue(heuristic, cells, t0, t1, currentPlayerIndex, currentDepthLimit) &&
                forall m: MoveOption ::
                  (0 <= m.holeIndex < NumHoles && Legal(cells, currentPlayerIndex, m.holeIndex, m.kind) &&
                   Child(heuristic, cells, t0, t1, currentPlayerIndex, 0, currentDepthLimit, currentPlayerIndex, m) == best) ==> m in ties
    {
      LoopSetup(heuristic, cells, t0, t1, currentPlayerIndex, 0, currentDepthLimit, currentPlayerIndex, legal, moves);
      EmittedOnRing(cells, currentPlayerIndex);
      best, ties := SearchRoot(board, players, currentPlayerIndex, moves, cells, t0, t1,
                               Children(heuristic, cells, t0, t1, currentPlayerIndex, 0, currentDepthLimit, currentPlayerIndex),
                               Generated(cells, currentPlayerIndex),
                               Value(heuristic, cells, t0, t1, currentPlayerIndex, 0, currentDepthLimit, currentPlayerIndex));
    }

    /**
     * Iterative deepening over the depth limits 1 to `maxDepth`: at each
     * limit the root loop, whose kept moves replace the overall ones when
     * there are some and its best is at least the overall best, and a stop
     * once the time is up.  Without a time limit every limit is searched and
     * the result is the one `BestOfDepths` describes.
     */
    method Deepen(board: Board, players: array<Player>, currentPlayerIndex: int, ghost legal: seq<MoveOption>, moves: seq<MoveOption>,
                  ghost cells: seq<Counts>, ghost t0: int, ghost t1: int)
        returns (bestScore: int, bestMoves: seq<MoveOption>, ghost used: int)
      requires Valid() && Node(board, players, currentPlayerIndex)
      requires board.Cells() == cells && players[0].captured == t0 && players[1].captured == t1
      requires !GameOver(SumTotals(cells), t0, t1)
      requires legal != [] && forall m :: m in legal <==> 0 <= m.holeIndex < NumHoles && Legal(cells, currentPlayerIndex, m.holeIndex, m.kind)
      requires multiset(moves) == multiset(legal)
      modifies this`currentDepthLimit, clock, killerMoves, history
      ensures forall m :: m in bestMoves ==> 0 <= m.holeIndex < NumHoles && Legal(cells, currentPlayerIndex, m.holeIndex, m.kind)
      ensures maxDepth < 1 ==> bestMoves == [] && currentDepthLimit == old(currentDepthLimit)
      ensures timeLimitMillis <= 0 && maxDepth >= 1 ==>
                bestMoves != [] && currentDepthLimit == maxDepth &&
                BestOfDepths(heuristic, cells, t0, t1, currentPlayerIndex, maxDepth, used, bestMoves) &&
                bestScore == RootValue(heuristic, cells, t0, t1, currentPlayerIndex, used)
    {
      ghost var exact := timeLimitMillis <= 0;
      bestScore, bestMoves, used := NegInf, [], 0;
      var depthLimit := 1;
      while depthLimit <= maxDepth
        invariant 1 <= depthLimit && (maxDepth >= 1 ==> depthLimit <= maxDepth + 1) && (maxDepth < 1 ==> depthLimit == 1)
        invariant forall m :: m in bestMoves ==> 0 <= m.holeIndex < NumHoles && Legal(cells, currentPlayerIndex, m.holeIndex, m.kind)
        invariant depthLimit == 1 ==> bestMoves == [] && bestScore == NegInf && currentDepthLimit == old(currentDepthLimit)
        invariant exact && depthLimit > 1 ==>
                    bestMoves != [] && currentDepthLimit == depthLimit - 1 &&
                    BestOfDepths(heuristic, cells, t0, t1, currentPlayerIndex, depthLimit - 1, used, bestMoves) &&
                    bestScore == RootValue(heuristic, cells, t0, t1, currentPlayerIndex, used)
      {
        currentDepthLimit := depthLimit;
        var best, ties := SearchDepth(board, players, currentPlayerIndex, legal, moves, cells, t0, t1);
        if exact {
          DeepStep(heuristic, cells, t0, t1, currentPlayerIndex, depthLimit, used, bestScore, bestMoves, best, ties);
        }
        if ties != [] && best >= bestScore {
          bestScore, bestMoves, used := best, ties, depthLimit;
        }
        var up := IsTimeUp();
        if up {
          break;
        }
        depthLimit := depthLimit + 1;
      }
    }
  }

  /** The moves of hole `i`, holding what `h` holds, appended in the order R, B, TR, TB. */
  method AddHoleMoves(moves: seq<MoveOption>, i: int, h: Hole) returns (out: seq<MoveOption>)
    ensures out == moves + HoleMoves(i, h.Value())
  {
    var red := h.GetRed();
    var blue := h.GetBlue();
    var transparent := h.GetTransparent();
    out := moves;
    if red > 0 {
      out := out + [MoveOption(i, R)];
    }
    if blue > 0 {
      out := out + [MoveOption(i, B)];
    }
    if transparent + red > 0 {
      out := out + [MoveOption(i, TR)];
    }
    if transparent + blue > 0 {
      out := out + [MoveOption(i, TB)];
    }
  }

  /**
   * The move of the player at `currentPlayerIndex` of `players`, against
   * the other one, played by `Perform`: the mover's tally gains what the
   * move earned and the other tally is kept.
   */
  method PerformFor(board: Board, players: array<Player>, currentPlayerIndex: int, move: MoveOption) returns (ok: bool)
    requires board.Valid() && 0 <= move.holeIndex < NumHoles
    requires players.Length == 2 && players[0] != players[1] && 0 <= currentPlayerIndex < 2
    modifies board.Repr, players[0], players[1]
    ensures board.Valid()
    ensures ok <==> Legal(old(board.Cells()), players[currentPlayerIndex].index, move.holeIndex, move.kind)
    ensures ok ==> board.Cells() == Played(old(board.Cells()), players[currentPlayerIndex].index, players[1 - currentPlayerIndex].index, move.holeIndex, move.kind)
    ensures ok ==>
              var e := Earned(old(board.Cells()), players[currentPlayerIndex].index, players[1 - currentPlayerIndex].index, move.holeIndex, move.kind);
              players[0].captured == Credit(old(players[0].captured), 0, currentPlayerIndex, e) &&
              players[1].captured == Credit(old(players[1].captured), 1, currentPlayerIndex, e)
  {
    var current := players[currentPlayerIndex];
    var opponent := players[1 - currentPlayerIndex];
    ok := Perform(board, current, opponent, move);
  }

  /**
   * The move played by its command on `board`, `current` moving against
   * `opponent`: what the command promises, stated for the search.
   */
  method Perform(board: Board, current: Player, opponent: Player, move: MoveOption) returns (ok: bool)
    requires board.Valid() && 0 <= move.holeIndex < NumHoles && current != opponent
    modifies board.Repr, current
    ensures board.Valid()
    ensures ok <==> Legal(old(board.Cells()), current.index, move.holeIndex, move.kind)
    ensures ok ==> board.Cells() == Played(old(board.Cells()), current.index, opponent.index, move.holeIndex, move.kind)
    ensures ok ==> current.captured == old(current.captured) + Earned(old(board.Cells()), current.index, opponent.index, move.holeIndex, move.kind)
    ensures opponent.captured == old(opponent.captured)
  {
    var cmd := new MoveCommand(board, current, opponent, move.holeIndex, move.kind);
    ok := cmd.Execute();
  }

  /** `v` is the largest value of `f` over the moves `gen`, taken by one of them. */
  ghost predicate IsMaxOver(f: MoveOption --> int, gen: seq<MoveOption>, v: int)
    requires DefinedOn(f, gen)
  {
    (forall m :: m in gen ==> f(m) <= v) && (exists m :: m in gen && f(m) == v)
  }

  /** `v` is the smallest value of `f` over the moves `gen`, taken by one of them. */
  ghost predicate IsMinOver(f: MoveOption --> int, gen: seq<MoveOption>, v: int)
    requires DefinedOn(f, gen)
  {
    (forall m :: m in gen ==> f(m) >= v) && (exists m :: m in gen && f(m) == v)
  }

  /**
   * What the search loops need of a position that is not a leaf, given a
   * list `legal` holding exactly its legal moves and a reordering `moves`
   * of it: `moves` names holes of the ring and holds every generated move,
   * and the value of the position is the largest child value when the root
   * side is to move and the smallest when not.
   */
  lemma LoopSetup(h: Heuristic, cells: seq<Counts>, t0: int, t1: int, side: int, depth: int, limit: int, root: int,
                  legal: seq<MoveOption>, moves: seq<MoveOption>)
    requires |cells| == NumHoles && 0 <= side <= 1 && 0 <= root <= 1 && depth < limit && !GameOver(SumTotals(cells), t0, t1)
    requires legal != [] && forall m :: m in legal <==> 0 <= m.holeIndex < NumHoles && Legal(cells, side, m.holeIndex, m.kind)
    requires multiset(moves) == multiset(legal)
    ensures OnRing(moves)
    ensures side == root ==> MaxReady(Children(h, cells, t0, t1, side, depth, limit, root), Generated(cells, side), moves, Value(h, cells, t0, t1, side, depth, limit, root))
    ensures side != root ==> MinReady(Children(h, cells, t0, t1, side, depth, limit, root), Generated(cells, side), moves, Value(h, cells, t0, t1, side, depth, limit, root))
  {
    PermutationKeeps(legal, moves);
    NoMovesNoneEmitted(cells, side, moves);
    ChildrenOnRing(h, cells, t0, t1, side, depth, limit, root, moves);
    if side == root {
      ValueAtMax(h, cells, t0, t1, side, depth, limit, root);
    } else {
      ValueAtMin(h, cells, t0, t1, side, depth, limit, root);
    }
  }

  /**
   * The loop state a maximising search starts from: `f` is defined on the
   * searched `moves`, which hold every generated move of the non-empty
   * `gen`, and `v` is the largest value of `f` over `gen`.
   */
  ghost predicate MaxReady(f: MoveOption --> int, gen: seq<MoveOption>, moves: seq<MoveOption>, v: int) {
    DefinedOn(f, moves) && DefinedOn(f, gen) && gen != [] && (forall m :: m in gen ==> m in moves) && IsMaxOver(f, gen, v)
  }

  /** As `MaxReady`, with `v` the smallest value of `f` over `gen`. */
  ghost predicate MinReady(f: MoveOption --> int, gen: seq<MoveOption>, moves: seq<MoveOption>, v: int) {
    DefinedOn(f, moves) && DefinedOn(f, gen) && gen != [] && (forall m :: m in gen ==> m in moves) && IsMinOver(f, gen, v)
  }

  /** The child values are defined on every move of the ring. */
  lemma ChildrenOnRing(h: Heuristic, cells: seq<Counts>, t0: int, t1: int, side: int, depth: int, limit: int, root: int, moves: seq<MoveOption>)
    requires |cells| == NumHoles && 0 <= side <= 1 && depth < limit && OnRing(moves)
    ensures DefinedOn(Children(h, cells, t0, t1, side, depth, limit, root), moves)
  {
  }

  /**
   * What one searched move tells the loops, restated over the generated
   * moves and the child values: the move was played exactly when it is
   * generated, and its score is fail-soft for its child value.
   */
  lemma ChildScore(h: Heuristic, cells: seq<Counts>, t0: int, t1: int, side: int, depth: int, limit: int, root: int, m: MoveOption,
                   played: bool, score: int, alpha: int, beta: int, exact: bool)
    requires |cells| == NumHoles && 0 <= side <= 1 && depth < limit && 0 <= m.holeIndex < NumHoles
    requires played <==> Legal(cells, side, m.holeIndex, m.kind)
    requires played && exact ==> FailSoft(score, alpha, beta, Child(h, cells, t0, t1, side, depth, limit, root, m))
    ensures played <==> m in Generated(cells, side)
    ensures played && exact ==> FailSoft(score, alpha, beta, Children(h, cells, t0, t1, side, depth, limit, root)(m))
  {
    EmittedOnRing(cells, side);
  }

  /** At a position the root side is to move in, its value is the largest child value of a generated move. */
  lemma ValueAtMax(h: Heuristic, cells: seq<Counts>, t0: int, t1: int, side: int, depth: int, limit: int, root: int)
    requires |cells| == NumHoles && 0 <= side <= 1 && side == root && depth < limit && !GameOver(SumTotals(cells), t0, t1)
    requires Generated(cells, side) != []
    ensures DefinedOn(Children(h, cells, t0, t1, side, depth, limit, root), Generated(cells, side))
    ensures IsMaxOver(Children(h, cells, t0, t1, side, depth, limit, root), Generated(cells, side), Value(h, cells, t0, t1, side, depth, limit, root))
  {
    EmittedOnRing(cells, side);
    var ms := Generated(cells, side);
    var f := Children(h, cells, t0, t1, side, depth, limit, root);
    assert Value(h, cells, t0, t1, side, depth, limit, root) == MaxOf(ms, f);
  }


  /** At a position the root side's opponent is to move in, its value is the smallest child value of a generated move. */
  lemma ValueAtMin(h: Heuristic, cells: seq<Counts>, t0: int, t1: int, side: int, depth: int, limit: int, root: int)
    requires |cells| == NumHoles && 0 <= side <= 1 && side != root && depth < limit && !GameOver(SumTotals(cells), t0, t1)
    requires Generated(cells, side) != []
    ensures DefinedOn(Children(h, cells, t0, t1, side, depth, limit, root), Generated(cells, side))
    ensures IsMinOver(Children(h, cells, t0, t1, side, depth, limit, root), Generated(cells, side), Value(h, cells, t0, t1, side, depth, limit, root))
  {
    EmittedOnRing(cells, side);
    var ms := Generated(cells, side);
    var f := Children(h, cells, t0, t1, side, depth, limit, root);
    assert Value(h, cells, t0, t1, side, depth, limit, root) == MinOf(ms, f);
  }


  /** A list holding exactly the legal moves is empty exactly when no move is emitted, names holes of the ring and holds every emitted move. */
  lemma NoMovesNoneEmitted(cells: seq<Counts>, side: int, moves: seq<MoveOption>)
    requires |cells| == NumHoles
    requires forall m :: m in moves <==> 0 <= m.holeIndex < NumHoles && Legal(cells, side, m.holeIndex, m.kind)
    ensures moves == [] <==> Generated(cells, side) == []
    ensures OnRing(moves) && forall m :: m in Generated(cells, side) ==> m in moves
  {
    EmittedOnRing(cells, side);
    if moves != [] {
      assert moves[0] in moves;
    }
    if Generated(cells, side) != [] {
      assert Generated(cells, side)[0] in Generated(cells, side);
    }
  }

  /** At the depth limit, at the end of the game or without a move, the value is the evaluation. */
  lemma ValueAtLeaf(h: Heuristic, cells: seq<Counts>, t0: int, t1: int, side: int, depth: int, limit: int, root: int)
    requires |cells| == NumHoles && 0 <= side <= 1
    requires depth >= limit || GameOver(SumTotals(cells), t0, t1) || Generated(cells, side) == []
    ensures Value(h, cells, t0, t1, side, depth, limit, root) == Leaf(h, cells, t0, t1, root)
  {
  }

  /** Every move of `ms` is in the domain of `f`. */
  ghost predicate DefinedOn(f: MoveOption --> int, ms: seq<MoveOption>) {
    forall m :: m in ms ==> f.requires(m)
  }

  /** None of the first `i` moves is among the legal moves `gen`: the loops have not played any yet. */
  predicate NonePlayed(gen: seq<MoveOption>, moves: seq<MoveOption>, i: int)
    requires 0 <= i <= |moves|
  {
    forall j :: 0 <= j < i ==> moves[j] !in gen
  }

  /** A list holding every legal move, when there is one, holds a legal move. */
  lemma SomePlayed(gen: seq<MoveOption>, moves: seq<MoveOption>)
    requires gen != [] && forall m :: m in gen ==> m in moves
    ensures !NonePlayed(gen, moves, |moves|)
  {
    assert gen[0] in gen;
    var j :| 0 <= j < |moves| && moves[j] == gen[0];
  }

  /**
   * What the maximising loop knows of the child values `f` after the first
   * `i` moves, with `best` its best score: no legal move among them has a
   * larger value, and a best above `alpha0` is the value of one of them.
   */
  ghost predicate MaxSoFar(f: MoveOption --> int, gen: seq<MoveOption>, moves: seq<MoveOption>, i: int, best: int, alpha0: int)
    requires DefinedOn(f, moves) && 0 <= i <= |moves|
  {
    (forall j :: 0 <= j < i && moves[j] in gen ==> f(moves[j]) <= best) &&
    (best != NegInf && best > alpha0 ==> exists j :: 0 <= j < i && moves[j] in gen && f(moves[j]) == best)
  }

  /**
   * The maximising loop's invariant after `i` moves: `best` is minus
   * infinity until a legal move is played and then a score, alpha is the
   * original `alpha0` raised by it and stays below beta, and, when the
   * search is `exact`, what `MaxSoFar` says.
   */
  ghost predicate MaxLoop(f: MoveOption --> int, gen: seq<MoveOption>, moves: seq<MoveOption>, i: int,
                          best: int, alpha0: int, alpha: int, beta: int, exact: bool)
    requires DefinedOn(f, moves) && 0 <= i <= |moves|
  {
    (best == NegInf ==> alpha == alpha0 && NonePlayed(gen, moves, i)) &&
    (best != NegInf ==> 0 <= best <= 100 && alpha == Max(alpha0, best)) &&
    alpha < beta &&
    (exact ==> MaxSoFar(f, gen, moves, i, best, alpha0))
  }

  /** Skipping a refused move keeps the maximising loop's invariant. */
  lemma MaxSkip(f: MoveOption --> int, gen: seq<MoveOption>, moves: seq<MoveOption>, i: int,
                best: int, alpha0: int, alpha: int, beta: int, exact: bool)
    requires DefinedOn(f, moves) && 0 <= i < |moves| && moves[i] !in gen
    requires MaxLoop(f, gen, moves, i, best, alpha0, alpha, beta, exact)
    ensures MaxLoop(f, gen, moves, i + 1, best, alpha0, alpha, beta, exact)
  {
    if exact && best != NegInf && best > alpha0 {
      var j :| 0 <= j < i && moves[j] in gen && f(moves[j]) == best;
      assert 0 <= j < i + 1;
    }
  }

  /**
   * A legal move searched with the window (`alpha`, `beta`) that does not
   * cut: best and alpha become the larger of each and the score, and the
   * invariant extends to that move.
   */
  lemma MaxStep(f: MoveOption --> int, gen: seq<MoveOption>, moves: seq<MoveOption>, i: int,
                best: int, alpha0: int, alpha: int, beta: int, exact: bool, score: int)
    requires DefinedOn(f, moves) && 0 <= i < |moves| && moves[i] in gen
    requires MaxLoop(f, gen, moves, i, best, alpha0, alpha, beta, exact)
    requires 0 <= score <= 100 && Max(alpha, score) < beta
    requires exact ==> FailSoft(score, alpha, beta, f(moves[i]))
    ensures MaxLoop(f, gen, moves, i + 1, Max(best, score), alpha0, Max(alpha, score), beta, exact)
  {
    var b := Max(best, score);
    if exact {
      assert f(moves[i]) <= b;
      forall j | 0 <= j < i + 1 && moves[j] in gen
        ensures f(moves[j]) <= b
      {
        if j < i {
          assert f(moves[j]) <= best;
        }
      }
      if b > alpha0 {
        if b == score && score > alpha {
          assert f(moves[i]) == b;
        } else {
          var j :| 0 <= j < i && moves[j] in gen && f(moves[j]) == best;
          assert 0 <= j < i + 1;
        }
      }
    }
  }

  /**
   * A legal move whose score brings alpha to beta, below a value `v` no
   * legal move exceeds: the best score returned at the cut-off is a score
   * and, when the search is exact, a lower bound at or above beta on `v`.
   */
  lemma MaxCut(f: MoveOption --> int, gen: seq<MoveOption>, moves: seq<MoveOption>, i: int,
               best: int, alpha0: int, alpha: int, beta: int, exact: bool, score: int, v: int)
    requires DefinedOn(f, moves) && 0 <= i < |moves| && moves[i] in gen
    requires MaxLoop(f, gen, moves, i, best, alpha0, alpha, beta, exact)
    requires 0 <= score <= 100 && Max(alpha, score) >= beta
    requires DefinedOn(f, gen) && IsMaxOver(f, gen, v)
    requires exact ==> FailSoft(score, alpha, beta, f(moves[i]))
    ensures 0 <= Max(best, score) <= 100
    ensures exact ==> FailSoft(Max(best, score), alpha0, beta, v)
  {
  }

  /**
   * The maximising loop run to the end of a list holding every legal move,
   * for a value `v` that is the largest child value of a legal move: its best
   * is a score and, when the search is exact, `v` or an upper bound at or
   * below `alpha0` on it.
   */
  lemma MaxDone(f: MoveOption --> int, gen: seq<MoveOption>, moves: seq<MoveOption>,
                best: int, alpha0: int, alpha: int, beta: int, exact: bool, v: int)
    requires DefinedOn(f, moves) && gen != [] && forall m :: m in gen ==> m in moves
    requires MaxLoop(f, gen, moves, |moves|, best, alpha0, alpha, beta, exact)
    requires DefinedOn(f, gen) && IsMaxOver(f, gen, v)
    ensures 0 <= best <= 100
    ensures exact ==> FailSoft(best, alpha0, beta, v)
  {
    SomePlayed(gen, moves);
    if exact {
      var m :| m in gen && f(m) == v;
      var k :| 0 <= k < |moves| && moves[k] == m;
      assert v <= best;
      if best > alpha0 {
        var j :| 0 <= j < |moves| && moves[j] in gen && f(moves[j]) == best;
        assert best <= v;
      }
    }
  }

  /** The minimising loop's counterpart of `MaxSoFar`: no smaller child value, and a best below `beta0` is one. */
  ghost predicate MinSoFar(f: MoveOption --> int, gen: seq<MoveOption>, moves: seq<MoveOption>, i: int, best: int, beta0: int)
    requires DefinedOn(f, moves) && 0 <= i <= |moves|
  {
    (forall j :: 0 <= j < i && moves[j] in gen ==> f(moves[j]) >= best) &&
    (best != PosInf && best < beta0 ==> exists j :: 0 <= j < i && moves[j] in gen && f(moves[j]) == best)
  }

  /** The minimising loop's invariant: `best` plus infinity until a legal move is played, beta the original `beta0` lowered by it. */
  ghost predicate MinLoop(f: MoveOption --> int, gen: seq<MoveOption>, moves: seq<MoveOption>, i: int,
                          best: int, alpha: int, beta0: int, beta: int, exact: bool)
    requires DefinedOn(f, moves) && 0 <= i <= |moves|
  {
    (best == PosInf ==> beta == beta0 && NonePlayed(gen, moves, i)) &&
    (best != PosInf ==> 0 <= best <= 100 && beta == Min(beta0, best)) &&
    alpha < beta &&
    (exact ==> MinSoFar(f, gen, moves, i, best, beta0))
  }

  /** Skipping a refused move keeps the minimising loop's invariant. */
  lemma MinSkip(f: MoveOption --> int, gen: seq<MoveOption>, moves: seq<MoveOption>, i: int,
                best: int, alpha: int, beta0: int, beta: int, exact: bool)
    requires DefinedOn(f, moves) && 0 <= i < |moves| && moves[i] !in gen
    requires MinLoop(f, gen, moves, i, best, alpha, beta0, beta, exact)
    ensures MinLoop(f, gen, moves, i + 1, best, alpha, beta0, beta, exact)
  {
    if exact && best != PosInf && best < beta0 {
      var j :| 0 <= j < i && moves[j] in gen && f(moves[j]) == best;
      assert 0 <= j < i + 1;
    }
  }

  /** A legal move searched without a cut-off in the minimising loop: best and beta become the smaller of each and the score. */
  lemma MinStep(f: MoveOption --> int, gen: seq<MoveOption>, moves: seq<MoveOption>, i: int,
                best: int, alpha: int, beta0: int, beta: int, exact: bool, score: int)
    requires DefinedOn(f, moves) && 0 <= i < |moves| && moves[i] in gen
    requires MinLoop(f, gen, moves, i, best, alpha, beta0, beta, exact)
    requires 0 <= score <= 100 && alpha < Min(beta, score)
    requires exact ==> FailSoft(score, alpha, beta, f(moves[i]))
    ensures MinLoop(f, gen, moves, i + 1, Min(best, score), alpha, beta0, Min(beta, score), exact)
  {
    var b := Min(best, score);
    if exact {
      assert f(moves[i]) >= b;
      forall j | 0 <= j < i + 1 && moves[j] in gen
        ensures f(moves[j]) >= b
      {
        if j < i {
          assert f(moves[j]) >= best;
        }
      }
      if b < beta0 {
        if b == score && score < beta {
          assert f(moves[i]) == b;
        } else {
          var j :| 0 <= j < i && moves[j] in gen && f(moves[j]) == best;
          assert 0 <= j < i + 1;
        }
      }
    }
  }

  /** A legal move whose score brings beta down to alpha, above a value `v` no legal move is below: an upper bound at or below alpha. */
  lemma MinCut(f: MoveOption --> int, gen: seq<MoveOption>, moves: seq<MoveOption>, i: int,
               best: int, alpha: int, beta0: int, beta: int, exact: bool, score: int, v: int)
    requires DefinedOn(f, moves) && 0 <= i < |moves| && moves[i] in gen
    requires MinLoop(f, gen, moves, i, best, alpha, beta0, beta, exact)
    requires 0 <= score <= 100 && Min(beta, score) <= alpha
    requires DefinedOn(f, gen) && IsMinOver(f, gen, v)
    requires exact ==> FailSoft(score, alpha, beta, f(moves[i]))
    ensures 0 <= Min(best, score) <= 100
    ensures exact ==> FailSoft(Min(best, score), alpha, beta0, v)
  {
  }

  /** The minimising loop run to the end: its best is a score and, when exact, `v` or a lower bound at or above `beta0` on it. */
  lemma MinDone(f: MoveOption --> int, gen: seq<MoveOption>, moves: seq<MoveOption>,
                best: int, alpha: int, beta0: int, beta: int, exact: bool, v: int)
    requires DefinedOn(f, moves) && gen != [] && forall m :: m in gen ==> m in moves
    requires MinLoop(f, gen, moves, |moves|, best, alpha, beta0, beta, exact)
    requires DefinedOn(f, gen) && IsMinOver(f, gen, v)
    ensures 0 <= best <= 100
    ensures exact ==> FailSoft(best, alpha, beta0, v)
  {
    SomePlayed(gen, moves);
    if exact {
      var m :| m in gen && f(m) == v;
      var k :| 0 <= k < |moves| && moves[k] == m;
      assert v >= best;
      if best < beta0 {
        var j :| 0 <= j < |moves| && moves[j] in gen && f(moves[j]) == best;
        assert best >= v;
      }
    }
  }

  /** A list holding exactly the legal moves is empty exactly when the side has no legal move. */
  lemma NoLegalMoves(cells: seq<Counts>, side: int, moves: seq<MoveOption>)
    requires |cells| == NumHoles
    requires forall m :: m in moves <==> 0 <= m.holeIndex < NumHoles && Legal(cells, side, m.holeIndex, m.kind)
    ensures moves == [] <==> !HasLegalMove(cells, side)
  {
    if moves != [] {
      assert moves[0] in moves;
    }
    if HasLegalMove(cells, side) {
      var hole, kind :| 0 <= hole < NumHoles && Legal(cells, side, hole, kind);
      assert MoveOption(hole, kind) in moves;
    }
  }

  /** The moves the root loop keeps after a searched move: the move alone above the best, the move added on a tie. */
  function Kept(ties: seq<MoveOption>, best: int, score: int, m: MoveOption): seq<MoveOption> {
    if score > best then [m] else if score == best then ties + [m] else ties
  }

  /**
   * The root loop's invariant after the first `i` moves: `best` is minus
   * infinity, with nothing kept, until a legal move is searched, and then a
   * score that alpha equals; the kept moves `ties` are legal; and, when the
   * search is `exact`, no legal move so far has a larger child value, one of
   * them has `best`, and every one that has it is kept.
   */
  ghost predicate RootLoop(f: MoveOption --> int, gen: seq<MoveOption>, moves: seq<MoveOption>, i: int,
                           best: int, alpha: int, ties: seq<MoveOption>, exact: bool)
    requires DefinedOn(f, moves) && 0 <= i <= |moves|
  {
    (forall m :: m in ties ==> m in gen) &&
    (best == NegInf ==> alpha == NegInf && ties == [] && NonePlayed(gen, moves, i)) &&
    (best != NegInf ==> 0 <= best <= 100 && alpha == best && ties != []) &&
    (exact ==>
       (forall j :: 0 <= j < i && moves[j] in gen ==> f(moves[j]) <= best) &&
       (forall j :: 0 <= j < i && moves[j] in gen && f(moves[j]) == best ==> moves[j] in ties) &&
       (best != NegInf ==> exists j :: 0 <= j < i && moves[j] in gen && f(moves[j]) == best))
  }

  /** Skipping a refused move keeps the root loop's invariant. */
  lemma RootSkip(f: MoveOption --> int, gen: seq<MoveOption>, moves: seq<MoveOption>, i: int,
                 best: int, alpha: int, ties: seq<MoveOption>, exact: bool)
    requires DefinedOn(f, moves) && 0 <= i < |moves| && moves[i] !in gen
    requires RootLoop(f, gen, moves, i, best, alpha, ties, exact)
    ensures RootLoop(f, gen, moves, i + 1, best, alpha, ties, exact)
  {
    if exact && best != NegInf {
      var j :| 0 <= j < i && moves[j] in gen && f(moves[j]) == best;
      assert 0 <= j < i + 1;
    }
  }

  /**
   * A legal move searched with the window (alpha, plus infinity): its score
   * is its child value when above alpha and a bound at or below alpha
   * otherwise, so raising best and alpha to it and keeping it as `Kept` says
   * keeps the root loop's invariant.
   */
  lemma RootStep(f: MoveOption --> int, gen: seq<MoveOption>, moves: seq<MoveOption>, i: int,
                 best: int, alpha: int, ties: seq<MoveOption>, exact: bool, score: int)
    requires DefinedOn(f, moves) && 0 <= i < |moves| && moves[i] in gen
    requires RootLoop(f, gen, moves, i, best, alpha, ties, exact)
    requires 0 <= score <= 100
    requires exact ==> FailSoft(score, alpha, PosInf, f(moves[i]))
    ensures RootLoop(f, gen, moves, i + 1, Max(best, score), Max(alpha, score), Kept(ties, best, score, moves[i]), exact)
  {
    var m := moves[i];
    var b, k := Max(best, score), Kept(ties, best, score, m);
    if exact {
      if score > best {
        assert score == f(m);
        forall j | 0 <= j < i + 1 && moves[j] in gen ensures f(moves[j]) <= b && (f(moves[j]) == b ==> moves[j] in k) {
          if j < i {
            assert f(moves[j]) <= best;
          }
        }
        assert 0 <= i < i + 1 && moves[i] in gen && f(moves[i]) == b;
      } else {
        assert f(m) <= score;
        forall j | 0 <= j < i + 1 && moves[j] in gen ensures f(moves[j]) <= b && (f(moves[j]) == b ==> moves[j] in k) {
          if j < i {
            assert f(moves[j]) <= best;
            if f(moves[j]) == b {
              assert moves[j] in ties;
            }
          }
        }
        var j :| 0 <= j < i && moves[j] in gen && f(moves[j]) == best;
        assert 0 <= j < i + 1;
      }
    }
  }

  /**
   * The root loop run to the end of a list holding every legal move, for `v`
   * the largest child value of a legal move, when the search is exact: its
   * best is `v`, and every legal move of value `v` is kept.
   */
  lemma RootDone(f: MoveOption --> int, gen: seq<MoveOption>, moves: seq<MoveOption>,
                 best: int, alpha: int, ties: seq<MoveOption>, v: int)
    requires DefinedOn(f, moves) && gen != [] && forall m :: m in gen ==> m in moves
    requires RootLoop(f, gen, moves, |moves|, best, alpha, ties, true)
    requires DefinedOn(f, gen) && IsMaxOver(f, gen, v)
    ensures best == v && ties != []
    ensures forall m :: m in gen && f(m) == v ==> m in ties
  {
    SomePlayed(gen, moves);
    var m :| m in gen && f(m) == v;
    var k :| 0 <= k < |moves| && moves[k] == m;
    assert v <= best;
    var j :| 0 <= j < |moves| && moves[j] in gen && f(moves[j]) == best;
    assert best <= v;
    forall m' | m' in gen && f(m') == v ensures m' in ties {
      var k' :| 0 <= k' < |moves| && moves[k'] == m';
    }
  }

  /** The value of the position for the side to move, searched to the depth limit `limit`. */
  ghost function RootValue(h: Heuristic, cells: seq<Counts>, t0: int, t1: int, side: int, limit: int): (v: int)
    requires |cells| == NumHoles && 0 <= side <= 1
    ensures 0 <= v <= 100
  {
    Value(h, cells, t0, t1, side, 0, limit, side)
  }

  /**
   * Over the depth limits 1 to `last`, the scores `rv` are largest at
   * `used`, and larger there than at every deeper limit.
   */
  ghost predicate LastBest(rv: int -> int, last: int, used: int) {
    1 <= used <= last &&
    (forall d :: 1 <= d <= last ==> rv(d) <= rv(used)) &&
    (forall d :: used < d <= last ==> rv(d) < rv(used))
  }

  /**
   * One more limit `d` with score `best`: taking it when `best` is at least
   * the best so far, and keeping the earlier limit otherwise, extends
   * `LastBest` to `d`.
   */
  lemma LastBestStep(rv: int -> int, d: int, used: int, bestScore: int)
    requires d >= 1
    requires d == 1 ==> bestScore == NegInf && rv(d) >= 0
    requires d > 1 ==> LastBest(rv, d - 1, used) && bestScore == rv(used)
    ensures rv(d) >= bestScore ==> LastBest(rv, d, d)
    ensures rv(d) < bestScore ==> LastBest(rv, d, used)
  {
    if rv(d) >= bestScore {
      forall e | 1 <= e <= d ensures rv(e) <= rv(d) {
        if e < d {
          assert rv(e) <= bestScore;
        }
      }
    } else {
      forall e | used < e <= d ensures rv(e) < rv(used) {
        if e < d {
          assert used < e <= d - 1;
        }
      }
    }
  }

  /** The root values of a position, as a function of the depth limit. */
  ghost function RootValues(h: Heuristic, cells: seq<Counts>, t0: int, t1: int, side: int): int -> int
    requires |cells| == NumHoles && 0 <= side <= 1
  {
    d => RootValue(h, cells, t0, t1, side, d)
  }

  /**
   * Over the depth limits 1 to `last`: the root value is largest at `used`,
   * larger there than at every deeper limit, and `kept` holds every legal
   * move whose child value at `used` is that root value.
   */
  ghost predicate BestOfDepths(h: Heuristic, cells: seq<Counts>, t0: int, t1: int, side: int, last: int, used: int, kept: seq<MoveOption>)
    requires |cells| == NumHoles && 0 <= side <= 1
  {
    LastBest(RootValues(h, cells, t0, t1, side), last, used) &&
    forall m: MoveOption ::
      (0 <= m.holeIndex < NumHoles && Legal(cells, side, m.holeIndex, m.kind) &&
       Child(h, cells, t0, t1, side, 0, used, side, m) == RootValue(h, cells, t0, t1, side, used)) ==> m in kept
  }

  /**
   * One more depth limit `d`, whose root loop found the root value `best`
   * and kept every move of that value: replacing the overall result when
   * `best` is at least the overall best extends `BestOfDepths` to `d`.
   */
  lemma DeepStep(h: Heuristic, cells: seq<Counts>, t0: int, t1: int, side: int, d: int,
                 used: int, bestScore: int, bestMoves: seq<MoveOption>, best: int, ties: seq<MoveOption>)
    requires |cells| == NumHoles && 0 <= side <= 1 && d >= 1
    requires d == 1 ==> bestScore == NegInf
    requires d > 1 ==> BestOfDepths(h, cells, t0, t1, side, d - 1, used, bestMoves) && bestScore == RootValue(h, cells, t0, t1, side, used)
    requires best == RootValue(h, cells, t0, t1, side, d)
    requires forall m: MoveOption ::
               (0 <= m.holeIndex < NumHoles && Legal(cells, side, m.holeIndex, m.kind) &&
                Child(h, cells, t0, t1, side, 0, d, side, m) == best) ==> m in ties
    ensures best >= bestScore ==> BestOfDepths(h, cells, t0, t1, side, d, d, ties)
    ensures best < bestScore ==> BestOfDepths(h, cells, t0, t1, side, d, used, bestMoves)
  {
    var rv := RootValues(h, cells, t0, t1, side);
    assert rv(d) == best;
    if d > 1 {
      assert rv(used) == bestScore;
    }
    LastBestStep(rv, d, used, bestScore);
  }

  /** A new array of copies of every player, each a new object. */
  method ClonePlayers(players: array<Player>) returns (clones: array<Player>)
    ensures fresh(clones) && clones.Length == players.Length
    ensures forall i :: 0 <= i < clones.Length ==> fresh(clones[i])
    ensures forall i :: 0 <= i < clones.Length ==> clones[i].index == players[i].index && clones[i].captured == players[i].captured
    ensures forall i, j :: 0 <= i < j < clones.Length ==> clones[i] != clones[j]
  {
    var copies: seq<Player> := [];
    for i := 0 to players.Length
      invariant |copies| == i
      invariant forall j :: 0 <= j < i ==> fresh(copies[j])
      invariant forall j :: 0 <= j < i ==> copies[j].index == players[j].index && copies[j].captured == players[j].captured
      invariant forall j, k :: 0 <= j < k < i ==> copies[j] != copies[k]
    {
      var p := new Player.Copy(players[i]);
      copies := copies + [p];
    }
    clones := new Player[players.Length](i requires 0 <= i < |copies| => copies[i]);
  }


  /** The generator's result: the moves emitted hole by hole, sorted fullest hole first. */
  function LegalMoves(cells: seq<Counts>, side: int): (r: seq<MoveOption>)
    requires |cells| == NumHoles
    ensures multiset(r) == multiset(Generated(cells, side))
  {
    SortBy(Generated(cells, side), TotalRank(cells))
  }

  /** The generator's result holds exactly the legal moves, at most 32, each once, fullest hole first. */
  lemma LegalMovesProperties(cells: seq<Counts>, side: int)
    requires |cells| == NumHoles
    ensures forall m :: m in LegalMoves(cells, side) <==> 0 <= m.holeIndex < NumHoles && Legal(cells, side, m.holeIndex, m.kind)
    ensures |LegalMoves(cells, side)| <= 32 && Distinct(LegalMoves(cells, side))
    ensures forall i, j :: 0 <= i < j < |LegalMoves(cells, side)| ==>
              SeedsAt(cells, LegalMoves(cells, side)[i].holeIndex) >= SeedsAt(cells, LegalMoves(cells, side)[j].holeIndex)
  {
    var emitted, rank := Generated(cells, side), TotalRank(cells);
    var sorted := SortBy(emitted, rank);
    SortBySpec(emitted, rank);
    EmittedOnRing(cells, side);
    EmittedAtMost32(cells, side);
    EmittedDistinct(cells, side, |cells|);
    PermutationKeeps(emitted, sorted);
    TotalRankSorted(sorted, cells);
  }

  /** A permutation has the same elements, the same length, and no repetition when the original has none. */
  lemma PermutationKeeps(a: seq<MoveOption>, b: seq<MoveOption>)
    requires multiset(a) == multiset(b)
    ensures forall m :: m in a <==> m in b
    ensures |a| == |b|
    ensures Distinct(a) ==> Distinct(b)
  {
    assert |a| == |multiset(a)| == |multiset(b)| == |b|;
    forall m ensures m in a <==> m in b {
      assert m in a <==> m in multiset(a);
      assert m in b <==> m in multiset(b);
    }
    if Distinct(a) {
      PermutationDistinct(a, b);
    }
  }

  /** Sorted by the generator's order means non-increasing hole totals. */
  lemma TotalRankSorted(s: seq<MoveOption>, cells: seq<Counts>)
    requires SortedBy(s, TotalRank(cells))
    ensures forall i, j :: 0 <= i < j < |s| ==> SeedsAt(cells, s[i].holeIndex) >= SeedsAt(cells, s[j].holeIndex)
  {
    forall i, j | 0 <= i < j < |s| ensures SeedsAt(cells, s[i].holeIndex) >= SeedsAt(cells, s[j].holeIndex) {
      assert Outranks(TotalRank(cells)(s[i]), TotalRank(cells)(s[j]));
    }
  }

  /** A permutation of a list without repetitions has none. */
  lemma PermutationDistinct(a: seq<MoveOption>, b: seq<MoveOption>)
    requires Distinct(a) && multiset(a) == multiset(b)
    ensures Distinct(b)
  {
    forall i, j | 0 <= i < j < |b| ensures b[i] != b[j] {
      if b[i] == b[j] {
        var x := b[i];
        assert multiset(b)[x] >= 2 by {
          assert b == b[..i] + [x] + b[i + 1..j] + [x] + b[j + 1..];
        }
        DistinctOnce(a, x);
      }
    }
  }

  /** In a list without repetitions every element occurs at most once. */
  lemma {:induction false} DistinctOnce(a: seq<MoveOption>, x: MoveOption)
    requires Distinct(a)
    ensures multiset(a)[x] <= 1
  {
    if a != [] {
      var tail := a[1..];
      assert a == [a[0]] + tail;
      assert Distinct(tail) by {
        forall i, j | 0 <= i < j < |tail| ensures tail[i] != tail[j] {
          assert tail[i] == a[i + 1] && tail[j] == a[j + 1];
        }
      }
      DistinctOnce(tail, x);
      if a[0] == x {
        assert x !in tail by {
          forall k | 0 <= k < |tail| ensures tail[k] != x {
            assert tail[k] == a[k + 1];
          }
        }
      }
    }
  }
}
