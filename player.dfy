/** A side of the game: its index, its name and its captured tally. */
module Players {

  const NumHoles := 16

  /**
   * Java's `%` on int: division truncates toward zero, so `a - r` is a
   * multiple of `b`, the remainder is smaller than `b` in magnitude, and it
   * takes the sign of the dividend.  These three facts fix `r`.
   */
  function JavaRem(a: int, b: int): (r: int)
    requires b > 0
    ensures (a - r) % b == 0 && -b < r < b
    ensures a >= 0 ==> r >= 0
    ensures a < 0 ==> r <= 0
  {
    if a >= 0 then
      MultipleRem(b, a / b);
      a % b
    else
      var q, m := (-a) / b, (-a) % b;
      assert a + m == b * -q;
      MultipleRem(b, -q);
      -m
  }

  /** A multiple of `b` leaves remainder 0. */
  lemma MultipleRem(b: int, k: int)
    requires b > 0
    ensures (b * k) % b == 0
  {
    var q, m := (b * k) / b, (b * k) % b;
    var d := k - q;
    assert b * d == m;
    if d >= 1 {
      MulAtLeast(b, d);
      assert false;
    } else if d <= -1 {
      MulAtLeast(b, -d);
      assert false;
    }
  }

  lemma MulAtLeast(b: int, d: int)
    requires b > 0 && d >= 1
    ensures b * d >= b
  {
  }

  /**
   * Hole ownership as a function of the side index alone: side 0 owns the
   * holes whose 1-based number is odd, any other side those whose number is even.
   */
  function Owns(index: int, hole: int): bool {
    var num := hole + 1;
    if index == 0 then JavaRem(num, 2) == 1 else JavaRem(num, 2) == 0
  }

  /** On the ring, side 0 owns the even 0-based indices and side 1 the odd ones: a partition. */
  lemma OwnershipPartition(hole: int)
    requires 0 <= hole < NumHoles
    ensures Owns(0, hole) <==> hole % 2 == 0
    ensures Owns(1, hole) <==> hole % 2 == 1
    ensures Owns(0, hole) != Owns(1, hole)
  {
  }

  /** Any side index other than 0 owns exactly what side 1 owns. */
  lemma NonZeroSideOwnsOdd(index: int, hole: int)
    requires index != 0 && 0 <= hole < NumHoles
    ensures Owns(index, hole) <==> hole % 2 == 1
  {
  }

  /** Of two neighbouring holes of the ring (hole 15 is followed by hole 0), a side owns exactly one. */
  lemma NeighboursAlternate(side: int, hole: int)
    requires 0 <= hole < NumHoles
    ensures Owns(side, hole) != Owns(side, (hole + 1) % NumHoles)
  {
    var next := (hole + 1) % NumHoles;
    if side == 0 {
      OwnershipPartition(hole);
      OwnershipPartition(next);
    } else {
      NonZeroSideOwnsOdd(side, hole);
      NonZeroSideOwnsOdd(side, next);
    }
  }

  /** The 0-based holes a side owns on the ring. */
  function OwnedHoles(index: int): set<int> {
    set hole | 0 <= hole < NumHoles && Owns(index, hole)
  }

  /** Each of the two sides owns exactly eight holes. */
  lemma EachSideOwnsEight()
    ensures OwnedHoles(0) == {0, 2, 4, 6, 8, 10, 12, 14}
    ensures OwnedHoles(1) == {1, 3, 5, 7, 9, 11, 13, 15}
    ensures |OwnedHoles(0)| == 8 && |OwnedHoles(1)| == 8
    ensures OwnedHoles(0) !! OwnedHoles(1)
  {
    var evens, odds := {0, 2, 4, 6, 8, 10, 12, 14}, {1, 3, 5, 7, 9, 11, 13, 15};
    forall hole ensures hole in OwnedHoles(0) <==> hole in evens {
      if 0 <= hole < NumHoles {
        OwnershipPartition(hole);
      }
    }
    forall hole ensures hole in OwnedHoles(1) <==> hole in odds {
      if 0 <= hole < NumHoles {
        OwnershipPartition(hole);
      }
    }
    assert OwnedHoles(0) == evens;
    assert OwnedHoles(1) == odds;
  }

  class Player {
    const index: int
    const name: string
    var captured: int

    constructor (index: int, name: string)
      ensures this.index == index && this.name == name && captured == 0
    {
      this.index := index;
      this.name := name;
      captured := 0;
    }

    /** The copy constructor: same index, name and tally, in a new object. */
    constructor Copy(clone: Player)
      ensures index == clone.index && name == clone.name && captured == clone.captured
    {
      index := clone.index;
      name := clone.name;
      captured := clone.captured;
    }

    function GetIndex(): int { index }

    function GetName(): string { name }

    function GetCaptured(): int reads this { captured }

    method AddCaptured(seeds: int)
      modifies this
      ensures captured == old(captured) + seeds
    {
      captured := captured + seeds;
    }

    function OwnsHoleIndex(holeIndex0Based: int): bool {
      Owns(index, holeIndex0Based)
    }

    /** Writes the same tally as AddCaptured. */
    method AddCapturedRed(taken: int)
      modifies this
      ensures captured == old(captured) + taken
    {
      captured := captured + taken;
    }

    /** Reads the same tally as GetCaptured. */
    function GetCapturedRed(): (c: int)
      reads this
      ensures c == GetCaptured()
    {
      captured
    }
  }
}
