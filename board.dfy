/** The ring of sixteen holes and its aggregate queries. */
module Boards {
  import opened Holes
  import opened Players

  /** The sum of the hole totals of a ring, or of a prefix of one. */
  function SumTotals(cells: seq<Counts>): nat {
    if cells == [] then 0 else SumTotals(cells[..|cells| - 1]) + cells[|cells| - 1].Total()
  }

  /** The sum of the totals of the holes, among `cells`, that side `index` owns. */
  function OwnedSum(cells: seq<Counts>, index: int): nat {
    if cells == [] then 0
    else
      OwnedSum(cells[..|cells| - 1], index)
      + (if Owns(index, |cells| - 1) then cells[|cells| - 1].Total() else 0)
  }

  /** A ring whose every hole holds `c`. */
  function Uniform(c: Counts): (r: seq<Counts>)
    ensures |r| == NumHoles && forall i :: 0 <= i < NumHoles ==> r[i] == c
  {
    seq(NumHoles, _ => c)
  }

  const Initial := Counts(2, 2, 2)

  /** Replacing one hole changes the sum by the difference of the two totals. */
  lemma {:induction false} SumUpdate(cells: seq<Counts>, i: int, c: Counts)
    requires 0 <= i < |cells|
    ensures SumTotals(cells[i := c]) + cells[i].Total() == SumTotals(cells) + c.Total()
  {
    var n := |cells| - 1;
    assert cells[i := c][..n] == if i == n then cells[..n] else cells[..n][i := c];
    if i < n {
      SumUpdate(cells[..n], i, c);
    }
  }

  /** The same for the owned sums: a hole that `index` does not own does not count. */
  lemma {:induction false} OwnedSumUpdate(cells: seq<Counts>, index: int, i: int, c: Counts)
    requires 0 <= i < |cells|
    ensures OwnedSum(cells[i := c], index) + (if Owns(index, i) then cells[i].Total() else 0)
         == OwnedSum(cells, index) + (if Owns(index, i) then c.Total() else 0)
  {
    var n := |cells| - 1;
    assert cells[i := c][..n] == if i == n then cells[..n] else cells[..n][i := c];
    if i < n {
      OwnedSumUpdate(cells[..n], index, i, c);
    }
  }

  /** The owned sums of sides 0 and 1 add up to the whole sum. */
  lemma {:induction false} OwnedSumsSplit(cells: seq<Counts>)
    ensures OwnedSum(cells, 0) + OwnedSum(cells, 1) == SumTotals(cells)
  {
    if cells != [] {
      OwnedSumsSplit(cells[..|cells| - 1]);
    }
  }

  /** A sum is zero exactly when every hole counted in it is empty. */
  lemma {:induction false} OwnedSumZero(cells: seq<Counts>, index: int)
    ensures OwnedSum(cells, index) == 0 <==>
            forall j :: 0 <= j < |cells| && Owns(index, j) ==> cells[j].Total() == 0
  {
    if cells != [] {
      var n := |cells| - 1;
      OwnedSumZero(cells[..n], index);
      assert forall j :: 0 <= j < n ==> cells[..n][j] == cells[j];
    }
  }

  lemma {:induction false} SumTotalsZero(cells: seq<Counts>)
    ensures SumTotals(cells) == 0 <==> forall j :: 0 <= j < |cells| ==> cells[j].Total() == 0
  {
    if cells != [] {
      var n := |cells| - 1;
      SumTotalsZero(cells[..n]);
      assert forall j :: 0 <= j < n ==> cells[..n][j] == cells[j];
    }
  }

  lemma {:induction false} SumOfConstant(cells: seq<Counts>, c: Counts)
    requires forall j :: 0 <= j < |cells| ==> cells[j] == c
    ensures SumTotals(cells) == |cells| * c.Total()
  {
    if cells != [] {
      SumOfConstant(cells[..|cells| - 1], c);
    }
  }

  /** A fresh ring holds sixteen holes of two seeds of each colour: 96 seeds. */
  lemma InitialTotal()
    ensures SumTotals(Uniform(Initial)) == 96
    ensures SumTotals(Uniform(Empty)) == 0
  {
    SumOfConstant(Uniform(Initial), Initial);
    SumOfConstant(Uniform(Empty), Empty);
  }

  class Board {
    const holes: array<Hole>
    /** The hole objects of the ring. */
    ghost const Repr: set<Hole>
    /** Where each hole object sits on the ring; it makes the sixteen holes distinct objects. */
    ghost const slot: map<Hole, int>

    ghost predicate Valid()
      reads this, holes
    {
      holes.Length == NumHoles &&
      Repr == (set i | 0 <= i < holes.Length :: holes[i]) &&
      forall i :: 0 <= i < holes.Length ==> holes[i] in slot && slot[holes[i]] == i
    }

    /** The contents of the ring as a value, hole by hole. */
    function Cells(): (s: seq<Counts>)
      reads this, holes, Repr
      requires Valid()
      ensures |s| == holes.Length
      ensures forall i :: 0 <= i < holes.Length ==> s[i] == holes[i].Value()
    {
      seq(holes.Length, i requires 0 <= i < holes.Length && holes[i] in Repr reads this, holes, Repr => holes[i].Value())
    }

    /** A fresh board: sixteen new holes holding (2, 2, 2). */
    constructor ()
      ensures Valid() && fresh(holes) && forall i :: 0 <= i < NumHoles ==> fresh(holes[i])
      ensures Cells() == Uniform(Initial)
    {
      var first := new Hole(2, 2, 2);
      var a := new Hole[NumHoles](_ => first);
      ghost var m: map<Hole, int> := map[];
      for i := 0 to NumHoles
        invariant forall j :: 0 <= j < i ==> fresh(a[j]) && a[j].Value() == Initial
        invariant forall j :: 0 <= j < i ==> a[j] in m && m[a[j]] == j
      {
        a[i] := new Hole(2, 2, 2);
        m := m[a[i] := i];
      }
      holes := a;
      Repr := set i | 0 <= i < a.Length :: a[i];
      slot := m;
    }

    /** The copy constructor: new holes, hole by hole equal to those of `clone`. */
    constructor Copy(clone: Board)
      requires clone.Valid()
      ensures Valid() && fresh(holes) && fresh(Repr) && forall i :: 0 <= i < NumHoles ==> fresh(holes[i])
      ensures Cells() == clone.Cells()
    {
      var a, m := CopyHoles(clone);
      holes := a;
      Repr := set i | 0 <= i < a.Length :: a[i];
      slot := m;
    }

    /** New holes, one per hole of `clone` and holding what it holds, with the position of each. */
    static method CopyHoles(clone: Board) returns (a: array<Hole>, ghost m: map<Hole, int>)
      requires clone.Valid()
      ensures fresh(a) && a.Length == NumHoles
      ensures forall j :: 0 <= j < NumHoles ==> fresh(a[j]) && a[j].Value() == clone.holes[j].Value()
      ensures forall j :: 0 <= j < NumHoles ==> a[j] in m && m[a[j]] == j
    {
      var n := clone.GetNumHoles();
      var first := new Hole(0, 0, 0);
      a := new Hole[n](_ => first);
      m := map[];
      for i := 0 to n
        invariant forall j :: 0 <= j < i ==> fresh(a[j]) && a[j].Value() == clone.holes[j].Value()
        invariant forall j :: 0 <= j < i ==> a[j] in m && m[a[j]] == j
      {
        a[i] := new Hole.Copy(clone.holes[i]);
        m := m[a[i] := i];
      }
    }

    function GetNumHoles(): (n: nat)
      reads this, holes
      requires Valid()
      ensures n == holes.Length == |Cells()|
    {
      NumHoles
    }

    function GetHole(index: int): (h: Hole)
      reads this, holes
      requires Valid() && 0 <= index < NumHoles
      ensures h in Repr && h.Value() == Cells()[index]
    {
      holes[index]
    }

    method TotalSeeds() returns (sum: nat)
      requires Valid()
      ensures sum == SumTotals(Cells())
    {
      sum := 0;
      for i := 0 to NumHoles
        invariant sum == SumTotals(Cells()[..i])
      {
        assert Cells()[..i + 1][..i] == Cells()[..i];
        sum := sum + holes[i].Total();
      }
      assert Cells()[..NumHoles] == Cells();
    }

    method TotalSeedsOwnedBy(player: Player) returns (sum: nat)
      requires Valid()
      ensures sum == OwnedSum(Cells(), player.index)
    {
      sum := 0;
      for i := 0 to NumHoles
        invariant sum == OwnedSum(Cells()[..i], player.index)
      {
        assert Cells()[..i + 1][..i] == Cells()[..i];
        if player.OwnsHoleIndex(i) {
          sum := sum + holes[i].Total();
        }
      }
      assert Cells()[..NumHoles] == Cells();
    }

    /** Empties every hole and returns how many seeds the ring held. */
    method CollectAllSeeds() returns (sum: nat)
      requires Valid()
      modifies Repr
      ensures Valid()
      ensures sum == old(SumTotals(Cells()))
      ensures Cells() == Uniform(Empty)
    {
      sum := TotalSeeds();
      for i := 0 to NumHoles
        invariant Valid()
        invariant forall j :: 0 <= j < i ==> holes[j].Value() == Empty
      {
        var h := holes[i];
        assert h in Repr;
        h.Clear();
      }
      assert forall j :: 0 <= j < NumHoles ==> Cells()[j] == Empty;
    }
  }
}
