/** One hole of the ring: three seed counters, one per colour. */
module Holes {

  datatype SeedColor = Red | Blue | Transparent

  /** The value held by a hole: how many seeds of each colour it contains. */
  datatype Counts = Counts(red: nat, blue: nat, transparent: nat) {

    function Total(): nat {
      red + blue + transparent
    }

    /** The counter of one colour. */
    function Count(color: SeedColor): nat {
      match color
      case Red => red
      case Blue => blue
      case Transparent => transparent
    }

    /** The hole after one seed of `color` was dropped into it. */
    function Plus(color: SeedColor): (r: Counts)
      ensures r.Count(color) == Count(color) + 1
      ensures forall c :: c != color ==> r.Count(c) == Count(c)
      ensures r.Total() == Total() + 1
    {
      match color
      case Red => this.(red := red + 1)
      case Blue => this.(blue := blue + 1)
      case Transparent => this.(transparent := transparent + 1)
    }

    /** The hole after every seed of `color` was taken out of it. */
    function Without(color: SeedColor): (r: Counts)
      ensures r.Count(color) == 0
      ensures forall c :: c != color ==> r.Count(c) == Count(c)
      ensures r.Total() + Count(color) == Total()
    {
      match color
      case Red => this.(red := 0)
      case Blue => this.(blue := 0)
      case Transparent => this.(transparent := 0)
    }
  }

  const Empty := Counts(0, 0, 0)

  /** Taking a colour out a second time takes nothing and changes nothing. */
  lemma WithoutTwice(c: Counts, color: SeedColor)
    ensures c.Without(color).Count(color) == 0
    ensures c.Without(color).Without(color) == c.Without(color)
  {
  }

  /** A seed dropped and then taken back out with its whole colour leaves the other counters as they were. */
  lemma PlusThenWithout(c: Counts, color: SeedColor)
    ensures c.Plus(color).Without(color) == c.Without(color)
    ensures c.Plus(color).Count(color) == c.Count(color) + 1
  {
  }

  /** A hole object whose counters are changed in place. */
  class Hole {
    var red: nat
    var blue: nat
    var transparent: nat

    function Value(): Counts
      reads this
    {
      Counts(red, blue, transparent)
    }

    constructor (red: nat, blue: nat, transparent: nat)
      ensures Value() == Counts(red, blue, transparent)
    {
      this.red := red;
      this.blue := blue;
      this.transparent := transparent;
    }

    /** The copy constructor: a new hole with the same three counters. */
    constructor Copy(clone: Hole)
      ensures Value() == clone.Value()
    {
      red := clone.red;
      blue := clone.blue;
      transparent := clone.transparent;
    }

    function Total(): nat
      reads this
    {
      Value().Total()
    }

    method AddSeed(color: SeedColor)
      modifies this
      ensures Value() == old(Value()).Plus(color)
    {
      match color
      case Red => red := red + 1;
      case Blue => blue := blue + 1;
      case Transparent => transparent := transparent + 1;
    }

    method TakeAllRed() returns (s: nat)
      modifies this
      ensures s == old(red)
      ensures Value() == old(Value()).Without(Red)
    {
      s := red;
      red := 0;
    }

    method TakeAllBlue() returns (s: nat)
      modifies this
      ensures s == old(blue)
      ensures Value() == old(Value()).Without(Blue)
    {
      s := blue;
      blue := 0;
    }

    method TakeAllTransparent() returns (s: nat)
      modifies this
      ensures s == old(transparent)
      ensures Value() == old(Value()).Without(Transparent)
    {
      s := transparent;
      transparent := 0;
    }

    method Clear()
      modifies this
      ensures Value() == Empty
    {
      red, blue, transparent := 0, 0, 0;
    }

    function GetRed(): nat reads this { red }
    function GetBlue(): nat reads this { blue }
    function GetTransparent(): nat reads this { transparent }
  }
}
