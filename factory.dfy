/**
 * The move factory: reads a move written as a hole number followed by a move
 * type ("5R", "8B", "4TR", "7TB"), case-insensitively, and binds the matching
 * command to the board, the mover and the mover's opponent.
 */
module Factory {
  import opened Holes
  import opened Players
  import opened Boards
  import opened Moves

  datatype Option<T> = None | Some(value: T)

  /** The characters `String.trim` strips: every code point up to the space. */
  predicate Trimmable(c: char) {
    c <= ' '
  }

  /** The characters of the regular expression class `\s`: space, tab, newline, vertical tab, form feed, carriage return. */
  predicate IsWhitespace(c: char) {
    c == ' ' || c == '\t' || c == '\n' || c == 11 as char || c == 12 as char || c == '\r'
  }

  predicate IsDigit(c: char) {
    '0' <= c <= '9'
  }

  function DigitValue(c: char): nat
    requires IsDigit(c)
  {
    (c - '0') as nat
  }

  /** `s` without its leading trimmable characters. */
  function TrimStart(s: string): (r: string)
    ensures |r| <= |s|
    ensures r == [] || !Trimmable(r[0])
  {
    if s != [] && Trimmable(s[0]) then TrimStart(s[1..]) else s
  }

  /** `s` without its trailing trimmable characters. */
  function TrimEnd(s: string): (r: string)
    ensures |r| <= |s|
    ensures r == [] || !Trimmable(r[|r| - 1])
  {
    if s != [] && Trimmable(s[|s| - 1]) then TrimEnd(s[..|s| - 1]) else s
  }

  function Trim(s: string): string {
    TrimEnd(TrimStart(s))
  }

  /** Upper-casing of the ASCII letters; every other character is kept. */
  function Upper(c: char): (u: char)
    ensures Trimmable(u) == Trimmable(c) && IsDigit(u) == IsDigit(c) && IsWhitespace(u) == IsWhitespace(c)
  {
    if 'a' <= c <= 'z' then (c - 'a' + 'A') as char else c
  }

  function Lower(c: char): (l: char)
    ensures Trimmable(l) == Trimmable(c) && Upper(l) == Upper(c)
  {
    if 'A' <= c <= 'Z' then (c - 'A' + 'a') as char else c
  }

  /** `s` with `f` applied to each character. */
  function Mapped(s: string, f: char -> char): (r: string)
    ensures |r| == |s| && forall i :: 0 <= i < |s| ==> r[i] == f(s[i])
  {
    seq(|s|, i requires 0 <= i < |s| => f(s[i]))
  }

  function UpperAll(s: string): string {
    Mapped(s, Upper)
  }

  function LowerAll(s: string): string {
    Mapped(s, Lower)
  }

  /** How many digits `s` starts with. */
  function DigitRun(s: string): (k: nat)
    ensures k <= |s|
  {
    if s != [] && IsDigit(s[0]) then 1 + DigitRun(s[1..]) else 0
  }

  /** The decimal value of a string of digits, read left to right; the empty string reads 0. */
  function NumberOf(ds: string): nat
    requires forall i :: 0 <= i < |ds| ==> IsDigit(ds[i])
  {
    if ds == [] then 0 else NumberOf(ds[..|ds| - 1]) * 10 + DigitValue(ds[|ds| - 1])
  }

  /** `s` with every whitespace character deleted. */
  function RemoveWhitespace(s: string): (r: string)
    ensures |r| <= |s|
    ensures forall i :: 0 <= i < |r| ==> !IsWhitespace(r[i])
  {
    if s == [] then []
    else if IsWhitespace(s[0]) then RemoveWhitespace(s[1..])
    else [s[0]] + RemoveWhitespace(s[1..])
  }

  /** The move type a (whitespace-free, upper-cased) token names. */
  function TypeOf(t: string): Option<MoveType> {
    if t == "R" then Some(R)
    else if t == "B" then Some(B)
    else if t == "TR" then Some(TR)
    else if t == "TB" then Some(TB)
    else None
  }

  /**
   * The (0-based hole, move type) a move text denotes, or `None` when it
   * denotes no move.  The text is trimmed and upper-cased first.
   */
  function Parse(input: string): (r: Option<(int, MoveType)>)
    ensures UpperAll(Trim(input)) == [] ==> r == None
    ensures r.Some? ==> 0 <= r.value.0 < NumHoles
  {
    Read(UpperAll(Trim(input)))
  }

  /**
   * The move a trimmed, upper-cased text denotes: nothing when it is empty;
   * otherwise what its leading digits and the rest, without whitespace, decide.
   */
  function Read(s: string): (r: Option<(int, MoveType)>)
    ensures s == [] ==> r == None
    ensures r.Some? ==> DigitRun(s) >= 1 && 0 <= r.value.0 < NumHoles
  {
    if s == [] then None
    else
      var k := DigitRun(s);
      DigitRunDigits(s);
      Decide(NumberOf(s[..k]), RemoveWhitespace(s[k..]))
  }

  /**
   * The move named by a hole number and a type token: nothing when the
   * number is not in 1..16 (no digits read 0), or when the token is empty or
   * not a move type.
   */
  function Decide(number: int, t: string): (r: Option<(int, MoveType)>)
    ensures r.Some? <==> 1 <= number <= NumHoles && TypeOf(t).Some?
    ensures r.Some? ==> r.value == (number - 1, TypeOf(t).value)
  {
    if number < 1 || number > NumHoles then None
    else if t == [] then None
    else match TypeOf(t)
      case None => None
      case Some(kind) => Some((number - 1, kind))
  }

  /** The leading run consists of digits, and the character after it (if any) is not one. */
  lemma {:induction false} DigitRunDigits(s: string)
    ensures forall i :: 0 <= i < DigitRun(s) ==> IsDigit(s[i])
    ensures DigitRun(s) < |s| ==> !IsDigit(s[DigitRun(s)])
  {
    if s != [] && IsDigit(s[0]) {
      DigitRunDigits(s[1..]);
      assert forall i :: 1 <= i < DigitRun(s) ==> s[i] == s[1..][i - 1];
    }
  }

  /** Whatever the input, an accepted move names a hole of the ring. */
  lemma ParsedHoleOnRing(input: string)
    ensures Parse(input).Some? ==> 0 <= Parse(input).value.0 < NumHoles
  {
  }

  /** Appending a digit multiplies the value read so far by ten and adds the digit. */
  lemma NumberStep(ds: string, c: char)
    requires (forall i :: 0 <= i < |ds| ==> IsDigit(ds[i])) && IsDigit(c)
    ensures NumberOf(ds + [c]) == NumberOf(ds) * 10 + DigitValue(c)
  {
    assert (ds + [c])[..|ds|] == ds;
  }

  /** Digits followed by a text that does not start with one: the leading run is exactly those digits. */
  lemma {:induction false} DigitRunSplit(ds: string, rest: string)
    requires forall i :: 0 <= i < |ds| ==> IsDigit(ds[i])
    requires rest == [] || !IsDigit(rest[0])
    ensures DigitRun(ds + rest) == |ds|
    ensures (ds + rest)[..|ds|] == ds && (ds + rest)[|ds|..] == rest
  {
    if ds != [] {
      assert (ds + rest)[1..] == ds[1..] + rest;
      DigitRunSplit(ds[1..], rest);
    }
  }

  /** A text made of digits and then a part that does not start with one reads as those two parts. */
  lemma ReadSplit(ds: string, rest: string)
    requires forall i :: 0 <= i < |ds| ==> IsDigit(ds[i])
    requires rest == [] || !IsDigit(rest[0])
    requires ds + rest != []
    ensures Read(ds + rest) == Decide(NumberOf(ds), RemoveWhitespace(rest))
  {
    DigitRunSplit(ds, rest);
  }

  /** A text with no blank at either end and no lower-case letter is its own normal form. */
  lemma Normalised(s: string)
    requires s != [] && !Trimmable(s[0]) && !Trimmable(s[|s| - 1])
    requires forall i :: 0 <= i < |s| ==> !('a' <= s[i] <= 'z')
    ensures UpperAll(Trim(s)) == s
  {
  }

  /** The decimal digit for a value below ten. */
  function DigitChar(d: nat): (c: char)
    requires d < 10
    ensures IsDigit(c) && DigitValue(c) == d
  {
    ('0' as int + d) as char
  }

  /** The decimal numeral of `n`, without leading zeros. */
  function Decimal(n: nat): string
    decreases n
  {
    if n < 10 then [DigitChar(n)] else Decimal(n / 10) + [DigitChar(n % 10)]
  }

  /** The numeral `Decimal(n)` is a non-empty string of digits that reads back as `n`. */
  lemma {:induction false} DecimalReads(n: nat)
    ensures Decimal(n) != [] && forall i :: 0 <= i < |Decimal(n)| ==> IsDigit(Decimal(n)[i])
    ensures NumberOf(Decimal(n)) == n
  {
    if n >= 10 {
      DecimalReads(n / 10);
      NumberStep(Decimal(n / 10), DigitChar(n % 10));
    }
  }

  /** A move text made of a hole numeral directly followed by a type token. */
  lemma ReadsNumeral(n: nat, token: string)
    requires token != [] && !IsDigit(token[0])
    ensures Read(Decimal(n) + token) == Decide(n, RemoveWhitespace(token))
  {
    DecimalReads(n);
    ReadSplit(Decimal(n), token);
  }

  /** One step of deleting whitespace from the front. */
  lemma RemoveWhitespaceLead(c: char, t: string)
    ensures RemoveWhitespace([c] + t) == if IsWhitespace(c) then RemoveWhitespace(t) else [c] + RemoveWhitespace(t)
  {
    assert ([c] + t)[1..] == t;
  }

  /** A text with no whitespace is kept as it is. */
  lemma {:induction false} NoWhitespaceKept(t: string)
    requires forall i :: 0 <= i < |t| ==> !IsWhitespace(t[i])
    ensures RemoveWhitespace(t) == t
  {
    if t != [] {
      NoWhitespaceKept(t[1..]);
    }
  }

  /**
   * The first whitespace character after the digits ends the number: the
   * digits before it are the hole number, and everything after it, without
   * whitespace, is the type token.  So digits after the blank belong to the
   * token, and such a token names no type.
   */
  lemma BlankEndsNumber(ds: string, w: char, rest: string)
    requires forall i :: 0 <= i < |ds| ==> IsDigit(ds[i])
    requires IsWhitespace(w)
    ensures Read(ds + [w] + rest) == Decide(NumberOf(ds), RemoveWhitespace(rest))
    ensures rest != [] && IsDigit(rest[0]) ==> Read(ds + [w] + rest) == None
  {
    assert ds + [w] + rest == ds + ([w] + rest);
    ReadSplit(ds, [w] + rest);
    RemoveWhitespaceLead(w, rest);
    if rest != [] && IsDigit(rest[0]) {
      DigitTokenNoType(rest);
    }
  }

  /** A token that starts with a digit keeps it first once whitespace is removed, and names no type. */
  lemma DigitTokenNoType(t: string)
    requires t != [] && IsDigit(t[0])
    ensures RemoveWhitespace(t) != [] && RemoveWhitespace(t)[0] == t[0]
    ensures TypeOf(RemoveWhitespace(t)) == None
  {
    assert t == [t[0]] + t[1..];
    RemoveWhitespaceLead(t[0], t[1..]);
  }

  lemma ExampleSimple()
    ensures Parse("5R") == Some((4, R))
  {
    assert Decimal(5) + "R" == "5R";
    Normalised("5R");
    ReadsNumeral(5, "R");
    NoWhitespaceKept("R");
  }

  /** Blanks around the text and between number and type are ignored, and case does not matter. */
  lemma ExampleBlanks()
    ensures Parse(" 16 tb ") == Some((15, TB))
  {
    BlanksNormal();
    BlanksRead();
  }

  lemma BlanksRead()
    ensures Read(Decimal(16) + " TB") == Some((15, TB))
  {
    ReadsNumeral(16, " TB");
    RemoveWhitespaceLead(' ', "TB");
    NoWhitespaceKept("TB");
  }

  lemma BlanksNormal()
    ensures UpperAll(Trim(" 16 tb ")) == Decimal(16) + " TB"
  {
    assert TrimStart(" 16 tb ") == "16 tb " by { assert " 16 tb "[1..] == "16 tb "; }
    assert TrimEnd("16 tb ") == "16 tb" by { assert "16 tb "[..5] == "16 tb"; }
    assert UpperAll("16 tb") == "16 TB";
  }

  /** Leading zeros are accepted. */
  lemma ExampleLeadingZeros()
    ensures Parse("007TR") == Some((6, TR))
  {
    Normalised("007TR");
    LeadingZerosRead();
  }

  lemma LeadingZerosRead()
    ensures Read("007TR") == Some((6, TR))
  {
    ReadSplit("007", "TR");
    assert "007" + "TR" == "007TR";
    LeadingZeros();
    NoWhitespaceKept("TR");
  }

  lemma LeadingZeros()
    ensures NumberOf("007") == 7
  {
    NumberStep("", '0');
    NumberStep("0", '0');
    NumberStep("00", '7');
    assert "" + "0" == "0" && "0" + "0" == "00" && "00" + "7" == "007";
  }

  /** A blank inside the number ends it: "1 6R" names hole 1 with the unknown type "6R". */
  lemma ExampleSplitNumber()
    ensures Parse("1 6R") == None
  {
    assert Decimal(1) + " 6R" == "1 6R";
    Normalised("1 6R");
    ReadsNumeral(1, " 6R");
    RemoveWhitespaceLead(' ', "6R");
    NoWhitespaceKept("6R");
  }

  /** Hole number 0 is refused. */
  lemma ExampleZero()
    ensures Parse("0B") == None
  {
    assert Decimal(0) + "B" == "0B";
    Normalised("0B");
    ReadsNumeral(0, "B");
    NoWhitespaceKept("B");
  }

  /** Hole numbers above 16 are refused. */
  lemma ExampleTooLarge()
    ensures Parse("17B") == None
  {
    assert Decimal(17) + "B" == "17B";
    Normalised("17B");
    ReadsNumeral(17, "B");
    NoWhitespaceKept("B");
  }

  /** A missing number reads as 0 and is refused. */
  lemma ExampleNoNumber()
    ensures Parse("B") == None
  {
    Normalised("B");
    ReadSplit("", "B");
    assert "" + "B" == "B";
  }

  /** A number with no move type is refused. */
  lemma ExampleNoType()
    ensures Parse("12") == None
  {
    assert Decimal(12) == "12";
    DecimalReads(12);
    Normalised("12");
    ReadSplit("12", "");
    assert "12" + "" == "12";
  }

  /** A number with an unknown move type is refused. */
  lemma ExampleUnknownType()
    ensures Parse("3X") == None
  {
    Normalised("3X");
    UnknownTypeRead();
    assert Decimal(3) + "X" == "3X";
  }

  lemma UnknownTypeRead()
    ensures Read(Decimal(3) + "X") == None
  {
    ReadsNumeral(3, "X");
    NoWhitespaceKept("X");
    assert TypeOf("X") == None;
  }

  /** A blank text is refused. */
  lemma ExampleBlank()
    ensures Parse("   ") == None
  {
    assert TrimStart("   ") == "" by { assert "   "[1..] == "  "; assert "  "[1..] == " "; assert " "[1..] == ""; }
  }

  /** Trimming commutes with a character map that sends blanks to blanks and nothing else to them. */
  lemma {:induction false} TrimStartMapped(s: string, f: char -> char)
    requires forall c :: Trimmable(f(c)) == Trimmable(c)
    ensures TrimStart(Mapped(s, f)) == Mapped(TrimStart(s), f)
  {
    if s != [] && Trimmable(s[0]) {
      assert Mapped(s, f)[1..] == Mapped(s[1..], f);
      TrimStartMapped(s[1..], f);
    }
  }

  lemma {:induction false} TrimEndMapped(s: string, f: char -> char)
    requires forall c :: Trimmable(f(c)) == Trimmable(c)
    ensures TrimEnd(Mapped(s, f)) == Mapped(TrimEnd(s), f)
  {
    if s != [] && Trimmable(s[|s| - 1]) {
      assert Mapped(s, f)[..|s| - 1] == Mapped(s[..|s| - 1], f);
      TrimEndMapped(s[..|s| - 1], f);
    }
  }

  /** Trimming a mapped text is mapping the trimmed text. */
  lemma TrimMapped(s: string, f: char -> char)
    requires forall c :: Trimmable(f(c)) == Trimmable(c)
    ensures Trim(Mapped(s, f)) == Mapped(Trim(s), f)
  {
    TrimStartMapped(s, f);
    TrimEndMapped(TrimStart(s), f);
  }

  /** Mapping by `f` and then by `g` is mapping by `g` alone when `g` absorbs `f`. */
  lemma MappedAbsorbed(s: string, f: char -> char, g: char -> char)
    requires forall c :: g(f(c)) == g(c)
    ensures Mapped(Mapped(s, f), g) == Mapped(s, g)
  {
  }

  /** Case does not matter: a text and its upper-cased form denote the same move. */
  lemma UpperInsensitive(input: string)
    ensures Parse(UpperAll(input)) == Parse(input)
  {
    TrimMapped(input, Upper);
    MappedAbsorbed(Trim(input), Upper, Upper);
  }

  /** Case does not matter: a text and its lower-cased form denote the same move. */
  lemma LowerInsensitive(input: string)
    ensures Parse(LowerAll(input)) == Parse(input)
  {
    TrimMapped(input, Lower);
    MappedAbsorbed(Trim(input), Lower, Upper);
  }

  /*
   * What the factory as written computes for the hole number: its digit loop
   * uses 32-bit `int` arithmetic, which wraps modulo 2^32.
   */

  /** The two's-complement 32-bit value of `x`. */
  function Wrap32(x: int): (r: int)
    ensures -0x8000_0000 <= r < 0x8000_0000
  {
    var m := x % 0x1_0000_0000;
    if m < 0x8000_0000 then m else m - 0x1_0000_0000
  }

  /** Wrapping changes a value by a multiple of 2^32 and keeps the values that fit. */
  lemma Wrap32Congruent(x: int)
    ensures (Wrap32(x) - x) % 0x1_0000_0000 == 0
    ensures -0x8000_0000 <= x < 0x8000_0000 ==> Wrap32(x) == x
  {
  }

  /** The hole number the digit loop as written accumulates, wrapping at each step. */
  function WrappedNumberOf(ds: string): int
    requires forall i :: 0 <= i < |ds| ==> IsDigit(ds[i])
  {
    if ds == [] then 0 else Wrap32(WrappedNumberOf(ds[..|ds| - 1]) * 10 + DigitValue(ds[|ds| - 1]))
  }

  /** The hole number the factory as written reads from a text. */
  function WrittenHoleNumber(input: string): int {
    var s := UpperAll(Trim(input));
    DigitRunDigits(s);
    WrappedNumberOf(s[..DigitRun(s)])
  }

  /** Appending a digit to the wrapped reading: one step of the loop as written. */
  lemma WrappedStep(ds: string, c: char)
    requires (forall i :: 0 <= i < |ds| ==> IsDigit(ds[i])) && IsDigit(c)
    ensures WrappedNumberOf(ds + [c]) == Wrap32(WrappedNumberOf(ds) * 10 + DigitValue(c))
  {
    assert (ds + [c])[..|ds|] == ds;
  }

  /** While the value read stays below 2^31 the wrapped loop agrees with the exact one. */
  lemma {:induction false} WrappedAgrees(ds: string)
    requires forall i :: 0 <= i < |ds| ==> IsDigit(ds[i])
    requires NumberOf(ds) < 0x8000_0000
    ensures WrappedNumberOf(ds) == NumberOf(ds)
  {
    if ds != [] {
      var front := ds[..|ds| - 1];
      WrappedAgrees(front);
      Wrap32Congruent(WrappedNumberOf(front) * 10 + DigitValue(ds[|ds| - 1]));
    }
  }

  /**
   * The factory as written: the same steps as `Parse` (trim, upper-case,
   * refuse the empty text, read the leading digits, test the range, remove
   * whitespace from the rest, refuse an empty type, match the type), but
   * with the hole number the wrapping digit loop accumulates.
   */
  function WrittenParse(input: string): (r: Option<(int, MoveType)>)
    ensures r.Some? ==> 0 <= r.value.0 < NumHoles
    ensures UpperAll(Trim(input)) == [] ==> r == None
  {
    var s := UpperAll(Trim(input));
    if s == [] then None
    else Decide(WrittenHoleNumber(input), RemoveWhitespace(s[DigitRun(s)..]))
  }

  /** Up to nine digits the number cannot wrap, so the factory as written and `Parse` agree. */
  lemma WrittenParseAgrees(input: string)
    requires DigitRun(UpperAll(Trim(input))) <= 9
    ensures WrittenParse(input) == Parse(input)
  {
    var s := UpperAll(Trim(input));
    if s != [] {
      var ds := s[..DigitRun(s)];
      DigitRunDigits(s);
      NumberBelow(ds);
      Pow10Grows(|ds|, 9);
      WrappedAgrees(ds);
    }
  }

  function Pow10(n: nat): (r: nat)
    ensures r >= 1
  {
    if n == 0 then 1 else 10 * Pow10(n - 1)
  }

  lemma {:induction false} Pow10Grows(i: nat, j: nat)
    requires i <= j
    ensures Pow10(i) <= Pow10(j)
    ensures Pow10(9) == 1_000_000_000
  {
    if i < j {
      Pow10Grows(i, j - 1);
    }
  }

  /** A string of `n` digits reads a value below 10^n. */
  lemma {:induction false} NumberBelow(ds: string)
    requires forall i :: 0 <= i < |ds| ==> IsDigit(ds[i])
    ensures NumberOf(ds) < Pow10(|ds|)
  {
    if ds != [] {
      NumberBelow(ds[..|ds| - 1]);
    }
  }

  /**
   * The text "4294967297R" names no hole of the ring, but the wrapped digit
   * loop reads it as hole number 1 (4294967297 is 2^32 + 1), and so the
   * factory as written accepts it as a Red move from the first hole, which
   * `Parse` refuses.
   */
  lemma WrappedNumberAcceptsOverflow()
    ensures WrittenHoleNumber(Decimal(4294967297) + "R") == 1
    ensures WrittenParse(Decimal(4294967297) + "R") == Some((0, R))
    ensures Parse(Decimal(4294967297) + "R") == None
  {
    var ds := Decimal(4294967297);
    OverflowNormal();
    DecimalReads(4294967297);
    DigitRunSplit(ds, "R");
    OverflowWraps();
    ReadsNumeral(4294967297, "R");
    NoWhitespaceKept("R");
  }

  lemma OverflowNormal()
    ensures UpperAll(Trim(Decimal(4294967297) + "R")) == Decimal(4294967297) + "R"
  {
    var s := Decimal(4294967297) + "R";
    DecimalReads(4294967297);
    assert s[0] == Decimal(4294967297)[0] && s[|s| - 1] == 'R';
    Normalised(s);
  }

  lemma OverflowWraps()
    ensures var ds := Decimal(4294967297); (forall i :: 0 <= i < |ds| ==> IsDigit(ds[i])) && WrappedNumberOf(ds) == 1
  {
    var front := Decimal(429496729);
    DecimalReads(429496729);
    DecimalReads(4294967297);
    assert Decimal(4294967297) == front + ['7'];
    WrappedAgrees(front);
    WrappedStep(front, '7');
  }

  /** Builds move commands bound to one board and the array of the two players. */
  class MoveFactory {
    const board: Board
    const players: array<Player>

    constructor (board: Board, players: array<Player>)
      ensures this.board == board && this.players == players
    {
      this.board := board;
      this.players := players;
    }

    /**
     * The command a move text denotes for `current`, against the player at
     * index `1 - current.index`; null when the text denotes no move.
     */
    method CreateMove(input: string, current: Player) returns (cmd: MoveCommand?)
      requires 0 <= 1 - current.index < players.Length
      ensures cmd == null <==> Parse(input) == None
      ensures cmd != null ==>
                fresh(cmd) && (cmd.holeIndex, cmd.kind) == Parse(input).value &&
                cmd.board == board && cmd.current == current && cmd.opponent == players[1 - current.index]
    {
      var s := UpperAll(Trim(input));
      if |s| == 0 {
        return null;
      }
      var i := 0;
      var len := |s|;
      var holeNumber := 0;
      DigitRunDigits(s);
      while i < len && IsDigit(s[i])
        invariant 0 <= i <= DigitRun(s)
        invariant holeNumber == NumberOf(s[..i])
      {
        assert s[..i + 1][..i] == s[..i];
        holeNumber := holeNumber * 10 + DigitValue(s[i]);
        i := i + 1;
      }
      assert i == DigitRun(s);
      if holeNumber < 1 || holeNumber > NumHoles {
        return null;
      }
      var holeIndex := holeNumber - 1;
      var t := RemoveWhitespace(s[i..]);
      if |t| == 0 {
        return null;
      }
      var opponent := players[1 - current.index];
      match TypeOf(t)
      case Some(kind) =>
        cmd := new MoveCommand(board, current, opponent, holeIndex, kind);
      case None =>
        cmd := null;
    }
  }
}
