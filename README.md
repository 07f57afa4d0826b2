# Awalé with coloured seeds — rule engine and search player

A model of the game engine of a two-player sowing game played on a ring of
16 holes. Each hole holds red, blue and transparent seeds, and each player
starts with 2 seeds of every colour in every hole, 96 seeds in all. Player 1
(index 0) owns the odd-numbered holes and player 2 (index 1) the
even-numbered ones.

A move names one of the mover's holes and a move type:

- `R` and `B` take the red or blue seeds. `B` sows them only into the
  opponent's holes. `R` sows them with `NormalSowStrategy`, whose source is
  not part of this model; the model assumes it sows into every following
  hole (see "## Left out").
- `TR` and `TB` first sow the transparent seeds and then the red or blue
  seeds. The second phase continues from the hole where the first phase
  stopped.

Sowing never drops a seed back into the starting hole; for `R` moves this
rests on the same assumption about `NormalSowStrategy`. After sowing, the
capture rule runs backwards from the last hole sown, taking every hole that
holds 2 or 3 seeds. Then the starvation rule applies: when the opponent has
no seed left on their side, the mover takes every seed on the board. The
game is over when a player has captured 49 seeds or more, or when fewer than
10 seeds remain on the board.

The search player is modelled too:

- it generates the legal moves and orders them by killer move, history score
  and seeds in the hole;
- it runs alpha-beta minimax on copies of the board;
- it searches by iterative deepening under an optional time limit;
- it picks one of the best moves at random and prints it in the notation a
  human types, such as `5R` or `12TB`. The move factory reads that notation
  back.

The model is imperative where the Java is:

- `Hole`, `Board`, `Player`, `MoveCommand`, `MoveFactory`,
  `MinimaxPlayerController` and the clock are classes whose methods change
  fields and arrays in place. Each state-changing method ties the new state
  to a pure specification function of the old state.
- `Board.Cells()` is the pure view of the ring as a `seq<Counts>`.
- Sowing (`Sown`), captures (`Captured`/`Gained`), starvation
  (`Starved`/`Swept`), a whole move (`Played`/`Earned`) and the minimax value
  (`Value`) are defined as functions. The properties are proved about those
  functions.

Files: `hole.dfy` (`Holes`), `player.dfy` (`Players`), `board.dfy` (`Boards`),
`sowing.dfy` (`Sowing`), `rules.dfy` (`Rules`), `moves.dfy` (`Moves`),
`factory.dfy` (`Factory`) and `search.dfy` (`Search`).

The repository holds two copies of most classes: the default-package files
at its root and the packaged files under `code/src`. Their logic is the
same. The table mostly cites the `code/src` copy. `Hole.java` exists only at
the root.

## Model

| member | source | states |
|---|---|---|
| Holes.Counts.Plus | Hole.java:22-28 | dropping a seed raises that colour's counter by one, leaves the other two alone, and raises the total by one |
| Holes.Counts.Without | Hole.java:30-46 | taking a colour out sets its counter to 0, leaves the other two alone, and lowers the total by exactly what was taken |
| Holes.WithoutTwice | Hole.java:30-46 | a second takeAll of the same colour finds 0 seeds and changes nothing |
| Holes.PlusThenWithout | Hole.java:22-46 | a seed added and then taken with its whole colour leaves the hole as a plain takeAll would |
| Holes.Hole.constructor | Hole.java:6-10 | the new hole holds exactly the given red, blue and transparent counts |
| Holes.Hole.Copy | Hole.java:12-16 | the copy holds the same three counters as the original |
| Holes.Hole.AddSeed | Hole.java:22-28 | the hole afterwards is the old hole plus one seed of the colour |
| Holes.Hole.TakeAllRed | Hole.java:30-34 | returns the old red count; afterwards red is 0 and blue and transparent are unchanged |
| Holes.Hole.TakeAllBlue | Hole.java:36-40 | returns the old blue count; afterwards blue is 0 and the rest is unchanged |
| Holes.Hole.TakeAllTransparent | Hole.java:42-46 | returns the old transparent count; afterwards transparent is 0 and the rest is unchanged |
| Holes.Hole.Clear | Hole.java:48-50 | every counter of the hole is 0 afterwards |
| Players.JavaRem | code/src/models/Player.java:37-41 | Java's `%`: the dividend minus the remainder is a multiple of the divisor, the remainder is smaller than the divisor in magnitude, and it takes the dividend's sign (never negative for a non-negative dividend, never positive for a negative one) |
| Players.OwnershipPartition | code/src/models/Player.java:36-43 | on the 16 holes, player index 0 owns exactly the even 0-based holes (odd hole numbers) and index 1 exactly the odd ones; every hole has exactly one of the two owners |
| Players.NonZeroSideOwnsOdd | code/src/models/Player.java:40-42 | any index other than 0 owns exactly the odd 0-based holes (even hole numbers) |
| Players.NeighboursAlternate | code/src/models/Player.java:36-43 | of two neighbouring holes of the ring, hole 15 and hole 0 included, any side owns exactly one |
| Players.EachSideOwnsEight | code/src/models/Player.java:36-43 | the two sides own the sets {0,2,…,14} and {1,3,…,15}: eight holes each, disjoint |
| Players.Player.constructor | code/src/models/Player.java:8-12 | a new player has the given index and name and has captured nothing |
| Players.Player.Copy | code/src/models/Player.java:14-18 | the copy has the same index, name and captured count |
| Players.Player.AddCaptured | code/src/models/Player.java:32-34 | the captured count grows by exactly the seeds given |
| Players.Player.AddCapturedRed | code/src/models/Player.java:45-47 | the same single tally grows by the seeds given; there is no separate red tally |
| Players.Player.GetCapturedRed | code/src/models/Player.java:49-51 | reads the one captured tally |
| Boards.OwnedSumsSplit | code/src/models/Board.java:29-45 | the seeds owned by side 0 plus those owned by side 1 are all the seeds on the board |
| Boards.OwnedSumZero | code/src/models/Board.java:37-45 | a side owns no seed exactly when every hole it owns is empty |
| Boards.SumTotalsZero | code/src/models/Board.java:29-35 | the board holds no seed exactly when every hole is empty |
| Boards.InitialTotal | code/src/models/Board.java:6-11 | the opening position holds 96 seeds, and a collected board holds none |
| Boards.Board.constructor | code/src/models/Board.java:6-11 | 16 fresh holes, each with 2 red, 2 blue and 2 transparent seeds |
| Boards.Board.Copy | code/src/models/Board.java:13-19 | a board of 16 fresh, distinct holes whose contents equal the original's, hole by hole |
| Boards.Board.CopyHoles | code/src/models/Board.java:15-18 | every hole of the new array is fresh, holds the contents of the same hole of the original, and is distinct from the other holes |
| Boards.Board.GetNumHoles | code/src/models/Board.java:21-23 | the number of holes is the length of the ring |
| Boards.Board.GetHole | code/src/models/Board.java:25-27 | the hole returned belongs to the board and holds the contents of that position of the ring |
| Boards.Board.TotalSeeds | code/src/models/Board.java:29-35 | returns the sum of the totals of all 16 holes |
| Boards.Board.TotalSeedsOwnedBy | code/src/models/Board.java:37-45 | returns the sum of the totals of exactly the holes the player owns |
| Boards.Board.CollectAllSeeds | code/src/models/Board.java:47-53 | returns every seed that was on the board, and leaves every hole empty |
| Sowing.Next | code/src/controllers/OpponentOnlySowStrategy.java:24 | the cursor moves forward by one and wraps from hole 15 to hole 0 |
| Sowing.Walk | code/src/controllers/OpponentOnlySowStrategy.java:23-43 | the ring the skipping loop leaves after dropping the seeds still to sow from the cursor on; it keeps 16 holes, and its effect is stated by WalkTotal, WalkOnlyInReceivers and WalkLast |
| Sowing.Sown | code/src/controllers/OpponentOnlySowStrategy.java:17-43 | the ring after a whole sowing from the start hole (unchanged when no seed is to be sown); it keeps 16 holes, and `Sow` is proved to leave exactly this ring |
| Sowing.ReceiverWithinFour | code/src/controllers/OpponentOnlySowStrategy.java:23-41 | from any hole, some hole 1 to 4 steps ahead may receive a seed, so the skipping loop always reaches a receiver |
| Sowing.GapFirst | code/src/controllers/OpponentOnlySowStrategy.java:24-34 | the next seed lands in the first hole ahead that may receive one; every hole before it is skipped |
| Sowing.GapShrinks | code/src/controllers/OpponentOnlySowStrategy.java:27-34 | skipping a hole brings the next receiver one step closer, which bounds the skips |
| Sowing.WalkTotal | code/src/controllers/SowStrategy.java:9-17 | sowing adds exactly as many seeds to the ring as were sown |
| Sowing.WalkOnlyInReceivers | code/src/controllers/OpponentOnlySowStrategy.java:26-37 | only holes that may receive seeds gain any; they gain only in the sown colour; every other hole is unchanged |
| Sowing.WalkLast | code/src/controllers/OpponentOnlySowStrategy.java:36-43 | the reported last index is a hole that received the final seed |
| Sowing.LastSownReceives | code/src/controllers/SowStrategy.java:18-24 | the index returned after sowing one or more seeds is a hole that may receive seeds: never the start hole, and never the sower's own hole when sowing to the opponent only |
| Sowing.WalkStep | code/src/controllers/OpponentOnlySowStrategy.java:23-41 | one loop iteration: the walk from a hole either skips the next hole or drops one seed there and continues with one seed fewer |
| Sowing.DropSeed | code/src/controllers/OpponentOnlySowStrategy.java:36-37 | one seed of the colour lands in the hole and nothing else on the ring changes |
| Sowing.Sow | code/src/controllers/OpponentOnlySowStrategy.java:11-44 | the ring afterwards is the sowing specification `Sown` applied to the old ring; the index returned is the hole of the last seed, or -1 for no seeds |
| Rules.PrevWraps | code/src/controllers/RuleController.java:25 | the backward step is Java's `(i - 1 + n) % n` on the ring |
| Rules.CapturableBound | code/src/controllers/RuleController.java:18-29 | at most 16 holes can be taken, which bounds the capture loop |
| Rules.CapturesReach | code/src/controllers/RuleController.java:18-29 | the capture chain never takes more holes than are capturable |
| Rules.CapturesTaken | code/src/controllers/RuleController.java:19-25 | every hole within the chain held 2 or 3 seeds and is empty afterwards |
| Rules.CapturesUntouched | code/src/controllers/RuleController.java:26-28 | every hole beyond the chain is unchanged |
| Rules.CapturesStop | code/src/controllers/RuleController.java:26-28 | the chain stops at the first hole, going backwards, that holds neither 2 nor 3 seeds |
| Rules.CapturesConserve | code/src/controllers/RuleController.java:14-30 | seeds left on the ring plus seeds credited to the mover equal the seeds before |
| Rules.CapturesSpec | code/src/controllers/RuleController.java:14-30 | the full capture rule: the holes 0 to k-1 steps behind the start are taken, all others are unchanged, and the hole k steps behind, if any, is not capturable |
| Rules.Captured | code/src/controllers/RuleController.java:14-30 | the ring the capture loop leaves; it keeps 16 holes, and CapturesTaken, CapturesUntouched, CapturesStop and CapturesSpec say which holes it empties |
| Rules.Gained | code/src/controllers/RuleController.java:14-30 | the seeds the capture loop credits to the mover; no contract of its own: CapturesConserve states that it is exactly what leaves the ring |
| Rules.CapturesStep | code/src/controllers/RuleController.java:19-25 | taking a capturable hole and stepping back yields the same final ring and credits the same seeds |
| Rules.Take | code/src/controllers/RuleController.java:22-23 | the taken hole is emptied, its seeds go to the mover, and the rest of the ring is unchanged |
| Rules.ApplyCaptures | code/src/controllers/RuleController.java:14-30 | the ring afterwards is `Captured` of the old ring, and the mover's tally grows by `Gained` |
| Rules.StarveSpec | code/src/controllers/RuleController.java:37-43 | if the opponent's holes are all empty, the mover takes every seed and the ring is emptied; otherwise nothing changes; seeds are conserved either way |
| Rules.Starved | code/src/controllers/RuleController.java:37-43 | the ring the starvation rule leaves; it keeps 16 holes, and StarveSpec states that it is emptied or unchanged |
| Rules.Swept | code/src/controllers/RuleController.java:37-43 | the seeds the starvation rule credits: never more than the ring holds, and nothing unless the opponent's holes hold no seed |
| Rules.ApplyStarvation | code/src/controllers/RuleController.java:37-43 | the ring afterwards is `Starved` of the old ring, and the mover's tally grows by `Swept` |
| Rules.GameOverByTallies | code/src/controllers/RuleController.java:52-61 | with 96 seeds in play, the game is over exactly when a player holds 49 or more or the tallies sum past 86; both players can never hold 49 at once |
| Rules.IsGameOver | code/src/controllers/RuleController.java:52-61 | true exactly when player 1 or player 2 has captured at least 49 seeds, or fewer than 10 seeds remain on the board |
| Rules.GameOver | code/src/controllers/RuleController.java:52-61 | the game-over test on the remaining seeds and the two tallies; no contract of its own: IsGameOver is proved to compute it and GameOverByTallies restates it with tallies alone |
| Rules.Compare | code/src/controllers/RuleController.java:68-72 | `Integer.compare`: 1, 0 or -1 exactly when the first tally is larger, equal or smaller |
| Rules.Winner | code/src/controllers/RuleController.java:68-72 | as written: the comparison of player 1's tally with player 2's |
| Rules.IntendedCode | code/src/controllers/RuleController.java:63-67 | the documented code: 0 exactly when player 1 leads, 1 exactly when player 2 leads, -1 exactly on a draw |
| Rules.IntendedWinner | code/src/controllers/RuleController.java:63-67 | the documented winner code of the two players' tallies |
| Rules.WinnerMisreads | code/src/controllers/RuleController.java:63-72 | the written code never equals the documented winner code, whatever the tallies |
| Moves.Emptied | code/src/models/TransparentAsBlueMoveCommand.java:33-36 | the origin hole loses all its seeds of the main colour, and its transparent seeds too for a two-phase move; the other colour is kept; the total falls by the seeds to be sown |
| Moves.Legal | code/src/models/RedMoveCommand.java:27-40 | a move succeeds when the mover owns the hole and the hole holds a seed the move takes (for the transparent moves, code/src/models/TransparentAsRedMoveCommand.java:29-41); no contract of its own: Execute is proved to succeed exactly when it holds, and TransparentWidens relates the move types |
| Moves.Sowed | code/src/models/TransparentAsRedMoveCommand.java:33-54 | the ring after the origin is emptied and both phases are sown, the second from where the first stopped; it keeps 16 holes, and SowedConserves and SowedShape state its effect |
| Moves.Played | code/src/models/RedMoveCommand.java:35-53 | the ring after a whole move: sowing, captures from the final cursor, then starvation; it keeps 16 holes, and Execute is proved to leave exactly this ring |
| Moves.Earned | code/src/models/RedMoveCommand.java:51-53 | the seeds a move credits to the mover: its captures plus a starvation sweep; no contract of its own: PlayConserves states that it is exactly what leaves the ring |
| Moves.SowedConserves | code/src/models/TransparentAsRedMoveCommand.java:33-54 | emptying the origin and sowing both phases leaves the number of seeds on the ring unchanged |
| Moves.PlayConserves | code/src/models/RedMoveCommand.java:35-53 | after a whole move, the seeds on the ring plus the seeds credited to the mover equal the seeds before |
| Moves.TransparentWidens | code/src/models/TransparentAsRedMoveCommand.java:29-41 | a transparent move is legal exactly when the plain move of its colour is legal or the mover's hole holds transparent seeds |
| Moves.SowedShape | code/src/models/TransparentAsBlueMoveCommand.java:46-53 | no hole's counter of the colour the move does not take changes; with the opponent-only pattern every hole of the mover keeps its contents, and the origin keeps its emptied counters |
| Moves.SecondPhaseStart | code/src/models/TransparentAsRedMoveCommand.java:48-53 | the second phase starts from where the transparent phase stopped: never the origin, and never the mover's own hole for blue-pattern moves |
| Moves.ReplayConserves | code/src/models/MoveCommand.java:4-8 | over any sequence of executed moves, the seeds on the ring plus both players' captures stay equal to the seeds at the start |
| Moves.FreshGameConserves | code/src/models/Board.java:6-11 | from the opening position, ring plus captures always total 96 seeds |
| Moves.TakeAllOf | code/src/models/RedMoveCommand.java:35-40 | returns the hole's seeds of one colour and empties that colour, and nothing else on the ring changes |
| Moves.MoveCommand.constructor | AbstractMoveCommand.java:17-29 | the command holds the given board, mover, opponent, hole and move type |
| Moves.MoveCommand.ApplyRules | code/src/models/RedMoveCommand.java:52-53 | captures from the last index and then starvation of the opponent: the ring becomes `Starved(Captured(..))` and the mover gains `Gained` and then `Swept` |
| Moves.MoveCommand.SowPhases | code/src/models/TransparentAsRedMoveCommand.java:43-54 | the transparent phase is sown, then the main colour from the hole where it stopped; the result is the last hole sown |
| Moves.MoveCommand.ExecuteRed | code/src/models/RedMoveCommand.java:27-56 | succeeds exactly when the mover owns the hole and it holds red seeds; on success the ring and tally are the played move's; on failure nothing changes |
| Moves.MoveCommand.ExecuteBlue | code/src/models/BlueMoveCommand.java:27-52 | the same for blue seeds sown to opponent holes only |
| Moves.MoveCommand.ExecuteTransparentAsRed | code/src/models/TransparentAsRedMoveCommand.java:27-65 | succeeds exactly when the hole is the mover's and holds transparent or red seeds; the transparent seeds are sown first, then the red ones; then captures and starvation |
| Moves.MoveCommand.ExecuteTransparentAsBlue | code/src/models/TransparentAsBlueMoveCommand.java:27-64 | the same with blue as the main colour and the opponent-only pattern for both phases |
| Moves.MoveCommand.Execute | code/src/models/MoveCommand.java:4-8 | true exactly when the move is legal, with the played outcome; the opponent's tally is never touched; ring plus the two tallies is conserved |
| Factory.RemoveWhitespace | code/src/models/MoveFactory.java:52 | the type text keeps no whitespace character |
| Factory.TrimStart | code/src/models/MoveFactory.java:31 | no longer than the input, and it does not start with a trimmable character |
| Factory.TrimEnd | code/src/models/MoveFactory.java:31 | no longer than the input, and it does not end with a trimmable character |
| Factory.DigitRun | code/src/models/MoveFactory.java:39-42 | the number of leading digits the loop consumes, at most the length of the text |
| Factory.Parse | code/src/models/MoveFactory.java:28-57 | a blank text is refused, and an accepted move names a hole of the ring |
| Factory.Read | code/src/models/MoveFactory.java:32-57 | the empty text is refused, and an accepted text starts with at least one digit and names a hole of the ring |
| Factory.Decide | code/src/models/MoveFactory.java:44-78 | a move results exactly when the number (any int, negative included) is 1 to 16 and the type text is R, B, TR or TB; the hole is the number minus one |
| Factory.DigitRunDigits | code/src/models/MoveFactory.java:39-42 | the digit loop consumes exactly the leading digits and stops at the first non-digit |
| Factory.ParsedHoleOnRing | code/src/models/MoveFactory.java:44-49 | every parsed hole index lies on the ring |
| Factory.NumberStep | code/src/models/MoveFactory.java:40 | each digit multiplies the number by ten and adds its value |
| Factory.ReadSplit | code/src/models/MoveFactory.java:36-57 | a digits-then-rest text is decided on the value of the digits and the rest with whitespace removed |
| Factory.Normalised | code/src/models/MoveFactory.java:31 | a text already trimmed and free of lower-case letters is unchanged by trim and upper-casing |
| Factory.DecimalReads | code/src/controllers/MinimaxPlayerController.java:64 | the decimal numeral of a number is all digits, and reads back as that number |
| Factory.ReadsNumeral | code/src/models/MoveFactory.java:36-57 | a numeral followed by a non-digit token is decided on the number and the token |
| Factory.ExampleSimple | code/src/models/MoveFactory.java:28-79 | "5R" is a red move from 0-based hole 4 |
| Factory.ExampleBlanks | code/src/models/MoveFactory.java:31-52 | " 16 tb " is TB from hole 15: surrounding blanks are trimmed, case is ignored, and inner blanks before the type are dropped |
| Factory.ExampleLeadingZeros | code/src/models/MoveFactory.java:39-42 | "007TR" is TR from hole 6 |
| Factory.BlankEndsNumber | code/src/models/MoveFactory.java:39-57 | for any digits, whitespace character and rest: the number is the digits before the blank and the type is the rest without whitespace; when the rest starts with a digit the text is refused |
| Factory.DigitTokenNoType | code/src/models/MoveFactory.java:52-78 | a type token starting with a digit still starts with it after whitespace removal and names no move type |
| Factory.ExampleSplitNumber | code/src/models/MoveFactory.java:39-57 | "1 6R" is refused: blanks end the number and the type "6R" is unknown |
| Factory.ExampleZero | code/src/models/MoveFactory.java:44-48 | "0B" is refused: hole numbers start at 1 |
| Factory.ExampleTooLarge | code/src/models/MoveFactory.java:44-48 | "17B" is refused: there are 16 holes |
| Factory.ExampleNoNumber | code/src/models/MoveFactory.java:44-48 | "B" is refused: there is no number |
| Factory.ExampleNoType | code/src/models/MoveFactory.java:54-57 | "12" is refused: there is no type |
| Factory.ExampleUnknownType | code/src/models/MoveFactory.java:61-78 | "3X" is refused: X is no move type |
| Factory.ExampleBlank | code/src/models/MoveFactory.java:31-32 | a text of blanks is refused |
| Factory.TrimMapped | code/src/models/MoveFactory.java:31 | trimming commutes with any character mapping that keeps blanks as blanks, so trim and upper-case may be done in either order |
| Factory.UpperInsensitive | code/src/models/MoveFactory.java:31 | a text and its upper-cased form are read as the same move or both refused |
| Factory.LowerInsensitive | code/src/models/MoveFactory.java:31 | a text and its lower-cased form are read as the same move or both refused |
| Factory.Wrap32Congruent | code/src/models/MoveFactory.java:40 | 32-bit wrapping keeps the value modulo 2^32 and leaves values in the int range unchanged |
| Factory.WrappedStep | code/src/models/MoveFactory.java:40 | as written, each digit step is computed in 32-bit int arithmetic |
| Factory.WrappedAgrees | code/src/models/MoveFactory.java:39-42 | as long as the number fits in an int, the wrapping loop computes the true number |
| Factory.WrittenParse | code/src/models/MoveFactory.java:28-79 | the factory as written (wrapping hole number, then the range test, the empty-type test and the type switch) only ever yields a hole of the ring, and refuses the blank text |
| Factory.WrittenParseAgrees | code/src/models/MoveFactory.java:39-48 | when the text starts with at most nine digits the number cannot wrap, and the factory as written reads exactly what `Parse` reads |
| Factory.NumberBelow | code/src/models/MoveFactory.java:39-42 | n digits read a value below 10^n |
| Factory.WrappedNumberAcceptsOverflow | code/src/models/MoveFactory.java:39-48 | as written, "4294967297R" wraps to hole number 1 and `WrittenParse` yields a red move from 0-based hole 0, whereas `Parse` refuses it |
| Factory.MoveFactory.constructor | code/src/models/MoveFactory.java:18-26 | the factory holds the given board and players |
| Factory.MoveFactory.CreateMove | code/src/models/MoveFactory.java:28-79 | null exactly when the text denotes no move; otherwise a fresh command, for the parsed hole and type, on this board, for the given player against the player at index `1 - current.index` |
| Search.OrdinalDistinct | code/src/controllers/MinimaxPlayerController.java:356 | the four move types have four distinct history slots |
| Search.NotationRoundTrip | code/src/controllers/MinimaxPlayerController.java:63-71 | the notation of a move on the ring is read by the move factory as that same hole and type |
| Search.ToNotation | code/src/controllers/MinimaxPlayerController.java:63-71 | the 1-based hole number in decimal followed by the type letters; no contract of its own: NotationRoundTrip, NotationNormal and NotationInjective state its properties |
| Search.NotationNormal | code/src/controllers/MinimaxPlayerController.java:63-71 | the notation is already trimmed and upper-case |
| Search.NotationInjective | code/src/controllers/MinimaxPlayerController.java:63-71 | different moves have different notations |
| Search.HoleMovesLegal | code/src/controllers/MinimaxPlayerController.java:283-299 | one hole yields exactly the move types whose seeds it holds, at most four |
| Search.HoleMoves | code/src/controllers/MinimaxPlayerController.java:283-299 | the moves one hole yields in the order R, B, TR, TB; no contract of its own: HoleMovesLegal states which ones |
| Search.Generated | code/src/controllers/MinimaxPlayerController.java:274-300 | the moves emitted hole by hole before sorting; no contract of its own: EmittedLegal, EmittedAtMost32 and EmittedDistinct state its properties |
| Search.EmittedLegal | code/src/controllers/MinimaxPlayerController.java:278-300 | the generated moves are exactly the legal moves of the side |
| Search.EmittedAtMost32 | code/src/controllers/MinimaxPlayerController.java:278-300 | a side has at most 32 legal moves |
| Search.EmittedDistinct | code/src/controllers/MinimaxPlayerController.java:278-300 | no move is generated twice |
| Search.OutranksOrder | code/src/controllers/MinimaxPlayerController.java:303-307 | the move comparators form a total preorder: any two ranks compare, and the order is transitive |
| Search.SortBySpec | code/src/controllers/MinimaxPlayerController.java:303-307 | sorting yields a list ordered by the comparator that is a permutation of the input |
| Search.Insert | code/src/controllers/MinimaxPlayerController.java:303-307 | inserting a move into a list gives that list plus the move, as a multiset |
| Search.SortBy | code/src/controllers/MinimaxPlayerController.java:303-307 | sorting permutes the list (same multiset); SortBySpec adds that the result is ordered |
| Search.KillerFirst | code/src/controllers/MinimaxPlayerController.java:320-326 | when the killer move is among the moves, it comes first after ordering |
| Search.OrderRank | code/src/controllers/MinimaxPlayerController.java:313-340 | the comparator of orderMoves as a rank: killer first, then history score, then seeds in the hole; no contract of its own: KillerFirst, HistoryOrders and OutranksOrder state its properties |
| Search.TotalRank | code/src/controllers/MinimaxPlayerController.java:303-307 | the comparator of generateLegalMoves as a rank: seeds in the origin hole; no contract of its own: TotalRankSorted states its effect |
| Search.MinimaxPlayerController.KillerAt | code/src/controllers/MinimaxPlayerController.java:314-317 | the killer slot of the player at the depth, or none when the depth has no slot; no contract of its own: OrderMoves and StoreKillerAndHistory use it |
| Search.HistoryOrders | code/src/controllers/MinimaxPlayerController.java:328-339 | without a killer, a move precedes another only if it has a higher history score, or the same score and at least as many seeds in its hole |
| Search.Clamp | code/src/controllers/Evaluator.java:81-84 | the score is pulled into [0, 100], unchanged when already inside |
| Search.Leaf | code/src/controllers/Evaluator.java:81-84 | every static evaluation lies in [0, 100] |
| Search.MaxOf | code/src/controllers/MinimaxPlayerController.java:217-243 | the maximum over the moves bounds every move's value and is attained by one of them |
| Search.MinOf | code/src/controllers/MinimaxPlayerController.java:244-271 | the minimum over the moves bounds every move's value and is attained by one of them |
| Search.Value | code/src/controllers/MinimaxPlayerController.java:185-272 | the depth-limited minimax value of a position lies in [0, 100] |
| Search.FullWindowExact | code/src/controllers/MinimaxPlayerController.java:108-109 | searched with the window (-∞, +∞), a fail-soft result is the exact minimax value |
| Search.Clock.NanoTime | code/src/controllers/MinimaxPlayerController.java:363 | each clock reading is the next value of the clock's sequence of readings |
| Search.MinimaxPlayerController.constructor | code/src/controllers/MinimaxPlayerController.java:41-50 | the settings are stored, and there is one empty killer slot per player and depth up to `maxDepth`, and a zero history score per player, hole and type |
| Search.MinimaxPlayerController.ChooseMove | code/src/controllers/MinimaxPlayerController.java:75-171 | the deadline is one clock reading plus the limit, or 0 with no limit; no move exactly when the game is over or the side has no legal move; otherwise the move printed is the `pick`-th of a non-empty set of legal candidates; with no depth to search, the single candidate is the first ordered move; with no time limit, every legal move of the best root value at the chosen depth is a candidate |
| Search.MinimaxPlayerController.PickMove | code/src/controllers/MinimaxPlayerController.java:86-164 | the part of `chooseMove` after the deadline is set, with the same promises |
| Search.MinimaxPlayerController.SetDeadline | code/src/controllers/MinimaxPlayerController.java:80-84 | with a limit, the clock is read once and the deadline is that reading plus the limit in nanoseconds; without one, the deadline is 0 and the clock is not read |
| Search.MinimaxPlayerController.RootCandidates | code/src/controllers/MinimaxPlayerController.java:97-159 | the candidates are non-empty and legal; with no depth to search, only the first ordered move; with no time limit, the depth limit reached is `maxDepth` and the candidates are the best moves of the depth whose root value is largest, the deepest such depth |
| Search.MinimaxPlayerController.GenerateLegalMoves | code/src/controllers/MinimaxPlayerController.java:274-310 | exactly the legal moves of the player, at most 32, no duplicates, ordered by seeds in the origin hole, most first |
| Search.MinimaxPlayerController.EmitMoves | code/src/controllers/MinimaxPlayerController.java:278-300 | the moves in emission order, hole by hole, in the order R, B, TR, TB |
| Search.MinimaxPlayerController.HistoryOf | code/src/controllers/MinimaxPlayerController.java:329-330 | the player's row of history scores, one per hole and move type |
| Search.MinimaxPlayerController.OrderMoves | code/src/controllers/MinimaxPlayerController.java:313-340 | a permutation of the moves, sorted by killer first, then history score, then seeds in the hole; the killer, when present, comes first |
| Search.MinimaxPlayerController.StoreKillerAndHistory | code/src/controllers/MinimaxPlayerController.java:347-360 | the move becomes the killer of this player and depth when that slot exists; its history score grows by depth² + 1; no other entry changes, and no history score ever decreases |
| Search.MinimaxPlayerController.IsTimeUp | code/src/controllers/MinimaxPlayerController.java:362-364 | true exactly when a time limit and a deadline are set and the clock reading is past the deadline; the clock is read only in that case |
| Search.MinimaxPlayerController.ApplyMove | code/src/controllers/MinimaxPlayerController.java:366-398 | nothing exactly when the move is illegal; otherwise a fresh board and fresh players holding the played move's ring and tallies, with the other side to move; the given position is left unchanged |
| Search.MinimaxPlayerController.Evaluate | code/src/controllers/MinimaxPlayerController.java:196-204 | the static evaluation of the position for the root player |
| Search.MinimaxPlayerController.Minimax | code/src/controllers/MinimaxPlayerController.java:185-272 | the score lies in [0, 100]; with no time limit it is fail-soft against the exact minimax value: exact inside the window, a bound outside it |
| Search.MinimaxPlayerController.Expand | code/src/controllers/MinimaxPlayerController.java:207-212 | an inner node: the legal moves generated, the evaluation when there is none, and the same fail-soft promise |
| Search.MinimaxPlayerController.SearchMoves | code/src/controllers/MinimaxPlayerController.java:214-217 | the ordered moves searched by the maximising or minimising loop, with the fail-soft promise |
| Search.MinimaxPlayerController.SearchOrdered | code/src/controllers/MinimaxPlayerController.java:217-271 | picks the maximising loop at the root player's turns and the minimising loop otherwise, with the fail-soft promise |
| Search.MinimaxPlayerController.SearchChild | code/src/controllers/MinimaxPlayerController.java:219-229 | a child is searched exactly when its move is legal; its score is fail-soft against the child's value |
| Search.MinimaxPlayerController.SearchMax | code/src/controllers/MinimaxPlayerController.java:217-243 | the maximising loop with cut-off at beta returns a fail-soft bound of the maximum child value |
| Search.MinimaxPlayerController.MaxVisit | code/src/controllers/MinimaxPlayerController.java:219-241 | one maximising iteration keeps the loop invariant, or cuts off with a fail-soft result |
| Search.MinimaxPlayerController.SearchMin | code/src/controllers/MinimaxPlayerController.java:244-271 | the minimising loop with cut-off at alpha returns a fail-soft bound of the minimum child value |
| Search.MinimaxPlayerController.MinVisit | code/src/controllers/MinimaxPlayerController.java:246-268 | one minimising iteration keeps the loop invariant, or cuts off with a fail-soft result |
| Search.MinimaxPlayerController.SearchRoot | code/src/controllers/MinimaxPlayerController.java:111-141 | the root loop's ties are legal searched moves, empty exactly when no move was scored; with no time limit the best score is the root value, and every move of that value is a tie |
| Search.MinimaxPlayerController.RootVisit | code/src/controllers/MinimaxPlayerController.java:116-139 | one root iteration keeps the root loop invariant |
| Search.MinimaxPlayerController.SearchDepth | code/src/controllers/MinimaxPlayerController.java:103-141 | one depth of iterative deepening: legal ties; with no time limit, the root value at that depth and every move that attains it |
| Search.MinimaxPlayerController.Deepen | code/src/controllers/MinimaxPlayerController.java:102-152 | the deepening loop: with no time limit it reaches `maxDepth` and keeps the moves of the deepest depth whose root value is largest |
| Search.AddHoleMoves | code/src/controllers/MinimaxPlayerController.java:283-299 | appends exactly the moves the hole offers |
| Search.PerformFor | code/src/controllers/MinimaxPlayerController.java:379-394 | the command for the side to move runs against the other player: legal exactly when the move is, with the played ring and tallies |
| Search.Perform | code/src/controllers/MinimaxPlayerController.java:382-391 | the command for the move's type plays the move: legal exactly when `Legal`; the played outcome; the opponent's tally unchanged |
| Search.LoopSetup | code/src/controllers/MinimaxPlayerController.java:207-219 | the ordered moves are on the ring and contain every legal move, so the loops range over all children |
| Search.ValueAtMax | code/src/controllers/MinimaxPlayerController.java:217-243 | at the root player's turn the value is the maximum over the legal children |
| Search.ValueAtMin | code/src/controllers/MinimaxPlayerController.java:244-271 | at the opponent's turn the value is the minimum over the legal children |
| Search.NoMovesNoneEmitted | code/src/controllers/MinimaxPlayerController.java:208-212 | the ordered list is empty exactly when no legal move exists, and it holds every legal move |
| Search.ValueAtLeaf | code/src/controllers/MinimaxPlayerController.java:201-212 | at the depth limit, in a finished game or without legal moves, the value is the static evaluation |
| Search.MaxStep | code/src/controllers/MinimaxPlayerController.java:231-236 | scoring a child raises best and alpha to the maxima so far and keeps the invariant |
| Search.MaxCut | code/src/controllers/MinimaxPlayerController.java:237-241 | a cut-off at beta returns a valid fail-soft lower bound |
| Search.MaxDone | code/src/controllers/MinimaxPlayerController.java:243 | the completed maximising loop returns a fail-soft result |
| Search.MaxSkip | code/src/controllers/MinimaxPlayerController.java:220-221 | skipping an illegal move keeps the invariant |
| Search.MinStep | code/src/controllers/MinimaxPlayerController.java:258-263 | scoring a child lowers best and beta to the minima so far and keeps the invariant |
| Search.MinCut | code/src/controllers/MinimaxPlayerController.java:264-268 | a cut-off at alpha returns a valid fail-soft upper bound |
| Search.MinDone | code/src/controllers/MinimaxPlayerController.java:270 | the completed minimising loop returns a fail-soft result |
| Search.MinSkip | code/src/controllers/MinimaxPlayerController.java:247-248 | skipping an illegal move keeps the invariant |
| Search.NoLegalMoves | code/src/controllers/MinimaxPlayerController.java:91-94 | the generated list is empty exactly when the side has no legal move |
| Search.RootSkip | code/src/controllers/MinimaxPlayerController.java:116-119 | skipping an illegal root move keeps the root invariant |
| Search.RootStep | code/src/controllers/MinimaxPlayerController.java:129-139 | a better score replaces the ties, an equal score joins them, and alpha rises to the best so far |
| Search.RootDone | code/src/controllers/MinimaxPlayerController.java:111-141 | with no time limit the completed root loop finds the root value and keeps every move of that value |
| Search.LastBestStep | code/src/controllers/MinimaxPlayerController.java:144-147 | taking a depth whose score is at least the best so far keeps the deepest depth with the largest score |
| Search.DeepStep | code/src/controllers/MinimaxPlayerController.java:143-147 | replacing the overall best moves when a depth scores at least as well keeps the best-of-depths invariant |
| Search.ClonePlayers | code/src/controllers/MinimaxPlayerController.java:372-375 | fresh, pairwise distinct copies with the same indices and tallies |
| Search.LegalMovesProperties | code/src/controllers/MinimaxPlayerController.java:274-310 | the sorted legal moves: exactly the legal moves, at most 32, distinct, ordered by seeds in the origin hole |
| Search.TotalRankSorted | code/src/controllers/MinimaxPlayerController.java:303-307 | sorted by hole total, the moves come in non-increasing order of seeds in the origin hole |
| Search.LegalMoves | code/src/controllers/MinimaxPlayerController.java:274-310 | the generator's result is a permutation of the moves emitted hole by hole; LegalMovesProperties states the rest |

## Left out

- Console output is not modelled: the prints, the `silent` flags and the error messages of the commands and of the search.
- `Main`, `AITournament`, the human and external players, the referee and the phase evaluator are not part of this model.
- Evaluator.java's weighted material, famine and mobility formula is not modelled. The evaluator is the function parameter `Heuristic`, followed by the clamp into [0, 100] at code/src/controllers/Evaluator.java:81-84. Doubles and `Math.round` are left out.
- The search's ±∞ doubles are the integers -1 and 101. Every score lies in [0, 100], so this gives the same comparisons.
- `System.nanoTime` is a `Clock` whose readings are a given sequence.
- `Random.nextInt(bestMoves.size())` is the parameter `pick`, reduced modulo the number of candidates.
- `NormalSowStrategy`, used for red moves (code/src/models/RedMoveCommand.java:43), is not part of this model, and the `SowStrategy` interface (code/src/controllers/SowStrategy.java:9-18) names no pattern for it. The pattern `AnyHole` is an assumption: the walk of code/src/controllers/OpponentOnlySowStrategy.java:23-43 with the ownership test at lines 31-34 removed, so every following hole except the starting one receives a seed. Every property the model states about red moves and red sowing rests on this assumption.
- The `SowStrategy` interface and its implementations are one method `Sowing.Sow` with a pattern tag. The four command classes are one class `Moves.MoveCommand` with a move-type tag; `Execute` dispatches to one method per command.
- Java `int` overflow is not modelled in tallies, history scores, seed counts or the deadline arithmetic; these are unbounded integers. The move factory's digit loop is the exception (see Findings).
- `Sow`: requires a start hole on the ring. Java's `(idx + 1) % 16` also accepts any non-negative start (code/src/controllers/OpponentOnlySowStrategy.java:19-24); every caller passes a hole of the ring.
- `ExecuteRed`, `ExecuteBlue`, `ExecuteTransparentAsRed`, `ExecuteTransparentAsBlue` and `Execute`: require a hole index on the ring. For an index off the ring Java returns false when the parity test of `ownsHoleIndex` fails (code/src/models/Player.java:36-43) and otherwise throws `ArrayIndexOutOfBoundsException` from `getHole` (code/src/models/Board.java:25-27); the move factory and the search only build commands for holes of the ring.
- `MinimaxPlayerController.constructor`: requires `maxDepth + 1 >= 0`. For a smaller depth Java throws `NegativeArraySizeException` when it allocates the killer table (code/src/controllers/MinimaxPlayerController.java:48).
- `CreateMove`: a null input is not modelled, because strings are values.
- `CreateMove`: requires the opponent index `1 - current.index` to lie in the players array; Java throws there instead.
- `CreateMove`: only ASCII digits, whitespace and letters are treated. Java's `Character.isDigit`, `isWhitespace` and `toUpperCase` also accept Unicode characters outside ASCII.
- `ChooseMove`: with a time limit, the result is stated only as a legal candidate; the fail-soft guarantee is stated only without a time limit, because a search cut by the deadline returns an evaluation.
- `ChooseMove`: does not state that every candidate is a best move. A child searched with a raised alpha returns a fail-soft bound, and a bound equal to the best score also joins the ties. The contract states the converse: every best move is a candidate.
- `ChooseMove`: the contents of the killer and history tables after a search are not stated; only the update of a single cut-off is (`StoreKillerAndHistory`).
- `OrderMoves`: `List.sort` is modelled by a stable insertion sort. The contract states sortedness and permutation, not stability.
- `isSameMove` is Dafny's equality on `MoveOption`.
- The split of `chooseMove` and `minimax` into `SetDeadline`, `PickMove`, `RootCandidates`, `Expand`, `SearchMoves`, `SearchOrdered`, `SearchChild`, `MaxVisit`, `MinVisit`, `RootVisit`, `SearchDepth` and `Deepen` follows the blocks of the Java methods. It keeps each proof small and is not a structure of the source.
- Getters that only return a field (`getRed`, `getIndex`, `getName`, `getCaptured` and so on) are functions without a contract of their own.

## Findings

| source | as written | input that shows it | evidently intended | confidence | as-written member | corrected member |
|---|---|---|---|---|---|---|
| code/src/controllers/RuleController.java:63-72 | `winner` returns `Integer.compare(p1, p2)`: 1 when player 1 leads, 0 on a draw, -1 when player 2 leads | tallies 50 and 40 give 1, which the documented code reads as "player 2 wins" | the documented code: 0 when player 1 wins, 1 when player 2 wins, -1 on a draw | not executed | Rules.Winner | Rules.IntendedWinner |
| code/src/models/MoveFactory.java:39-42 | the hole number is accumulated in a 32-bit `int` with no bound, so long numerals wrap around | "4294967297R" wraps to 1, and `Factory.WrittenParse` yields a red move from hole 1 (0-based hole 0) | refuse any number outside 1 to 16, whatever its length | not executed | Factory.WrappedNumberAcceptsOverflow | Factory.MoveFactory.CreateMove |
