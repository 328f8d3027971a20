# godash rules engine and SGF reader, in Dafny

This project models two parts of the godash Go library and proves properties of them.

- **The board rules engine** of `src/board.js`, which also appears in the older single-file copy `src/new.js`. A board is a value: a size (`dimensions`) and a map from coordinates to `black`/`white`. An empty point is a missing key. The engine enumerates neighbours clipped to the board, flood-fills a group, and counts liberties. It decides move legality with the two-part suicide/capture rule. `addMove` validates a move, removes the captured groups and places the stone. The engine also places and removes stones ignoring the rules, computes the difference of two boards, detects simple ko (`followupKo`), replays a game (`constructBoard`) and draws a board as text (`toAsciiBoard`).
- **The SGF reader** of `src/sgf.js`, which also appears in `src/new.js`. It converts between SGF points and coordinates. `nextToken`/`tokenize` is the lexer. `compactMoves` folds the properties after each `;` into one node map. `sgfToJS` is the stack-based builder of nested variation arrays.

Files and modules:

- `wrappers.dfy` holds two modules. `Wrappers` defines `Option` and `Result`. `Exceptions` defines the values the JavaScript code throws: a bare string, an `Error`/`TypeError` object with a message, or the engine's `TypeError` for a method call on `undefined`/`null` (`NullReceiver`).
- `board.dfy` holds `GoBoard`: colours, points, coordinates and boards. It covers adjacency, `removeStone(s)`, `placeStone(s)`, `difference` and `toAsciiBoard`.
- `groups.dfy` holds `Groups`. The pure specification is `IsGroup`: the unique same-state set that contains the seed and is closed under in-board adjacency. `GroupOf` is a flood fill that computes it. The method `Group` is the source's `found`/`queue` while loop, proved to return `GroupOf`. The module also covers liberties.
- `rules.dfy` holds `Rules`: `isLegalMove`, `addMove`, `followupKo` and `constructBoard`.
- `sgf_lexer.dfy` holds `SgfLexer`: SGF points, `nextToken`, the pure `Lex` fold and the `Tokenize` loop. It also gives the escaping of property values and a renderer whose output lexes back to the tokens.
- `sgf_parser.dfy` holds `SgfParser`. `compactMoves` is a fold `Compact` plus the loop `CompactMoves`. `sgfToJS` is a fold `Assemble` plus the loop `NestVariations`. The module also has the full pipeline `Parse`/`SgfToJS`, and renderers of items and trees that the folds read back.

The two SGF copies differ in what they throw, and in one call. `src/sgf.js` throws `Error` objects; `src/new.js` throws bare strings with the same messages. Each SGF member therefore takes a `Copy` parameter (`SgfJs` or `NewJs`). Lemmas prove that the tokenizer and the builder of the two copies succeed on the same inputs with the same results (`CopiesLexAlike`, `AssembleFromCopies`, `CopiesParseAlike`). The call that differs is in `sgfPointToCoordinate`: `src/new.js` builds its result with `new Coordinate`, while `src/sgf.js:55` calls the class `Coordinate` without `new`, so that copy throws a `TypeError` on every two-character string (see "## Findings"). The board functions of `src/new.js` are token-for-token the same expressions as those of `src/board.js`, except for `constructBoard`'s argument checks, which the model leaves out. They are modelled once, and the table cites both copies.

Four behaviours of the code that a reader of the rules might not expect:

- **Off-board points next to the edge.** `addMove` checks neither bounds nor occupancy before the legality rule, and a point such as `(-1, 0)` has the in-range neighbour `(0, 0)`. On an empty board the stone written there has a liberty, so `addMove` places it (`Rules.OffBoardEdgeMoveIsPlaced`). Points two or more steps off the board have no in-range neighbours and are illegal (`Rules.FarOffBoardIsIllegal`).
- **`followupKo`.** The code does not compare the recaptured position with the original board. It checks only that the recapture removes exactly one stone, and that this stone is the one just played. `Rules.FollowupKoIsSimpleKo` proves this test equivalent to whole-board restoration.
- **Trailing whitespace.** `.trim()` after a key trims the end of the whole remaining input, so whitespace after the last `)` is absorbed once any property has been read (`SgfLexer.TrailingWhitespaceAbsorbed`). Only input with no property before the trailing whitespace reaches `nextToken('')` and fails (`SgfLexer.TrailingWhitespaceFails`).
- **One value per key.** `nextToken` reads a single `[value]` after a key; a second block starts a token with `[`, which fails the key check (`SgfLexer.SecondValueFails`).

## Model

| member | source | states |
|---|---|---|
| GoBoard.Opposite | src/board.js:338-346 | `oppositeColor` maps a colour to a different colour |
| GoBoard.OppositeColor | src/board.js:338-346 | `oppositeColor` keeps `EMPTY` empty and maps a stone to a stone of a different colour |
| GoBoard.OppositeInvolutive | src/board.js:338-346 | applying `oppositeColor` twice gives back the colour |
| GoBoard.Adjacent | src/board.js:157-167 | the neighbours are exactly the orthogonal neighbours whose two components lie in `[0, dimensions)` |
| GoBoard.AdjacentCount | src/board.js:157-167 | the number of neighbours is the number of in-range sides: 4 inside, 3 on an edge, 2 in a corner |
| GoBoard.AdjacentCountCentreEdgeCorner | src/new.js:26-36 | on a board of size at least 3, an interior point has 4 neighbours, a point on exactly one of the four edges 3, and a corner 2 |
| GoBoard.AdjacentSymmetric | src/board.js:157-167 | adjacency between on-board points is symmetric |
| GoBoard.MatchingAdjacent | src/board.js:274-279 | `matchingAdjacentCoordinates(board, c, s)`: the neighbours of `c` (as `Adjacent` states them) that hold `s`; it has no contract of its own, and `Rules.CapturedIffLastLiberty` and the `Groups` lemmas state what follows from it |
| GoBoard.Neighbours | src/board.js:275 | the default colour of `matchingAdjacentCoordinates` is the state of `c` itself; no contract of its own, `Groups.NeighboursSymmetric` states that it is symmetric on the board |
| GoBoard.SetStone | src/board.js:575 | `board.setIn(['moves', c], col)`; no contract of its own, its effect is stated in the contracts of `Rules.AddMove` and `GoBoard.PlaceStone` (the point holds the colour, every other point and the size are kept) |
| GoBoard.RemoveStone | src/board.js:482-484 | `removeStone` empties exactly that point and keeps the size |
| GoBoard.RemoveAbsentIsNoOp | src/new.js:113-115 | removing an empty point returns the same board |
| GoBoard.RemoveStones | src/board.js:515-521 | `removeStones` empties exactly the given points and keeps every other entry and the size |
| GoBoard.RemoveStonesOneMore | src/new.js:117-124 | removing one more point is the same as removing it from the result |
| GoBoard.PlaceStone | src/board.js:607-615 | `placeStone` fails (with its message) iff `force` is false and the point holds the opposite colour; otherwise only that point changes, to the colour |
| GoBoard.PlaceStones | src/new.js:143-158 | `placeStones` fails iff `force` is false and some listed point holds the opposite colour; on success exactly the listed points hold the colour and every other entry and the size are kept |
| GoBoard.Difference | src/board.js:195-204 | `difference` fails iff the sizes differ; otherwise it holds exactly the (coordinate, colour) pairs of the first board that the second lacks |
| GoBoard.DifferenceEmptyIffContained | src/board.js:195-204 | the difference is empty iff every stone of the first board is on the second |
| GoBoard.DifferenceSelf | src/board.js:195-204 | a board has an empty difference with itself |
| GoBoard.SymbolInjective | src/board.js:677-689 | black, white and empty are drawn with three distinct characters |
| GoBoard.AsciiRowsAt | src/board.js:676-691 | in the picture, character `j` of row `i` is the symbol of `Coordinate(i, j)`, and each row ends in a newline |
| GoBoard.AsciiBoard | src/board.js:672-694 | `toAsciiBoard` as a value: the rows of the board one after the other; no contract of its own, `GoBoard.AsciiBoardAt` and `GoBoard.AsciiBoardDetermines` state where each point is drawn and that the picture determines the board |
| GoBoard.AsciiBoardAt | src/new.js:160-182 | the picture of every on-board point is its symbol |
| GoBoard.AsciiBoardDetermines | src/board.js:672-694 | two boards of one size with the same picture agree on every on-board point |
| GoBoard.ToAsciiBoard | src/board.js:672-694 | the nested loops produce the picture, row by row |
| Groups.Region | src/board.js:310-323 | the set the flood can reach is the seed plus the on-board points |
| Groups.GroupUnique | src/board.js:274-279 | at most one set is a group of a seed: the same-state set closed under adjacency |
| Groups.NeighboursSymmetric | src/board.js:274-279 | same-state adjacency between on-board points is symmetric |
| Groups.FloodIsGroup | src/board.js:310-323 | the flood started from the loop's invariant ends in the group of the seed |
| Groups.GroupOf | src/board.js:310-323 | `group` contains the seed, every member has the seed's state, no same-state on-board neighbour lies outside, and nothing besides the seed is off the board |
| Groups.GroupStep | src/board.js:314-320 | one loop iteration (take a queued point, add its unfound matching neighbours) keeps the loop invariant |
| Groups.GroupDone | src/board.js:313 | when the queue is empty, `found` is the group |
| Groups.Group | src/new.js:56-69 | the while loop over `found`/`queue` returns exactly the group |
| Groups.GroupOfMember | src/board.js:310-323 | every member of a group has that same group |
| Groups.SingletonGroup | src/board.js:310-323 | a point without same-state neighbours is a group by itself |
| Groups.Liberties | src/board.js:369-374 | `liberties` are exactly the empty on-board points touching some member of the group |
| Groups.LoneStoneLibertySet | src/board.js:369-374 | a point with no neighbour in its own state has exactly its empty adjacent points as liberties |
| Groups.LibertyCount | src/board.js:390-392 | `libertyCount` is the size of the liberty set, so a shared liberty counts once; no contract of its own, `Groups.LibertyOfMember` and `Groups.LoneStoneLiberties` state its values |
| Groups.LibertiesShared | src/new.js:81-90 | all members of a group have the same liberties, so shared liberties are counted once |
| Groups.LibertyOfMember | src/board.js:390-392 | an empty point next to a member is a liberty, so `libertyCount` is positive |
| Groups.LoneStoneLiberties | src/board.js:390-392 | a lone stone in the centre of a 3x3 board has 4 liberties |
| Rules.IsLegalMove | src/board.js:425-436 | the two-part rule: the stone written at `c` (before any capture) has a liberty, or some enemy neighbour's group has exactly one liberty; no contract of its own, `Rules.EmptyNeighbourMakesLegal`, `Rules.SuicideIsIllegal`, `Rules.FarOffBoardIsIllegal` and `Rules.OffBoardEdgeMoveIsPlaced` characterise it |
| Rules.EmptyNeighbourMakesLegal | src/board.js:425-436 | a move next to an empty on-board point is legal |
| Rules.SuicideIsIllegal | src/new.js:92-103 | a move whose every neighbour is an enemy stone with other than one liberty is illegal |
| Rules.FarOffBoardIsIllegal | src/board.js:157-167 | a point two or more steps off the board has no neighbours, so a move there is illegal |
| Rules.Captured | src/board.js:569-572 | the captured set holds only stones of the opposite colour |
| Rules.CapturedIffLastLiberty | src/board.js:569-572 | on a well-formed board and an empty on-board point, a stone is captured iff it is an enemy stone whose only liberty is the move |
| Rules.AddMove | src/board.js:561-576 | `addMove` fails with "Not a valid position" if illegal, else with "There is already a stone there" if occupied; on success it sets the point, empties exactly the captured groups and keeps every other entry and the size |
| Rules.AddMovePreservesWellFormed | src/new.js:126-141 | an on-board move keeps every stone on the board |
| Rules.AddMoveTwiceFails | src/board.js:561-568 | playing again on a point just played fails |
| Rules.OffBoardEdgeMoveIsPlaced | src/board.js:157-167 | a move at `(-1, 0)` on an empty board is legal and is placed off the board |
| Rules.AddMoveDifference | src/board.js:243-244 | the difference between the board before and after a move is exactly the captured stones with their colour |
| Rules.CapturedPairsSingleton | src/board.js:246-252 | the difference has one entry `(k, colour)` iff exactly `k` was captured and its colour is the opposite one |
| Rules.RetakeTest | src/board.js:257-268 | the recapture test can only answer the captured point |
| Rules.RetakeTestIff | src/board.js:257-268 | the recapture test answers the captured point iff the recapture is legal and removes exactly the stone just played |
| Rules.FollowupKo | src/board.js:238-272 | `followupKo` throws only when the move is legal but occupied (from `addMove`), with that message |
| Rules.RetakeRestores | src/board.js:263-266 | after a one-stone capture, the recapture removes exactly the stone just played iff it restores the original board |
| Rules.FollowupKoIsSimpleKo | src/board.js:238-272 | `followupKo` returns `k` iff the move is legal, captures exactly `k`, and retaking at `k` gives back the original board |
| Rules.MoveColor | src/board.js:752 | the i-th move has the start colour iff i is even |
| Rules.PlayAlternatingSnoc | src/board.js:738-756 | playing one more move applies `addMove` with the colour of its index to the previous result |
| Rules.ReplayPrefixIsAlternating | src/new.js:191-197 | the `reduce` over the first n moves is the alternating replay of those moves |
| Rules.ConstructBoardAlternates | src/new.js:184-198 | `constructBoard` plays the moves in order, the start colour on even indices and the opposite colour on odd ones, stopping at the first failure |
| Rules.CaptureBoardLiberty | src/board.js:173-183 | on the 3x3 atari board (black at (1,0), (0,1), (1,2); white at (1,1)) the white stone's only liberty is (2,1) |
| Rules.CaptureBoardCaptured | src/board.js:185-188 | on that board Black's move at (2,1) captures exactly the white stone at (1,1) |
| Rules.CaptureExample | src/board.js:533-556 | on that board `libertyCount((1,1))` is 1, and `addMove((2,1), BLACK)` leaves exactly the four black stones |
| Rules.KoWhiteLastLiberty | src/board.js:211-225 | on the 4x4 ko board the white stone at (1,1) has the single liberty (2,1) |
| Rules.KoTakeCaptures | src/board.js:211-229 | on the ko board Black's move at (2,1) captures exactly the white stone at (1,1) |
| Rules.KoTake | src/board.js:211-229 | Black's move at (2,1) on the ko board gives the board with (1,1) emptied and (2,1) black |
| Rules.KoBlackLastLiberty | src/board.js:257-261 | after that capture the black stone at (2,1) has the single liberty (1,1) |
| Rules.KoRetakeCaptures | src/board.js:257-266 | White's retake at (1,1) captures exactly the black stone at (2,1) |
| Rules.KoRetake | src/board.js:257-266 | White's retake at (1,1) gives back the ko board |
| Rules.KoExample | src/board.js:227-230 | `followupKo(koPosition, (2,1), BLACK)` is the point (1,1) |
| Rules.ConstructBoard | src/board.js:731-757 | `constructBoard` as a value: the `reduce` of `addMove` from the given or the default board; no contract of its own, `Rules.ConstructBoardAlternates` and `Rules.ConstructBoardDefault` characterise it |
| Rules.ConstructBoardDefault | src/board.js:731-734 | with no board given the replay starts from an empty 19x19 board, and no moves give that board |
| SgfLexer.Raise | src/sgf.js:201 | `src/sgf.js` throws an `Error` object and `src/new.js` a bare string, both carrying the message |
| SgfLexer.CoordinateToSgfPoint | src/sgf.js:34-38 | the point is two characters whose codes are `97 + x` and `97 + y`, modulo 2^16 |
| SgfLexer.PointToCoordinate | src/new.js:38-47 | the conversion as intended: it succeeds iff the argument is a string of length 2, giving the character codes minus 97; otherwise it throws a `TypeError` with its message |
| SgfLexer.SgfPointToCoordinate | src/sgf.js:53-62 | as each copy is written: only the `src/new.js` copy succeeds, on a string of length 2, with the intended coordinate; the `src/sgf.js` copy throws the class-call `TypeError` on a string of length 2, and both throw the length `TypeError` otherwise |
| SgfLexer.SgfJsPointThrows | src/sgf.js:55-58 | the `src/sgf.js` copy throws on `'aa'` and on every two-character string, where the `src/new.js` copy gives (0, 0) and succeeds |
| SgfLexer.SgfPointRoundTrip | src/new.js:38-47 | converting a coordinate to a point and back with the intended conversion gives the coordinate |
| SgfLexer.SgfPointRoundTripText | src/new.js:38-47 | converting a two-character point to a coordinate and back gives the point |
| SgfLexer.SgfPointExamples | src/new.js:38-47 | `'aa'` is (0,0), `'hi'` is (7,8) and back, and `'abc'` is refused |
| SgfLexer.SgfPointWrapsAround | src/sgf.js:35-37 | `fromCharCode` wraps: x = 65536 gives the same point as x = 0 |
| SgfLexer.TrimStart | src/sgf.js:180 | `trimStart` never lengthens the text; `SgfLexer.TrimStartSpec` states what it removes |
| SgfLexer.TrimStartSpec | src/sgf.js:180 | `trimStart` removes exactly the leading whitespace |
| SgfLexer.TrimEnd | src/sgf.js:205 | the trailing half of `trim` never lengthens the text; `SgfLexer.TrimEndSpec` states what it removes |
| SgfLexer.Trim | src/sgf.js:205 | `trim` is `trimStart` then the trailing half, and never lengthens the text |
| SgfLexer.TrimEndSpec | src/sgf.js:205 | the end of `trim` removes exactly the trailing whitespace |
| SgfLexer.LetterRun | src/sgf.js:204 | the length of the `keyPattern` match is at most the length of the text; `SgfLexer.LetterRunSpec` states that it is the longest letter prefix |
| SgfLexer.LetterRunSpec | src/sgf.js:190 | the key is the longest prefix of ASCII letters |
| SgfLexer.FindClose | src/sgf.js:191 | the value ends at the first `]` preceded by a character other than a backslash |
| SgfLexer.PairsToSentinel | src/sgf.js:214 | `replace(/\\\\/g, sentinel)`: each pair of backslashes, scanned left to right, becomes the sentinel; no contract of its own, `SgfLexer.MarkOnePair`, `SgfLexer.PairsToSentinelAppend` and `SgfLexer.PairsToSentinelNoPairs` state its effect |
| SgfLexer.ReplaceFirst | src/sgf.js:216 | a `replace` with a string pattern changes only the first occurrence found by `SgfLexer.IndexOf`; no contract of its own, `SgfLexer.FirstSentinelAfter` and `SgfLexer.UnescapeSecondPairKeepsSentinel` state its effect |
| SgfLexer.IndexOf | src/sgf.js:216 | the string pattern is found at its first occurrence |
| SgfLexer.DropBackslashes | src/sgf.js:215 | no backslash survives the global backslash removal |
| SgfLexer.Unescape | src/sgf.js:212-216 | the three `replace` calls of `nextToken` in order; no contract of its own, `SgfLexer.UnescapePlain`, `SgfLexer.UnescapeOnePair`, `SgfLexer.UnescapeSecondPairKeepsSentinel`, `SgfLexer.UnescapeBracket` and `SgfLexer.UnescapeEscape` characterise it |
| SgfLexer.UnescapePlain | src/sgf.js:213-216 | a value without backslashes or `@` is kept as it is |
| SgfLexer.UnescapeOnePair | src/sgf.js:214-216 | one escaped backslash becomes one backslash |
| SgfLexer.UnescapeSecondPairKeepsSentinel | src/sgf.js:216 | a second escaped backslash leaves the sentinel in the value, because the string `replace` is not global |
| SgfLexer.UnescapeSingleBackslashes | src/sgf.js:212-215 | in a value with no backslash pair and no `@`, unescaping only drops the single backslashes, so an escaped `]` loses its backslash |
| SgfLexer.UnescapeBracket | src/sgf.js:215 | an example: the escaped `\]` unescapes to `]` |
| SgfLexer.NextToken | src/sgf.js:189-223 | `(`, `)`, `;` are returned with the rest of the input; input not starting with one of them or a letter fails with "Invalid SGF"; a property's key is the letter prefix; the rest is shorter |
| SgfLexer.ReadProperty | src/sgf.js:199-221 | reading a property succeeds iff the input starts with a letter and the trimmed text after the letters starts with `[` and holds a `]` after a non-backslash character; it fails otherwise with "Invalid SGF"; on success it yields a property whose key is the letter prefix, and text after it that ends in no whitespace |
| SgfLexer.UnclosedValueFails | src/sgf.js:206-208 | `B[a\]`, whose only `]` is escaped, fails with "Invalid SGF" |
| SgfLexer.ReadPropertyAfterTrim | src/sgf.js:204-205 | reading a property depends only on the key and the trimmed text after it |
| SgfLexer.Lex | src/sgf.js:175-187 | tokenizing fails only with "Invalid SGF" |
| SgfLexer.Tokenize | src/sgf.js:175-187 | the loop that trims, reads a token and pushes it computes the fold `Lex` |
| SgfLexer.TrailingWhitespaceFails | src/sgf.js:179-180 | input that is only whitespace fails, because `nextToken` is called on the empty string |
| SgfLexer.LexStructural | src/sgf.js:179-183 | text starting with `(`, `)` or `;` lexes as that token followed by the lexing of the rest |
| SgfLexer.LexSameFirstToken | src/sgf.js:179-183 | texts with the same first token and the same remainder lex alike |
| SgfLexer.PropertyAbsorbsTrailingSpace | src/sgf.js:205 | `B[aa]) ` and `B[aa])` read the same property and leave `)` |
| SgfLexer.TrailingWhitespaceAbsorbed | src/sgf.js:179-183 | `(;B[aa]) ` lexes to the same four tokens as `(;B[aa])` |
| SgfLexer.SecondValueFails | src/sgf.js:200-202 | a second `[value]` after a key cannot be read |
| SgfLexer.NextTokenCopies | src/new.js:289-323 | the two copies of `nextToken` succeed on the same inputs with the same result |
| SgfLexer.CopiesLexAlike | src/new.js:275-287 | the two copies of `tokenize` succeed on the same inputs with the same tokens |
| SgfLexer.RenderToken | src/sgf.js:189-223 | a rendered token is non-empty and neither starts nor ends with whitespace |
| SgfLexer.Render | src/sgf.js:175-187 | a rendered token list is empty iff the list is, and has no surrounding whitespace |
| SgfLexer.EscapeNoAt | src/sgf.js:212-216 | escaping adds no `@`, so the sentinel cannot appear |
| SgfLexer.EscapeBackslashes | src/sgf.js:191 | after escaping, every backslash is followed by `]` |
| SgfLexer.EscapeDrop | src/sgf.js:215 | removing the backslashes of an escaped value gives the value back |
| SgfLexer.UnescapeEscape | src/sgf.js:212-216 | unescaping undoes escaping for values without backslashes or `@` |
| SgfLexer.FindCloseAfterEscape | src/sgf.js:191 | the closing bracket found after an escaped value is the one written after it |
| SgfLexer.ReadPropertyText | src/sgf.js:204-221 | a letter key followed by a bracketed value reads as the key, the unescaped text up to the closing bracket, and the input after it |
| SgfLexer.PropertyReadsBack | src/sgf.js:204-221 | a written property `K[escaped v]` is read back as `(K, v)` |
| SgfLexer.NextTokenRender | src/sgf.js:189-223 | `nextToken` on a rendered token returns the token and the rest |
| SgfLexer.LetterRunOfLetters | src/sgf.js:190 | the key of a letter run followed by a non-letter is that run |
| SgfLexer.LexRender | src/sgf.js:175-187 | tokenizing a rendered token list gives back the list |
| SgfLexer.TokenizeExample | src/sgf.test.js:56-89 | `(;B[aa])` tokenizes to `(`, `;`, `[B, aa]`, `)` |
| SgfParser.FromPairs | src/sgf.js:153 | lodash `fromPairs` as a map; no contract of its own, `SgfParser.FromPairsKeys` and `SgfParser.FromPairsLast` characterise it |
| SgfParser.FromPairsKeys | src/sgf.js:153 | the object built by `fromPairs` has exactly the keys of the pairs |
| SgfParser.FromPairsLast | src/sgf.js:153 | each key of `fromPairs` holds the value of its last pair, so later duplicates win |
| SgfParser.CompactFrom | src/sgf.js:147-170 | the `compactMoves` loop from a given `compacted`/`current` state, as a fold; no contract of its own, `SgfParser.CompactFromSucceedsIff`, `SgfParser.CompactProperties` and `SgfParser.CompactFromWritten` characterise it |
| SgfParser.Compact | src/sgf.js:143-173 | `compactMoves` as a fold from the empty state; no contract of its own, `SgfParser.CompactSucceedsIff` and `SgfParser.CompactWritten` characterise it, and `SgfParser.CompactMoves` is proved equal to it |
| SgfParser.CompactMoves | src/sgf.js:143-173 | the loop that pushes to `compacted` and resets `current` computes the fold `Compact` |
| SgfParser.CompactSucceedsIff | src/sgf.js:166-168 | compacting succeeds iff every property comes after a `;` with only properties in between; otherwise it throws the null-receiver `TypeError` |
| SgfParser.CompactFromSucceedsIff | src/sgf.js:147-170 | the same, from any intermediate state of the loop |
| SgfParser.DropTrailingNode | src/sgf.js:147-172 | dropping a trailing node removes only a last node entry |
| SgfParser.CompactProperties | src/sgf.js:166-168 | properties after `;` are appended to the current node in order |
| SgfParser.CompactFromWritten | src/sgf.js:147-172 | from any state, a written sequence of `(`, `)` and nodes compacts to those items, less a final node |
| SgfParser.CompactWritten | src/new.js:243-273 | `(`/`)` pass through in order, `;` and its properties become one map emitted before the next `(`, `)` or `;`, and a final node is never emitted |
| SgfParser.Attach | src/sgf.js:119-125 | a variation is appended to the parent's trailing branch array, which is created if the last element is not an array |
| SgfParser.Advance | src/sgf.js:106-133 | one turn of the `sgfToJS` loop on the stack and `mainLine`; no contract of its own, `SgfParser.AssembleOpenStep`, `SgfParser.AssembleNodeStep` and `SgfParser.AssembleCloseStep` state each case |
| SgfParser.AssembleFrom | src/sgf.js:105-140 | the `sgfToJS` loop from a given stack, then the final check and result; no contract of its own, `SgfParser.AssembleFromOutcome`, `SgfParser.AssembleFromNull` and `SgfParser.AssembleLine` characterise it |
| SgfParser.Assemble | src/sgf.js:101-140 | the builder from an empty stack; no contract of its own, `SgfParser.AssembleOutcome`, `SgfParser.AssembleNull` and `SgfParser.AssembleRoundTrip` characterise it, and `SgfParser.NestVariations` is proved equal to it |
| SgfParser.AssembleOutcome | src/sgf.js:127-138 | the builder fails iff a node arrives with no open variation (null-receiver `TypeError`) or some `(` stays unclosed ("broken thing with too few ENDs"); an extra `)` is ignored |
| SgfParser.AssembleFromOutcome | src/sgf.js:105-138 | the same, from any intermediate stack |
| SgfParser.AssembleNull | src/sgf.js:101-140 | on success the result is `null` iff the items contain no `(` |
| SgfParser.AssembleFromNull | src/sgf.js:113-115 | the main line is the first variation opened |
| SgfParser.AssembleFromCopies | src/new.js:200-241 | the two copies of the builder succeed on the same items with the same tree |
| SgfParser.AssembleOpenStep | src/sgf.js:110-117 | `(` pushes a new variation and records the first one as the main line |
| SgfParser.AssembleNodeStep | src/sgf.js:130-132 | a node is appended to the innermost open variation |
| SgfParser.AssembleCloseStep | src/sgf.js:127-129 | `)` closes the innermost variation, which then sits in its parent's branch array |
| SgfParser.AssembleLine | src/sgf.js:105-134 | building a written variation line appends exactly that line to the open variation |
| SgfParser.AssembleVariations | src/sgf.js:119-125 | building written sibling variations appends them to the trailing branch array |
| SgfParser.AssembleRoundTrip | src/sgf.js:100-141 | a canonical tree written as `(`, its items and `)` is built back into that tree |
| SgfParser.NestVariations | src/sgf.js:100-141 | the loop over `variationStack` and `mainLine` computes the fold `Assemble` |
| SgfParser.Parse | src/sgf.js:100-103 | `sgfToJS` as a value: tokenize, compact, build, the first error propagating; no contract of its own, `SgfParser.CopiesParseAlike`, `SgfParser.NotSgfFails` and `SgfParser.UnclosedVariationFails` characterise it, and `SgfParser.SgfToJS` is proved equal to it |
| SgfParser.SgfToJS | src/sgf.js:100-103 | `sgfToJS` is `tokenize`, then `compactMoves`, then the builder |
| SgfParser.CopiesParseAlike | src/new.js:200-203 | the two copies of `sgfToJS` succeed on the same text with the same tree |
| SgfParser.KeyWithoutValueFails | src/sgf.js:204-210 | a key not followed (after trimming) by `[` fails |
| SgfParser.NotSgfFails | src/sgf.test.js:189-194 | `ZOMG BROKEN` fails with "Invalid SGF" |
| SgfParser.NotSgfLexFails | src/sgf.js:200-210 | `ZOMG BROKEN` fails already in the lexer |
| SgfParser.UnclosedVariationFails | src/sgf.js:136-138 | `(;B[aa]` fails with "broken thing with too few ENDs" |
| SgfParser.UnclosedVariationItems | src/sgf.js:147-172 | the node of `(;B[aa]` is never flushed, so only `(` remains |
| SgfParser.SiblingVariationsExample | src/sgf.test.js:145-173 | the items of `(;B[aa](;W[bb])(;W[cc]))` build the main line `[{B: aa}, [[{W: bb}], [{W: cc}]]]` |

## Left out

- Immutable.js and lodash are modelled by their results only. `Map`, `Set`, `Record`, `reduce`, `inRange`, `trim`, `fromPairs` and `isArray` become Dafny maps, sets, sequences and functions; hashing and structural sharing are not modelled.
- `Groups.Group`: `queue.first()` takes an element in Immutable's iteration order. The model takes any queued element, so it proves the result for every order.
- `constructBoard`'s argument checks (`constructor.name`, `hasIn`, `src/board.js:740-748`) are JavaScript reflection. The model takes a sequence of coordinates, so the "You must pass coordinates" error is not modelled.
- `handicapBoard` (`src/board.js:781-839`) is a table of fixed positions per board size and is not part of this model.
- `isLegalBlackMove` and `isLegalWhiteMove` are partial applications of `isLegalMove` and are not modelled separately.
- The engine's `TypeError` message for a call on `undefined`/`null` depends on the JavaScript engine. It is the single value `NullReceiver`.
- `SgfLexer.SgfPointToCoordinate`: the message of the `TypeError` thrown when `src/sgf.js:55` calls the class without `new` is the one Babel's compiled classes use (`CLASS_CALL`); an engine running the class natively throws a `TypeError` with its own wording.
- Strings are sequences of Dafny characters, which are Unicode scalar values. JavaScript strings are UTF-16 code units. `SgfLexer.CoordinateToSgfPoint` therefore requires both codes to be scalar values (no lone surrogate), and the lexer is modelled on scalar values only.
- `SgfLexer.Lex` and `SgfLexer.NextToken` assume the input is a string. The source's behaviour on non-string input is not modelled.
- `fromPairs` builds a JavaScript object. Keys such as `__proto__` and the ordering of object keys are not modelled; a node is a map from keys to values.
- `SgfParser.NestVariations` and `SgfParser.SgfToJS` work on values, not on aliased arrays. The source attaches a new variation to its parent when it is opened and then fills it through the shared reference. The model attaches it when it is closed. The parent cannot change while the child is open, so the resulting tree is the same, but sharing is not represented.
- The full test game record of `src/sgf.test.js` and the text-level form of the sibling-variation example are not restated; `SgfParser.SiblingVariationsExample` states that example from its compacted items.
- `src/analysis.js`, `src/transforms.js`, `src/position.js`, `src/sequence.js`, `src/utils.js`, the wiring files (`index.js`, `src/index.js`, `src/wrapper.js`) and the type declarations are not part of this model.

## Findings

| source | as written | input that shows it | evidently intended | confidence | as-written member | corrected member |
|---|---|---|---|---|---|---|
| src/sgf.js:55 | `return Coordinate(...)` calls the class `Coordinate` (src/board.js:130) without `new`, which a class refuses with a `TypeError` | `sgfPointToCoordinate('aa')` throws instead of returning (0, 0) | `new Coordinate(...)`, as src/new.js:40 writes it and the documentation example `sgfPointToCoordinate('hi')` shows | high, not executed | SgfLexer.SgfJsPointThrows | SgfLexer.SgfPointRoundTrip |
