# shuttlings-cch24 core, modelled in Dafny

This project models the core logic of the `shuttlings-cch24` web service.
That service is a set of small HTTP endpoints, written in Rust. The model
covers these parts:

- **Milk bucket** (`bucket_unit.dfy`, `milk.dfy`, `milk_handler.dfy`).
  - A bucket of milk with a fixed capacity (`full`) and a level (`filled`).
  - The bucket is filled by refill ticks and emptied by all-or-nothing withdrawals.
  - The unit conversions between US liters and gallons, and between UK litres and pints.
  - The handler's empty check (HTTP 429 with `No milk available\n`) and its one-liter withdrawal.
- **UUID shortener** (`shorten.dfy`).
  - A token keeps the top 88 bits of a 128-bit UUID.
  - It is written as 16 base-62 alphanumeric characters, and as 22 lower-case hex characters (the first 11 bytes).
  - The alphanumeric text is parsed back, and parsing reports its errors.
- **Connect-Four** (`connect4_model.dfy`, `connect4_game.dfy`).
  - The board is a grid of 4-tile columns, and tiles are drawn as emoji.
  - A board's status (`Playing`, `NoWinner` or `Wins(team)`) folds the statuses of its ten lines.
  - The game piles a tile onto the lowest empty slot of a column until the status is no longer `Playing`.
- **Cookie codec** (`cookie_manager.dfy`).
  - The `Secure`/`SameSite` attribute combinator and the builder of a cookie manager.
  - The `Set-Cookie` header value, in the syntax of section 4.1.1 of RFC 6265 plus `SameSite=None` from the RFC 6265bis draft.
  - The lookup of a cookie in the `;`-separated pairs of a `Cookie` header (section 4.2.1 of RFC 6265).
- **Manifest orders** (`manifest.dfy`).
  - The `{item, quantity}` orders taken from the `orders` array of a TOML value.
  - Their `item: quantity` text, the keyword check on a Cargo manifest, and the handler state's builder.
- **IPv4 destination** (`handlers.dfy`): the destination address is the source plus the key, octet by octet, modulo 256.

`numeric.dfy` holds two shared parts. The first is decimal text of integers
(Rust's `Display` for `u32`/`i64`) with its read-back. The second is fixed-base
digit sequences, with the division facts they need. `wrappers.dfy` holds
`Option` and `Result`.

Flavour follows the source:

- **State changed in place becomes classes and methods.**
  - The bucket's level is a `var` of `Milk.MilkBucket`.
  - The game's grid is a `var` of `Connect4Game.Game`.
  - `status` runs its nested loops over local 4-element arrays and is proved equal to the pure `StatusOf`.
  - The shortener's `encode` writes a caller's 16-byte buffer in a loop and is proved equal to the pure `AlphanumericBytes`.
- **Pure code becomes datatypes and functions.** This covers unit conversions, the board model, the cookie codec, manifest extraction and IPv4 arithmetic.
- **State machines and folds become recursive functions with lemmas.** The lemmas characterise each fold: the first winning line decides, `find_map` finds the first match, and `filter_map` keeps exactly the entries that are orders, in order.

Notable behaviour of the code, as written and as modelled:

- **`StatusOf` can say `NoWinner` while tiles are empty.**
  - `accept_tile` turns `(NotFilled, filled tile)` into `Mixed`, so a line counts as `NotFilled` only when its last tile is empty.
  - Lines are read top to bottom and left to right.
  - As a result, once the bottom row and the rightmost column are full with no four alike, `pile` refuses every move.
  - `Connect4Game.NoWinnerWithEmptyTiles` proves this on a board with nine empty tiles.
- **Encoding then parsing a shortener token drops the low 40 bits** (`Shorten.EncodeParseRoundTrip`). Parsing then encoding gives the text back whenever its value fits in 88 bits (`Shorten.ParseEncodeRoundTrip`).
- **Characters U+0080 to U+00FF give `NonAlphanumeric`, not `NonAscii`.** `u8::try_from(char)` accepts every code point up to 255.
- **Build and withdraw check less than they might.** The bucket's `build` does not check `initial <= full`, and `withdraw_by` does not reject a negative request. The model keeps both as the code has them.

## Model

| member | source | states |
|---|---|---|
| BucketUnit.LitersToGallons | src/bucket/unit.rs:17-22 | the gallons returned, times 3.785411784, are the liters given |
| BucketUnit.GallonsToLiters | src/bucket/unit.rs:30-35 | the liters returned, divided by 3.785411784, are the gallons given |
| BucketUnit.LitresToPints | src/bucket/unit.rs:56-61 | the pints returned, times 0.56826125, are the litres given |
| BucketUnit.PintsToLitres | src/bucket/unit.rs:69-74 | the litres returned, divided by 0.56826125, are the pints given |
| BucketUnit.GallonsRoundTrip | src/bucket/unit.rs:17-35 | liters to gallons and back, and gallons to liters and back, are the identity (exact arithmetic) |
| BucketUnit.PintsRoundTrip | src/bucket/unit.rs:56-74 | litres to pints and back, and pints to litres and back, are the identity (exact arithmetic) |
| BucketUnit.OneGallon | src/bucket/unit.rs:7 | 3.785411784 liters are exactly one gallon |
| Milk.PerSec | src/bucket/milk.rs:151-158 | the rate carries the amount and a duration of one second |
| Milk.FilledLevel | src/bucket/milk.rs:91-100 | the level after a fill never exceeds capacity; it is level + amount when that fits and capacity otherwise |
| Milk.Withdrawal | src/bucket/milk.rs:108-118 | when level − request ≥ 0 the level drops by exactly the request, stays ≥ 0 and the pack carries the request; otherwise the level is unchanged and the pack carries 0 |
| Milk.FillNeverLowers | src/bucket/milk.rs:98 | a non-negative fill never lowers a level at or below capacity and leaves it at or below capacity |
| Milk.RefilledLevel | src/bucket/milk.rs:142-145 | after at least one refill tick the level is at most the capacity, whatever the start and the amount |
| Milk.RefilledClosedForm | src/bucket/milk.rs:138-148 | after k ≥ 1 ticks of a non-negative amount the level is min(start + k·amount, capacity), whatever the start |
| Milk.RefillMonotone | src/bucket/milk.rs:142-145 | refill ticks keep a level within [start, capacity] and never lower it from one tick to the next |
| Milk.RacingWithdrawals | src/bucket/milk.rs:107-118 | two withdrawals of the whole level, applied in turn: the first gets it all, the second gets nothing, the bucket ends empty |
| Milk.MilkBucket.Build | src/bucket/milk.rs:63-72 | capacity and level are exactly the given values, with no check between them |
| Milk.MilkBucket.Available | src/bucket/milk.rs:79-81 | reads the current level without changing it |
| Milk.MilkBucket.IsEmpty | src/bucket/milk.rs:83-85 | empty exactly when no positive request is served |
| Milk.MilkBucket.IsFull | src/bucket/milk.rs:87-89 | full exactly when every non-negative refill leaves the level at capacity |
| Milk.MilkBucket.FillBy | src/bucket/milk.rs:91-100 | the new level is `FilledLevel` of the old one, hence at most capacity |
| Milk.MilkBucket.Fulfill | src/bucket/milk.rs:102-105 | the level becomes exactly the capacity |
| Milk.MilkBucket.WithdrawBy | src/bucket/milk.rs:107-118 | new level and returned pack are `Withdrawal` of the old level and the request |
| Milk.MilkBucket.RefillTicks | src/bucket/milk.rs:138-148 | after n ticks the level is n fills of the rate's amount applied to the old level |
| MilkHandler.FromLiters | src/handlers/milk.rs:93-97 | the unit is `Liters` with the same number |
| MilkHandler.FromGallons | src/handlers/milk.rs:99-103 | the unit is `Gallons` with the same number |
| MilkHandler.FromLitres | src/handlers/milk.rs:105-109 | the unit is `Litres` with the same number |
| MilkHandler.FromPints | src/handlers/milk.rs:111-115 | the unit is `Pints` with the same number |
| MilkHandler.Convert | src/handlers/milk.rs:117-126 | liters↔gallons and litres↔pints, each direction an iff; never crosses US/UK; the numbers are related by the unit's factor |
| MilkHandler.ConvertTwice | src/handlers/milk.rs:117-126 | converting twice gives back the original unit and number |
| MilkHandler.State.Build | src/handlers/milk.rs:44-50 | a fresh bucket with exactly the given capacity and initial level |
| MilkHandler.CheckBucket | src/handlers/milk.rs:64-75 | continues iff the level is > 0; otherwise breaks with 429, `plain/text`, `No milk available\n`; the bucket is not changed |
| MilkHandler.Withdraw | src/handlers/milk.rs:77-79 | the level is what a withdrawal of exactly 1.0 leaves (unchanged below 1.0) |
| Shorten.SixteenDigitsHoldEightyEightBits | src/quotes/shorten.rs:91-97 | 2^88 < 62^16: sixteen base-62 digits hold the 88 kept bits |
| Shorten.TryCodepointToDigit | src/quotes/shorten.rs:75-85 | Ok iff the byte is `0-9a-zA-Z`, with the digit in 0-9, 10-35 or 36-61 by range; otherwise `NonAlphanumeric` |
| Shorten.DigitToCodepoint | src/quotes/shorten.rs:65-73 | a digit below 62 becomes an alphanumeric byte that decodes back to the same digit |
| Shorten.CodepointDigitRoundTrip | src/quotes/shorten.rs:65-85 | decoding then encoding an alphanumeric byte gives the byte back |
| Shorten.EncodedDigits | src/quotes/shorten.rs:91-97 | the top 88 bits as exactly 16 base-62 digits, each below 62 |
| Shorten.AlphanumericBytes | src/quotes/shorten.rs:91-97 | 16 alphanumeric bytes, byte i decoding to the i-th encoded digit |
| Shorten.AlphanumericText | src/quotes/shorten.rs:91-99 | 16 alphanumeric characters, character i standing for the i-th encoded digit |
| Shorten.EncodeBuffer | src/quotes/shorten.rs:87-89 | a fresh 16-byte buffer of `'0'` |
| Shorten.WriteBase62 | src/quotes/shorten.rs:92-97 | after the loop, buffer position k holds the codepoint of the k-th of the 16 base-62 digits of the start value, least significant at index 15 |
| Shorten.Encode | src/quotes/shorten.rs:91-99 | the buffer becomes the 16 codepoints of the token's base-62 digits, most significant first, and the returned text is that buffer |
| Shorten.AlphanumericDisplay | src/quotes/shorten.rs:102-108 | writes the token's alphanumeric text |
| Shorten.CharToU8 | src/quotes/shorten.rs:45 | Ok iff the code point is below 256, and then it is the same character; `NonAscii` otherwise |
| Shorten.ParseFold | src/quotes/shorten.rs:44-50 | Ok only for all-alphanumeric text, and then the count is the length; the errors are `NonAscii` or `NonAlphanumeric` |
| Shorten.ParseAlphanumeric | src/quotes/shorten.rs:43-56 | Ok only for 16 alphanumeric characters; `UnexpectedLength` only for alphanumeric text of another length |
| Shorten.ParseFoldAlphanumeric | src/quotes/shorten.rs:43-50 | on all-alphanumeric text the fold yields the base-62 value of its digits and its length |
| Shorten.ParseFoldFirstBad | src/quotes/shorten.rs:44-46 | the first non-alphanumeric character decides the error: `NonAscii` above U+00FF, `NonAlphanumeric` otherwise |
| Shorten.ParseAlphanumericFirstBad | src/quotes/shorten.rs:43-53 | the first non-alphanumeric character gives the whole parse its error, `NonAscii` above U+00FF and `NonAlphanumeric` otherwise, whatever the length |
| Shorten.ParseAlphanumericOk | src/quotes/shorten.rs:43-56 | alphanumeric text of length 16 parses to its value shifted left 40 bits (mod 2^128); any other length gives `UnexpectedLength` |
| Shorten.AlphanumericTextDigits | src/quotes/shorten.rs:91-97 | the encoded text is alphanumeric and reads back as the token's 16 digits |
| Shorten.EncodeParseRoundTrip | src/quotes/shorten.rs:43-99 | parsing a token's alphanumeric text gives the token with its low 40 bits cleared |
| Shorten.ShiftRoundTrip | src/quotes/shorten.rs:54 | a value below 2^88 shifted left 40 bits stays below 2^128 and shifts back to itself |
| Shorten.TextOfDigits | src/quotes/shorten.rs:91-99 | a token whose 16 encoded digits are the digits of an alphanumeric text encodes to exactly that text |
| Shorten.ParseEncodeRoundTrip | src/quotes/shorten.rs:43-99 | a 16-character alphanumeric text of value below 2^88 parses, and its token encodes back to the same text |
| Shorten.AsBytes | src/quotes/shorten.rs:35-37 | 16 bytes whose big-endian base-256 value is the id |
| Shorten.WordToCodepoint | src/quotes/shorten.rs:114-121 | a nibble becomes a lower-case hex digit of that value |
| Shorten.DigitToCodepoints | src/quotes/shorten.rs:124-128 | a byte becomes two lower-case hex digits, upper nibble first, whose values give the byte back |
| Shorten.HexBytes | src/quotes/shorten.rs:131-141 | the hex form has exactly 22 characters |
| Shorten.HexIsLower | src/quotes/shorten.rs:115-141 | every byte of the hex form is a lower-case hex digit |
| Shorten.HexRoundTrip | src/quotes/shorten.rs:124-141 | the hex form is lower-case hex and decodes to the first 11 bytes of the id |
| Shorten.WriteHexPairs | src/quotes/shorten.rs:137-141 | after the loop, positions 2j and 2j+1 of the buffer hold the upper and lower nibble of byte j |
| Shorten.HexFromPairs | src/quotes/shorten.rs:131-141 | a buffer holding the nibble pair of each of the first 11 bytes at 2j and 2j+1 is the hex form |
| Shorten.HexDisplay | src/quotes/shorten.rs:131-144 | the loop's buffer, as text, is the token's hex form |
| Connect4Model.DefaultColumn | src/connect4/model.rs:104-127 | the default column is four `Empty` tiles |
| Connect4Model.NewtypeRoundTrip | src/connect4/model.rs:13-41 | `new`/`into_inner` of `Column` and `Grid` are inverse both ways |
| Wrappers.Somes | src/connect4/model.rs:166-176 | `flat_map` over options yields at most as many items as it reads |
| Wrappers.SomesPrefix | src/connect4/model.rs:166-176 | `Some`s followed by `None`s flatten to exactly the `Some` values, in order |
| Connect4Model.TileAt | src/connect4/model.rs:143-145 | Some iff the column exists and the row index is below 4, and then it is that tile |
| Connect4Model.RowAt | src/connect4/model.rs:158-164 | Some iff the row index is at most 3, and then it is the row at that index |
| Connect4Model.Rows | src/connect4/model.rs:166-168 | exactly rows 0 to 3, in order |
| Connect4Model.ColAt | src/connect4/model.rs:170-172 | Some iff the column exists, and then it is that column |
| Connect4Model.Cols | src/connect4/model.rs:174-176 | the first min(4, length) columns, in order |
| Connect4Model.TileText | src/connect4/model.rs:113-121 | each tile is drawn as one character |
| Connect4Model.TileTextRoundTrip | src/connect4/model.rs:113-121 | the three drawings are distinct and read back as their tile |
| Connect4Model.RowText | src/connect4/model.rs:148-155 | four characters, character i being the drawing of tile i of the row |
| Connect4Model.RowTextRoundTrip | src/connect4/model.rs:148-155 | character i of a drawn row reads back as column i's tile at that row |
| Connect4Game.TeamTile | src/connect4/game.rs:15-22 | a team's tile is never `Empty`, and is `Cookie` iff the team is `Cookie` |
| Connect4Game.AcceptTile | src/connect4/game.rs:62-69 | `NotFilled` iff the tile is empty; `OnlyCookie`/`OnlyMilk` iff the tile is that team's and the line so far was `Initial` or the same; never `Initial` |
| Connect4Game.LineOf | src/connect4/game.rs:112-125 | the status of a line read tile by tile from `Initial`: `Initial` iff no tile was read, `NotFilled` iff the last tile is empty |
| Connect4Game.LineOfMeaning | src/connect4/game.rs:61-70 | a line is `Initial` iff empty, `OnlyCookie`/`OnlyMilk` iff non-empty and all that team's, `NotFilled` iff its last tile is empty |
| Connect4Game.FirstWinDecides | src/connect4/game.rs:40-48 | the first `OnlyCookie`/`OnlyMilk` line decides the winner whatever follows |
| Connect4Game.CollectStep | src/connect4/game.rs:41-46 | a winner sticks; otherwise a winning line decides the winner; otherwise there is no winner, and the result is `Playing` iff the status so far was `Playing` or the line is `NotFilled` |
| Connect4Game.CollectLines | src/connect4/game.rs:40-48 | the fold declares a winner iff some line is a win |
| Connect4Game.NoWinYet | src/connect4/game.rs:40-48 | with no winning line there is no winner, and the result is `Playing` iff some line is `NotFilled` |
| Connect4Game.CollectLinesMeaning | src/connect4/game.rs:40-48 | first winning line decides; otherwise `Playing` iff some line is `NotFilled`; otherwise `NoWinner` |
| Connect4Game.PlayingNeedsNotFilled | src/connect4/game.rs:40-48 | `Playing` only if some line is `NotFilled` |
| Connect4Game.RowStep | src/connect4/game.rs:118-119 | reading one more column extends a row's status by that column's tile in the row |
| Connect4Game.DiagonalStep | src/connect4/game.rs:124-125 | reading column c extends the top-left diagonal's status by the column's tile at row c |
| Connect4Game.AntiDiagonalStep | src/connect4/game.rs:124-126 | reading column c extends the bottom-left diagonal's status by the column's tile at row 3 - c |
| Connect4Game.LineStepDown | src/connect4/game.rs:118-121 | reading one more tile of a column extends the column's status by that tile |
| Connect4Game.ColumnRead | src/connect4/game.rs:116-122 | reading column c feeds its tiles to the four row statuses and sets column c's status to the column's line status |
| Connect4Game.ReadColumns | src/connect4/game.rs:112-126 | after c columns every column from c on is still `Initial` |
| Connect4Game.ReadColumnsLines | src/connect4/game.rs:112-126 | after c columns, each of the ten accumulators is the status of its line over those c columns |
| Connect4Game.Lines | src/connect4/game.rs:128 | exactly ten line statuses, two diagonals, four rows and four columns |
| Connect4Game.StatusOf | src/connect4/game.rs:111-130 | a board has a winner iff one of its ten lines is a win |
| Connect4Game.ScanIsStatus | src/connect4/game.rs:111-130 | the accumulators after the last column, collected in the order diagonals, rows, columns, give the board's status |
| Connect4Game.FullBoardNotPlaying | src/connect4/game.rs:111-130 | a board with no empty tile is never `Playing` |
| Connect4Game.LowestFree | src/connect4/game.rs:145-150 | the highest empty index of a column (the bottom-most free slot), or None iff the column is full |
| Connect4Game.PileOn | src/connect4/game.rs:136-153 | errors in order: `GameFinished(status)` unless `Playing`, then `InvalidColumn`, then `ColumnFulfilled`; Ok exactly when playing, the column exists and has room |
| Connect4Game.PileSetsOneTile | src/connect4/game.rs:140-152 | a successful pile sets exactly the lowest empty tile of the column to the team's tile and leaves every other tile unchanged |
| Connect4Game.EmptyGrid | src/connect4/game.rs:100-104 | four columns with every tile `Empty` |
| Connect4Game.EmptyGridPlaying | src/connect4/game.rs:111-130 | a new game's status is `Playing` |
| Connect4Game.MixedLine | src/connect4/game.rs:62-69 | a line with a filled last tile, a non-cookie and a non-milk tile is `Mixed` |
| Connect4Game.StuckBoardMixed | src/connect4/game.rs:111-130 | all ten lines of the nine-empty-tile board are `Mixed` |
| Connect4Game.NoWinnerWithEmptyTiles | src/connect4/game.rs:111-139 | a board with nine empty tiles has status `NoWinner`, and every pile on it is refused with `GameFinished(NoWinner)` |
| Connect4Game.Game.New | src/connect4/game.rs:100-104 | the grid is four empty columns |
| Connect4Game.Game.Reset | src/connect4/game.rs:106-109 | every column becomes the default column; the number of columns is kept |
| Connect4Game.Game.Status | src/connect4/game.rs:111-130 | the result is `StatusOf(grid)`: the fold of diagonals, rows and columns |
| Connect4Game.Game.ScanColumns | src/connect4/game.rs:112-126 | the outer loop leaves the accumulators that `ReadColumns` gives after the last column |
| Connect4Game.Game.ReadColumn | src/connect4/game.rs:117-121 | the inner loop feeds each tile of the column to its row's status, and the column's own status becomes the column's line status |
| Connect4Game.Game.Pile | src/connect4/game.rs:136-153 | on success the grid becomes `PileOn`'s grid; on error the grid is unchanged and the error is `PileOn`'s |
| CookieManager.SameSiteText | src/cookie/manager.rs:24-31 | `Strict` or `Lax`, without leading space |
| CookieManager.SecureSameSite.WithSecure | src/cookie/manager.rs:62-67 | the result has `Secure` and the same `SameSite` part |
| CookieManager.SecureSameSite.WithSameSite | src/cookie/manager.rs:76-81 | the `SameSite` part becomes the given one and `Secure` is kept iff present |
| CookieManager.SecureSameSite.Text | src/cookie/manager.rs:50-59 | exactly `Secure` when no `SameSite` part is set; otherwise exactly `SameSite=` and `Strict`, `Lax` or `None`, followed by `; Secure` iff `Secure` is present |
| CookieManager.SecureSameSiteDetermined | src/cookie/manager.rs:42-48 | the attribute is determined by its `Secure` presence and its `SameSite` part |
| CookieManager.WithSecureIdempotent | src/cookie/manager.rs:62-67 | adding `Secure` twice equals adding it once |
| CookieManager.SecureOption | src/cookie/manager.rs:69-74 | the result has `Secure`; its `SameSite` part is unset when nothing was set, and the previous one otherwise |
| CookieManager.SameSiteOption | src/cookie/manager.rs:83-88 | the `SameSite` part is the given one; `Secure` iff something was set and it had `Secure` |
| CookieManager.NumSeconds | src/cookie/manager.rs:106-108 | whole seconds of the delta truncated toward zero |
| CookieManager.Lifetime.Text | src/cookie/manager.rs:97-112 | `Expires=` followed by the date, or `Max-Age=` |
| CookieManager.MaxAgeText | src/cookie/manager.rs:106-109 | the `Max-Age` text is a `-` exactly for negative seconds followed by the decimal digits of their magnitude, with no leading zero |
| CookieManager.Builder.Build | src/cookie/manager.rs:222-244 | the manager holds exactly the builder's name and fields |
| CookieManager.NewBuilder | src/cookie/manager.rs:298-301 | nothing is set |
| CookieManager.Builder.Name | src/cookie/manager.rs:134-146 | sets the name and leaves every other field |
| CookieManager.Builder.Path | src/cookie/manager.rs:148-156 | sets the path and leaves every other field |
| CookieManager.Builder.Secure | src/cookie/manager.rs:158-164 | the attribute has `Secure` and keeps its `SameSite` part (unset if nothing was set); other fields unchanged |
| CookieManager.Builder.SameSiteNone | src/cookie/manager.rs:166-172 | the attribute becomes `SameSite=None` with `Secure`, whatever was set; other fields unchanged |
| CookieManager.Builder.SameSiteStrict | src/cookie/manager.rs:174-180 | the `SameSite` part becomes `Strict` and `Secure` is kept iff it was set; other fields unchanged |
| CookieManager.Builder.SameSiteLax | src/cookie/manager.rs:182-188 | the `SameSite` part becomes `Lax` and `Secure` is kept iff it was set; other fields unchanged |
| CookieManager.Builder.HttpOnly | src/cookie/manager.rs:190-195 | sets `HttpOnly` and leaves every other field |
| CookieManager.Builder.Domain | src/cookie/manager.rs:197-205 | sets the domain and leaves every other field |
| CookieManager.Builder.Expires | src/cookie/manager.rs:207-212 | the lifetime becomes the expiry date and every other field is kept |
| CookieManager.Builder.MaxAge | src/cookie/manager.rs:214-219 | the lifetime becomes the maximum age and every other field is kept |
| CookieManager.CallWritesOwnSlot | src/cookie/manager.rs:133-219 | each builder call changes only its own field; `expires` and `max_age` share the lifetime field |
| CookieManager.CallsOnDifferentSlotsCommute | src/cookie/manager.rs:133-219 | calls on different fields can be made in either order |
| CookieManager.LaterCallOverrides | src/cookie/manager.rs:148-219 | a later call on the same field overrides an earlier one, except `secure`, `same_site_strict` and `same_site_lax`, which combine |
| CookieManager.SameSiteKeepsSecure | src/cookie/manager.rs:174-188 | `same_site_strict`/`lax` set the `SameSite` part and keep `Secure` iff it was present |
| CookieManager.BuilderSecureIdempotent | src/cookie/manager.rs:158-164 | calling `secure` twice equals calling it once |
| CookieManager.SecureIsKept | src/cookie/manager.rs:158-188 | once `Secure` is set, no sequence of later builder calls removes it |
| CookieManager.Attr | src/cookie/manager.rs:261-271 | empty iff the attribute is unset, `; <attribute>` otherwise |
| CookieManager.HeaderValue | src/cookie/manager.rs:259-296 | starts with `name=value`, unescaped, followed by nothing or a `;` |
| CookieManager.SplitItems | src/cookie/manager.rs:313 | a head without `;` followed by `;`-prefixed items without `;` splits into exactly the head and those items |
| CookieManager.SiteItemsWritten | src/cookie/manager.rs:50-59 | `; ` and the attribute text are the `SameSite` item, if set, then the `Secure` item, if present, each after a `;` |
| CookieManager.MaxAgeNoSeparator | src/cookie/manager.rs:106-109 | a `Max-Age` text contains no `;` |
| CookieManager.AttributesAreItems | src/cookie/manager.rs:286-293 | the attributes are path, `SameSite`, `Secure`, `HttpOnly`, domain and lifetime items in that order, each after a `;` and present exactly when set |
| CookieManager.HeaderItems | src/cookie/manager.rs:276-313 | split at `;`, the header value is `name=value` followed by exactly the set attributes in the fixed order, for a name, value, path, domain and expiry without `;` |
| CookieManager.Split | src/cookie/manager.rs:313 | at least one piece, and no piece contains `;` |
| CookieManager.SplitJoin | src/cookie/manager.rs:313 | joining the pieces with `;` gives the text back |
| CookieManager.SplitAtSeparator | src/cookie/manager.rs:313 | text without `;` is one piece, and `a;b` splits as `a` followed by the pieces of `b` |
| CookieManager.TrimStart | src/cookie/manager.rs:314 | the longest suffix not starting with Unicode whitespace, only whitespace removed |
| CookieManager.TrimEnd | src/cookie/manager.rs:314 | the longest prefix not ending with Unicode whitespace, only whitespace removed |
| CookieManager.TrimUnchanged | src/cookie/manager.rs:314 | text with no whitespace at either end is its own trim |
| CookieManager.Trim | src/cookie/manager.rs:314 | a slice of the text with only whitespace cut off at either end, neither starting nor ending with whitespace |
| CookieManager.KeyOfSplit | src/cookie/manager.rs:314 | `split_once` yields key `name` iff the text starts with `name=` and the name has no `=` |
| CookieManager.SplitOnce | src/cookie/manager.rs:314 | None iff there is no `=`; otherwise key `=` value is the text and the key has no `=` |
| CookieManager.SplitOnceAt | src/cookie/manager.rs:314 | a key without `=` followed by `=` splits there |
| CookieManager.WrittenItemValue | src/cookie/manager.rs:314-315 | a trimmed `name=value` item, for a readable name and value, matches the name with the value |
| CookieManager.ItemValue | src/cookie/manager.rs:314-315 | an item matches the name iff its trim starts with `name=` and the name has no `=`; the value is the rest of the trim |
| CookieManager.FindValue | src/cookie/manager.rs:315 | finds a value iff some item matches the name |
| CookieManager.FindValueFirstMatch | src/cookie/manager.rs:315 | `find_map` returns the value of the first matching item, and None only when no item matches |
| CookieManager.FromHeaderValue | src/cookie/manager.rs:311-317 | Ok with the value of the first `;`-separated item whose key is the name; `NoMatchingItemFound` only when no item matches |
| CookieManager.AttributesStartItem | src/cookie/manager.rs:286-293 | the attributes after `name=value` are empty or start with `;` |
| CookieManager.FirstPiece | src/cookie/manager.rs:313 | text without `;` followed by text that is empty or starts with `;` is the first piece |
| CookieManager.FirstItem | src/cookie/manager.rs:286 | for a name without `;`/`=` and a value without `;`, the first piece of the header value is `name=value` |
| CookieManager.HeaderRoundTrip | src/cookie/manager.rs:276-317 | reading the written header back gives the value, for a name without `;`, `=` or leading whitespace and a value without `;` or trailing whitespace |
| Manifest.U32TryFrom | src/handlers/manifest.rs:79 | Some iff 0 ≤ n ≤ 4294967295, with the same number |
| Manifest.AsOrder | src/handlers/manifest.rs:75-81 | Some iff a table with a string `item` and an integer `quantity` in u32 range, carrying exactly those values |
| Manifest.Orders | src/handlers/manifest.rs:75-82 | never more orders than entries |
| Manifest.Kept | src/handlers/manifest.rs:75-82 | increasing positions, each of an entry that is an order |
| Manifest.KeptComplete | src/handlers/manifest.rs:75-82 | every entry that is an order is kept |
| Manifest.OrdersAreKeptEntries | src/handlers/manifest.rs:75-82 | the orders are, in order, exactly the entries that are orders, each read as an order |
| Manifest.OrdersOfConcat | src/handlers/manifest.rs:75-82 | filtering a concatenation concatenates the filtered parts |
| Manifest.FromValue | src/handlers/manifest.rs:69-84 | None iff not a table, no `orders`, or `orders` not an array; otherwise the kept entries as orders, in order |
| Manifest.OrderText | src/handlers/manifest.rs:87-91 | `item: ` followed by decimal digits with no leading zero whose value is the quantity |
| Manifest.Builder.SetManifestKeyword | src/handlers/manifest.rs:29-33 | the keyword becomes exactly the given option |
| Manifest.Builder.ManifestKeyword | src/handlers/manifest.rs:35-43 | the keyword becomes the given text |
| Manifest.Builder.Build | src/handlers/manifest.rs:45-49 | Ok iff a keyword was set, carrying it; otherwise the error `manifest_keyword not set` |
| Manifest.NewBuilder | src/handlers/manifest.rs:25-27 | a new builder does not build |
| Manifest.LastKeywordWins | src/handlers/manifest.rs:29-49 | the last keyword given is the one built; clearing it makes build fail |
| Manifest.ManifestKeyIncluded | src/handlers/manifest.rs:94-105 | true iff there is a package with local (not inherited) keywords containing the state's keyword |
| Handlers.WrappingAdd | src/handlers.rs:36 | the sum modulo 256 |
| Handlers.WrappingSub | src/handlers.rs:36 | the difference modulo 256 (the inverse used to recover source or key) |
| Handlers.ZipWith | src/handlers.rs:21-30 | octet i is f of the two octets at position i |
| Handlers.Ipv4Dest | src/handlers.rs:32-37 | octet i is (from[i] + key[i]) mod 256 |
| Handlers.Ipv4Key | src/handlers.rs:36 | octet i is (dest[i] − from[i]) mod 256 |
| Handlers.OctetsIndependent | src/handlers.rs:21-30 | octet i of the destination depends only on octet i of source and key |
| Handlers.ZeroKey | src/handlers.rs:36 | key 0.0.0.0 gives the source back |
| Handlers.Ipv4DestCommutes | src/handlers.rs:36 | swapping source and key gives the same destination |
| Handlers.SubtractKey | src/handlers.rs:36 | subtracting the key from the destination octet-wise gives the source back |
| Handlers.KeyRoundTrip | src/handlers.rs:36 | the key is recovered from source and destination, and the recovered key gives the destination back |
| Numeric.NatToString | src/handlers/manifest.rs:90 | decimal digits of a natural number, no leading zero |
| Numeric.IntToString | src/cookie/manager.rs:107-108 | starts with `-` iff the number is negative; the rest is decimal digits with no leading zero whose value is the magnitude |
| Numeric.DecimalRoundTrip | src/handlers/manifest.rs:87-91 | decimal text reads back as its number |
| Numeric.NatToStringInjective | src/handlers/manifest.rs:87-91 | different numbers have different decimal text |
| Numeric.Digits | src/quotes/shorten.rs:92-97 | exactly n digits, each below the base |
| Numeric.ValueOfDigits | src/quotes/shorten.rs:92-97 | the n digits of a value below base^n read back as that value |
| Numeric.DigitsOfValue | src/quotes/shorten.rs:44-50 | a digit sequence is the digits of its own value |
| Numeric.ValueBound | src/quotes/shorten.rs:44-50 | n digits have a value below base^n |

## Left out

- Async and concurrency: the tokio mutex around the bucket level, the refill timer and the spawned background task. Operations run one at a time, and a refill tick is one `FillBy`. The race between `check_bucket` and `withdraw` is not modelled.
- Floating point: `f32` quantities are exact reals. The unit round trips and the bucket arithmetic are exact only in that abstraction.
- `Milk.MilkBucket.RefillTicks`: models a given number of ticks of `refill_task`'s endless loop. The interval timer is not modelled.
- The builders' phantom type parameters, which the compiler checks:
  - the milk builders are the constructors `Milk.MilkBucket.Build` and `MilkHandler.State.Build`;
  - the cookie builder's name is an `Option`.
- `CookieManager.Builder.Build`: requires a set name. The source's `build` exists only on `Builder<String>`.
- HTTP plumbing: routing, body decoding, response building beyond status/content type/body, `seek`, and the formatting of the destination address as text. JWT, the quote store's SQL and UUID generation are not modelled either.
- `Shorten.DigitToCodepoint`: requires a digit below 62, which every caller passes. For larger digits the source returns non-alphanumeric bytes, or overflows above 226.
- `Shorten.WordToCodepoint`: requires a nibble below 16, which every caller passes.
- `Shorten.ParseAlphanumeric`: its accumulator is unbounded. The source's `u128` accumulator can overflow on alphanumeric texts longer than 21 characters. In a release build the result is still `UnexpectedLength`, which the model gives. A debug build panics instead, and that panic is not modelled.
- `Shorten.HexBytes`: the hex form is specified from the id's first 11 bytes. It is not related to the alphanumeric form.
- `Shorten.Error`: `NonAscii` carries no `TryFromCharError` payload.
- `Connect4Model.RowText`: requires at least four columns, so it does not model the `unwrap` panic in `Row`'s display on a narrower grid. Every grid a `Game` holds has four columns.
- Connect-Four:
  - `random_board` and the RNG seed that `new`/`reset` set are not modelled, because they are randomness.
  - The text of `Game`, of `display_with_status` and of `Team` is not modelled.
- Cookie `Expires` is kept as its already formatted date text, so chrono's strftime formatting is not modelled.
- Cookie percent-encoding is not modelled, because the source does not apply it either (it is a FIXME). The `Utf8` decode error that only it would produce is not modelled either.
- `CookieManager.NumSeconds`: `TimeDelta` is kept as whole seconds plus non-negative nanoseconds, so chrono's range limits are not modelled.
- TOML floats and date-times are `real` and text. The manifest logic never reads them.
- `cargo_manifest::Manifest` is reduced to `package.keywords`, and `MaybeInherited` to `Local(list) | Inherited`.
