# shuttle-cch23 in Dafny

This project models the puzzle handlers of shuttle-cch23, an axum web service for a
Christmas coding challenge, and proves properties of them. It also models the sequential
state machine of the service's WebSocket hub. Each core source file is one module:

- `XorCube` (src/day_01.rs): `GET /1/*nums` splits the path at `/` with `split_terminator`, parses
  every segment as an `i32`, refuses more than 20 numbers, and answers with the cube of their
  exclusive or.
- `Reindeers` (src/day_04.rs): `POST /4/strength` sums the strengths. `POST /4/contest` picks the
  tallest reindeer, the strongest magician and the biggest candy eater with `max_by_key`.
- `Slicing` (src/day_05.rs): `POST /5?offset=&limit=&split=` answers with an offset/limit window of
  a list of names. When `split` is given, the window is cut into chunks by a `while` loop.
- `ElfCount` (src/day_06.rs): `POST /6` counts the words containing "elf". It removes
  "elf on a shelf" in a loop, counting the removals, then counts the remaining words containing
  "shelf".
- `Bakery` (src/day_07.rs): `Ingredients::bake` subtracts a recipe from a pantry in place when every
  field covers it. `GET /7/bake` repeats it until it fails, counting the cookies.
- `Passwords` (src/day_15.rs): the nice/naughty verdict names, the `day15_password` rule chain,
  and the twelve ordered rules of `day15_game`.
- `Orders` (src/day_18.rs): the in-memory part of the order handlers. It sums quantities per gift
  name and picks the most popular gift. It also sorts the per-region totals.
- `Websocket` (src/day_19.rs): the shared `WsState` record, the serve/ping/pong session, the
  view reset and query, joining a room, and the rule by which a room's reader forwards frames.
- `Presents` (src/day_22.rs): `POST /22/integers` counts the integers of the body and answers with
  as many presents as the integer seen once. `POST /22/rocket` files its portals in an adjacency map.

Four support modules hold what the handlers take from Rust's standard library:
- `Wrappers`: `Option`, `Result` and the HTTP status codes.
- `MachineInt`: `i32` wrap-around and the bitwise exclusive or of two `i32`s.
- `Decimal`: integer `FromStr` and `Display`.
- `Text`: `split`, `split_terminator`, `lines`, `contains`, `find` and the first-occurrence
  `replacen`.

The integer arithmetic is that of a release build: `i32` addition, subtraction and `pow` wrap
around, and the model writes the wrap out with `Wrap32`. A `panic!` or `unwrap` failure the
handler cannot recover from becomes a precondition. A room lookup that would panic in
`room_websocket` is a `None` outcome. Where the source iterates a `HashMap`, the
order is unspecified, and the model picks any entry that meets the source's guard.

## Model

| member | source | states |
|---|---|---|
| `XorCube.Day01Get` | src/day_01.rs:12-28 | the handler: parse, then cap, then fold and cube; its only errors are `400 Bad Request` and `414 URI Too Long` (its answers are stated by the lemmas below) |
| `XorCube.ParseAll` | src/day_01.rs:13-16 | the segments parse as a whole exactly when every segment parses as an `i32`, and then the numbers are those segments' values in order |
| `XorCube.XorFold` | src/day_01.rs:23 | the exclusive-or fold of `i32`s is an `i32` |
| `XorCube.Cube` | src/day_01.rs:23 | `pow(3)` on an `i32` stays an `i32`, wrapping on overflow (exact below 1290 by `CubeExact`) |
| `XorCube.XorFoldAppend` | src/day_01.rs:23 | folding a concatenation is the exclusive or of the two folds |
| `XorCube.XorFoldPermutation` | src/day_01.rs:23 | any two orderings of the same numbers (equal multisets) fold to the same value |
| `XorCube.BadSegment` | src/day_01.rs:13-26 | one segment that is not an `i32` makes the answer `400 Bad Request`, whatever the number of segments (the parse comes before the cap) |
| `XorCube.LengthCap` | src/day_01.rs:17-22 | once every segment parses, the handler fails exactly when there are more than 20 numbers, and then with `414 URI Too Long` |
| `XorCube.AnswerIsCube` | src/day_01.rs:23-24 | a successful answer is `Display` of the wrapped cube of the exclusive-or fold, and it parses back as that `i32` |
| `XorCube.CubeExact` | src/day_01.rs:23 | `pow(3)` does not wrap for values up to 1290 in magnitude |
| `XorCube.TrailingSlash` | src/day_01.rs:35 | a trailing `/` yields no empty segment, and "10/" answers "1000" |
| `XorCube.FourNumbers` | src/day_01.rs:36 | "4/5/8/10" answers "27" |
| `XorCube.NotParseable` | src/day_01.rs:41 | "2/a/3/" answers `400 Bad Request` |
| `Reindeers.Day04Post` | src/day_04.rs:6-10 | the strength handler: the decimal text of the wrapped sum (its meaning is stated by `Day04PostIsSum`) |
| `Reindeers.SumStrength` | src/day_04.rs:8 | the `i32` sum of the strengths is an `i32` |
| `Reindeers.SumStrengthWraps` | src/day_04.rs:8 | wrapping at every addition equals wrapping the mathematical sum once |
| `Reindeers.Day04PostIsSum` | src/day_04.rs:6-10 | the answer is the decimal text of the wrapped sum of the strengths; it reads back as that sum, as the exact sum when that fits in an `i32`, and as "0" for an empty herd |
| `Reindeers.StrengthSample` | src/day_04.rs:76-87 | the nine reindeer of strengths 10 to 90 answer "450" |
| `Reindeers.LastMaxBy` | src/day_04.rs:18-29 | `max_by_key` returns an index whose key is at least every key, and no later element has an equal key |
| `Reindeers.Day04Contest` | src/day_04.rs:12-37 | the contest handler without the `f32` "fastest" field: `400 Bad Request` on an empty herd, else the three `max_by_key` winners' messages (stated by `ContestWinners`) |
| `Reindeers.ContestWinners` | src/day_04.rs:12-36 | the contest fails exactly on an empty herd, with `400 Bad Request`; otherwise each message names a reindeer of the herd whose key (height, magic power, candies) is maximal, and the tallest message reports that reindeer's antler width |
| `Reindeers.ContestSample` | src/day_04.rs:91-122 | for the two-reindeer herd, Dasher is tallest and magician and Dancer is the consumer |
| `Reindeers.SampleTallestMessage` | src/day_04.rs:116 | the tallest message of the sample is "Dasher is standing tall with his 36 cm wide antlers" |
| `Reindeers.SampleMagicianMessage` | src/day_04.rs:117 | the magician message of the sample ends in the power 9001 |
| `Slicing.EmptyStringAsNone` | src/day_05.rs:25-36 | the query-value deserialiser (its meaning is stated by `EmptyStringAsNoneMeaning`) |
| `Slicing.EmptyStringAsNoneMeaning` | src/day_05.rs:25-36 | an absent or empty value is `None`; any other value is `Some` of its `usize` value when it parses, and the serde error otherwise; the decimal text of every `usize` is read back as that number |
| `Slicing.Window` | src/day_05.rs:46-50 | `strings[offset..min(offset + limit, len)]`, with the offset in range (its contents are stated by `WindowContents`) |
| `Slicing.WindowContents` | src/day_05.rs:46-50 | the window holds `min(limit, len - offset)` names, the ones starting at `offset`, in order |
| `Slicing.Chunks` | src/day_05.rs:51-62 | the window cut into consecutive pieces of `k` names (stated by `FlattenChunks`, `ChunkCount`, `ChunkSizes`) |
| `Slicing.FlattenChunks` | src/day_05.rs:51-62 | concatenating the chunks gives the window back |
| `Slicing.ChunkCount` | src/day_05.rs:55-62 | there are `ceil(len / k)` chunks |
| `Slicing.ChunkSizes` | src/day_05.rs:55-62 | every chunk but the last has `k` names, and the last has between 1 and `k` |
| `Slicing.SplitChunks` | src/day_05.rs:53-62 | the chunking loop builds exactly the chunk list of the window |
| `Slicing.Day05Slice` | src/day_05.rs:38-66 | an empty list answers `[]`; otherwise the offset defaults to 0 and the limit to the length, and the answer is the window, or its chunks when `split` is given |
| `ElfCount.StripShelves` | src/day_06.rs:9-14 | after the removals no "elf on a shelf" is left, and each removal took away exactly 14 characters |
| `ElfCount.ShelfBound` | src/day_06.rs:11-14 | 14 times the number of removals is at most the text's length, and a text without the phrase is left as it is |
| `ElfCount.WordsContaining` | src/day_06.rs:8 | the number of words of `split(" ")` that contain `p`, as counted at line 8 and line 15 (properties of its parts: `Text.Split`, `Text.CountContaining`) |
| `ElfCount.Day06Post` | src/day_06.rs:6-22 | `elf` counts the words of the text containing "elf"; `elf on a shelf` is the number of removals; `shelf with no elf on it` counts the words of the reduced text containing "shelf" |
| `Bakery.Minus` | src/day_07.rs:59-63 | the five `-=` leave `i32` fields |
| `Bakery.NoWrap` | src/day_07.rs:44-63 | when the pantry covers a non-negative recipe, the subtractions do not wrap |
| `Bakery.MeasureDrops` | src/day_07.rs:78-80 | with some positive recipe field, every successful bake lowers the ingredients left to consume, so the loop ends |
| `Bakery.Baked` | src/day_07.rs:77-80 | on every input where the loop ends without wrapping back (a positive recipe field, or a pantry that fails the first bake), it ends with a non-negative count and a pantry that no longer covers the recipe |
| `Bakery.NothingBaked` | src/day_07.rs:44-58 | a pantry that fails the first `bake` answers 0 cookies and itself, whatever the recipe |
| `Bakery.ZeroRecipeNeverEnds` | src/day_07.rs:78-80 | an all-zero recipe the pantry covers leaves the pantry as it is, so `bake` keeps succeeding: one of the inputs without an answer (the others are listed under "Left out") |
| `Bakery.BakedIsMaximal` | src/day_07.rs:77-84 | for a non-negative recipe, the final pantry is the initial one minus `cookies` batches, `cookies` batches fit and one more does not |
| `Bakery.MostBatchesUnique` | src/day_07.rs:77-80 | that maximal batch count is unique |
| `Bakery.BakedFromCount` | src/day_07.rs:77-84 | so the result is determined by the maximal batch count |
| `Bakery.CookiesUseUp` | src/day_07.rs:78-80 | the cookies never use more of an ingredient than the pantry held of it |
| `Bakery.CookiesFit` | src/day_07.rs:77-79 | the cookie counter stays within `i32` |
| `Bakery.SampleBake` | src/main.rs:99-115 | the sample pantry and recipe bake 4 cookies and leave flour 5, sugar 307, butter 2002, baking powder 825 and chocolate chips 257 |
| `Bakery.Ingredients.constructor` | src/day_07.rs:31-40 | a pantry built from five `i32` amounts holds them and is valid |
| `Bakery.Ingredients.Bake` | src/day_07.rs:43-65 | `bake` succeeds exactly when every field covers the recipe; it then subtracts the recipe fieldwise and otherwise changes nothing, and it never changes the recipe |
| `Bakery.BakeAll` | src/day_07.rs:75-84 | on the same inputs, the baking loop gives the count and the pantry of `Baked`, and ends with a pantry that no longer covers the recipe |
| `Passwords.AsStr` | src/day_15.rs:22-27 | `Result::as_str`: "nice" and "naughty" (the round trip is `VerdictNames`) |
| `Passwords.FromStr` | src/day_15.rs:29-34 | `Result::from_str`: "nice" is nice and every other string naughty (stated by `VerdictNames`) |
| `Passwords.VerdictNames` | src/day_15.rs:21-35 | `from_str(as_str(v)) == v`, and every string other than "nice" reads as naughty |
| `Passwords.PasswordVerdict` | src/day_15.rs:45-53 | the guards of `day15_password` in source order (their meaning is stated by `PasswordRules`) |
| `Passwords.Day15Password` | src/day_15.rs:42-58 | the status is 200 exactly when the result is "nice", and 400 otherwise |
| `Passwords.PasswordRules` | src/day_15.rs:45-53 | a password is nice exactly when it has none of "ab", "cd", "pq", "xy", at least three of a/e/i/o/u/y, and two equal adjacent alphabetic characters |
| `Passwords.Utf8Len` | src/day_15.rs:96 | the byte length is between one and four bytes per character |
| `Passwords.DigitCountPositive` | src/day_15.rs:97-98 | `[0-9]` finds a match exactly when the password has a digit |
| `Passwords.DigitRuns` | src/day_15.rs:72 | the matches of `[0-9]+`: every run is non-empty and all digits (that they are maximal is `DigitRunsMaximal`) |
| `Passwords.DigitRunsMaximal` | src/day_15.rs:72 | the runs are maximal: the password is the runs interleaved with digit-free gaps, and every gap between two runs is non-empty |
| `Passwords.RunsHoldTheDigits` | src/day_15.rs:72-99 | the runs of `[0-9]+`, concatenated, are the digits `[0-9]` finds one by one |
| `Passwords.SumIsWrappedTotal` | src/day_15.rs:99 | the `i32` sum of the parsed runs is their mathematical sum wrapped to 32 bits |
| `Passwords.GameChecks` | src/day_15.rs:95-107 | the twelve guards of `day15_game`, one flag each, with the math guard evaluated only where it is reached (the chain is stated by `FirstBrokenRuleDecides`) |
| `Passwords.Decide` | src/day_15.rs:95-109 | the game's reply has status 200 exactly when its result is "nice" |
| `Passwords.Day15Game` | src/day_15.rs:66-110 | the same for `day15_game` on a password |
| `Passwords.FirstBrokenRuleDecides` | src/day_15.rs:95-108 | when the first broken rule is rule `k`, the reply is that rule's status, "naughty" and reason |
| `Passwords.GameWonIffAllRulesKept` | src/day_15.rs:95-108 | the game answers 200 exactly when all twelve rules are kept, and then with "nice" and "that's a nice password" |
| `Passwords.AllKeptWins` | src/day_15.rs:108 | keeping every rule reaches the final arm |
| `Passwords.PenaltyNotOk` | src/day_15.rs:96-107 | every rule's penalty is a non-200 status with result "naughty" |
| `Passwords.NoJoyNotJoyful` | src/day_15.rs:100 | past the math rule, a password without `j`, `o`, `y` in order is refused with 406 "not joyful enough" |
| `Passwords.NoSandwichIllegal` | src/day_15.rs:104 | past the joy rules, a password with no alphabetic `a b a` (with `b` different from `a`) is refused with 451 "illegal: no sandwich" |
| `Orders.Total` | src/day_18.rs:137-142 | a gift's running total is an `i32` |
| `Orders.TotalSnoc` | src/day_18.rs:138-142 | one more row adds its quantity (wrapped) to an existing name, starts a new name at its quantity, and leaves other names alone |
| `Orders.GiftTotals` | src/day_18.rs:133-143 | the map's keys are exactly the gift names of the rows, and each holds the wrapped sum of that gift's quantities |
| `Orders.MaxKeyExists` | src/day_18.rs:144-146 | a non-empty map has a key whose value is at least every value |
| `Orders.PopularOrder` | src/day_18.rs:124-149 | no rows gives `None`; otherwise the popular gift is a gift of the rows whose total is at least every gift's total |
| `Orders.StrLeTotal` | src/day_18.rs:91-95 | the derived string order is total |
| `Orders.StrLeAntisymmetric` | src/day_18.rs:91-95 | and antisymmetric |
| `Orders.StrLeTransitive` | src/day_18.rs:91-95 | and transitive |
| `Orders.LeTotal` | src/day_18.rs:91-95 | the derived `(region, total)` order is total |
| `Orders.LeAntisymmetric` | src/day_18.rs:91-95 | and antisymmetric |
| `Orders.LeTransitive` | src/day_18.rs:91-95 | and transitive |
| `Orders.SortedFirstIsLeast` | src/day_18.rs:112 | the first element of a sorted list is at most every element |
| `Orders.SortedUnique` | src/day_18.rs:112 | two sorted permutations of the same totals are equal, so any correct sort gives the answer `sort()` gives |
| `Orders.SortTotals` | src/day_18.rs:112 | sorting in place leaves a sorted permutation of the totals |
| `Orders.Insert` | src/day_18.rs:112 | one insertion step extends the sorted prefix by one and permutes the array |
| `Orders.Swap` | src/day_18.rs:112 | a swap exchanges two neighbours and nothing else |
| `Orders.TotalsPerRegion` | src/day_18.rs:104-116 | the answer is sorted and is a permutation of the collected rows |
| `Websocket.Step` | src/day_19.rs:38-45 | a frame sends "pong" exactly when it is the text "ping" and the game is running, and nothing otherwise; after it the game runs when it ran before or the frame was "serve" |
| `Websocket.Session` | src/day_19.rs:37-50 | the `while let` loop of `ping_websocket` over received items: the final flag and the replies (stated by the session lemmas below) |
| `Websocket.OnlyPongs` | src/day_19.rs:42-44 | a session sends only "pong", at most one per frame |
| `Websocket.NoServeNoPong` | src/day_19.rs:40-45 | without "serve", a session that starts stopped sends nothing and stays stopped |
| `Websocket.RunningAnswersPings` | src/day_19.rs:37-50 | a running session stays running and answers every "ping" before the first receive error |
| `Websocket.FailureEnds` | src/day_19.rs:46-49 | nothing after a receive error is handled |
| `Websocket.ServeIdempotent` | src/day_19.rs:40-41 | a second "serve" changes nothing |
| `Websocket.ServeStarts` | src/day_19.rs:40-41 | "serve" starts the game whatever state it was in |
| `Websocket.Forwarded` | src/day_19.rs:108-121 | the reader forwards at most one text per received item (what a non-text frame or a receive error forwards is `ForwardedSkips`) |
| `Websocket.ForwardedSkips` | src/day_19.rs:110-119 | a non-text frame or a receive error forwards nothing and the reader carries on: the items around it are forwarded as if it were absent |
| `Websocket.ForwardedAppend` | src/day_19.rs:108-121 | forwarding distributes over concatenation of the received items |
| `Websocket.ForwardedTexts` | src/day_19.rs:112-115 | a stream of text frames is forwarded verbatim and in order |
| `Websocket.Channel.constructor` | src/day_19.rs:82 | a new broadcast channel has sent nothing |
| `Websocket.Channel.Send` | src/day_19.rs:114 | sending appends the text to what the channel has sent |
| `Websocket.Read` | src/day_19.rs:107-122 | the reader sends on the channel exactly the forwarded texts of the stream |
| `Websocket.WsState.constructor` | src/day_19.rs:19-26 | the state starts with the game stopped, no views and no rooms |
| `Websocket.WsState.PingSession` | src/day_19.rs:33-51 | the ping loop leaves the game flag and sends the replies of `Session`, and changes neither views nor rooms |
| `Websocket.WsState.ResetViews` | src/day_19.rs:58-64 | reset sets views to 0, stops the game and keeps the rooms |
| `Websocket.WsState.GetViews` | src/day_19.rs:66-69 | the body is the decimal text of the view count and reads back as it, and nothing changes |
| `Websocket.WsState.JoinRoom` | src/day_19.rs:76-90 | a non-zero room number files a fresh room with a new channel, replacing any room under that number; room 0 is never filed, so its lookup finds nothing |
| `Presents.Values` | src/day_22.rs:81-82 | the lines parse, in order, to the `u64` values |
| `Presents.Count` | src/day_22.rs:84-88 | a value occurs exactly when its count is positive |
| `Presents.CountValues` | src/day_22.rs:80-89 | the count map's keys are exactly the integers seen, and each counts that integer's lines |
| `Presents.AllValuesNatural` | src/day_22.rs:82 | every parsed value is a `u64` |
| `Presents.Presents` | src/day_22.rs:91 | the answer has `n` characters, each the present emoji |
| `Presents.Day22Integers` | src/day_22.rs:78-93 | the answer is the present repeated `n` times for an integer `n` of the body seen exactly once |
| `Presents.Sources` | src/day_22.rs:49-56 | the sources are listed without repetition |
| `Presents.SourcesAreTheSources` | src/day_22.rs:49-56 | a number is a key of the map exactly when some portal starts at it |
| `Presents.PortalPaths` | src/day_22.rs:39-57 | the map files each source's destinations in input order, under exactly the sources, and its lists hold `number_portals` entries in all |
| `Presents.PortalCount` | src/day_22.rs:39-57 | the lengths of the portal lists sum to the number of portals |
| `Presents.NoPortalsNoDestinations` | src/day_22.rs:49-56 | a number no portal starts at has no destinations |
| `MachineInt.Wrap32` | src/day_04.rs:8 | the wrapped value is the `i32` congruent to the integer modulo 2^32 |
| `MachineInt.Xor32` | src/day_01.rs:23 | the `i32` exclusive or is the bitwise exclusive or of the two's-complement bit patterns |
| `MachineInt.XorCommutes` | src/day_01.rs:23 | exclusive or commutes |
| `MachineInt.XorAssociates` | src/day_01.rs:23 | exclusive or associates |
| `MachineInt.XorSelf` | src/day_01.rs:23 | a number exclusive-ors with itself to 0 |
| `MachineInt.XorZero` | src/day_01.rs:23 | 0 is the exclusive or's identity, the fold's start value |
| `Decimal.Show` | src/day_01.rs:24 | `format!("{}", n)`: a minus sign for negatives, then the digits (read back by `ShowParses`) |
| `Decimal.ParseInt` | src/day_05.rs:34 | a parsed value lies in the target type's range |
| `Decimal.ShowParses` | src/day_01.rs:24 | the decimal text of a value in range parses back as that value |
| `Decimal.ValueOfDigits` | src/day_01.rs:24 | the decimal digits of a number denote that number |
| `Text.Split` | src/day_06.rs:8 | `split(" ")`: at least one piece, none holding the separator, empty pieces kept |
| `Text.JoinSplit` | src/day_06.rs:8 | joining the pieces of `split(" ")` with the separator gives the text back |
| `Text.SplitJoin` | src/day_06.rs:15 | splitting the join of separator-free pieces gives the pieces back |
| `Text.Find` | src/day_06.rs:11 | `find` returns the first occurrence, and `None` exactly when the text does not contain the pattern |
| `Text.RemoveFirst` | src/day_06.rs:12 | `replacen(p, "", 1)` cuts out the leftmost occurrence of `p`: the text before it joined to the text after it, `|p|` characters shorter; the text as it is when `p` does not occur |
| `Text.SplitTerminator` | src/day_01.rs:13 | no piece contains the separator |
| `Text.Lines` | src/day_22.rs:81 | `str::lines`: the `split_terminator` pieces at `\n`, each with one trailing `\r` removed |
| `Text.Contains` | src/day_15.rs:46-49 | `str::contains`: the pattern occurs at some index (the first one is found by `Text.Find`) |
| `Text.CountContaining` | src/day_06.rs:8 | `filter(..contains..).count()`: at most the number of words |

## Left out

- `day04_post_contest`'s "fastest" message: it depends on an `f32` `partial_cmp`, so the model's `ContestResult` has no `fastest` field.
- The JSON and base64 decoding of requests (serde, `lib_base64`) and `day07_get`: handlers take the decoded values as parameters.
- The database (sqlx) in src/day_18.rs: rows come in as sequences, and `day18_reset` and the insert handlers are not part of this model.
- `day22_stars`' parsing of star coordinates, its breadth-first search (src/day_22.rs:59-75) and the distance sum: floating point and the `pathfinding` crate. So portals come in as parsed `(source, destination)` pairs.
- Everything concurrent in src/day_19.rs: `tokio::spawn`, the `Mutex` and its poisoning, the broadcast channel's delivery to subscribers and its capacity, the writer loop that relays broadcasts (src/day_19.rs:93-104), and the upgrade handlers. `ping_websocket`'s `stream.send` errors are ignored as in the code (`let _`). The code has no 128-character limit and never increments `views`, so neither is modelled.
- `info!` logging. When info logging is on, src/day_15.rs:93 evaluates the digit-run `unwrap` before any rule; the model evaluates it only where the math rule does (`ReachesMath`).
- `Passwords.GameChecks`: `char::is_alphabetic` is a parameter (`alpha`), because Unicode's alphabetic property is not modelled. The SHA-256 check "hash ends in a" (src/day_15.rs:88-91, 107) is a boolean parameter, because SHA-256 is not modelled.
- `Passwords.GameChecks`: the guards are evaluated up front into one record, then chained in the source's order. They have no side effects, so the reply is the same.
- `XorCube.Day01Get`, `Reindeers.Day04Post`: the arithmetic is that of a release build, so `i32` overflow wraps; a debug build would panic instead.
- `Bakery.BakeAll`, `Bakery.Baked`: require `BakingEnds`: some recipe field is positive, or the pantry fails the first bake. Two kinds of input are outside that. An all-zero recipe the pantry covers never ends (`Bakery.ZeroRecipeNeverEnds`). A recipe whose fields are zero or negative, none positive, that the pantry covers makes each bake add to the pantry. That loop ends only when a field wraps past `i32::MAX` (or never, when every negative field is `i32::MIN`), after up to 2^32 bakes that also wrap the `i32` cookie counter; this wrap-around run is not modelled.
- `Bakery.BakedIsMaximal`: stated for recipes with no negative field. With a negative field the subtraction adds to the pantry, and wrap-around decides when the loop stops.
- `ElfCount.Day06Post`: the `as i32` casts of the word counts are not truncated, and neither is the `i32` counter `elf_shelf` incremented by `+= 1` (`ElfCount.ShelfBound` keeps it at most |text|/14). A text long enough to overflow them does not fit in memory.
- `Presents.CountValues`: the `u32` counters are not truncated, for the same reason.
- `Presents.Presents`: `"🎁".repeat(n)` panics with a capacity overflow once `4·n` exceeds `usize`, and runs out of memory long before that. Neither is modelled: the answer is the `n`-fold present for every `n`.
- `Orders.TotalsPerRegion`: `sort()` is modelled by an insertion sort. `Orders.SortedUnique` shows any correct sort gives the same list.
- `Websocket.WsState.JoinRoom`: room 0's `unwrap` panic (src/day_19.rs:89) is the `None` outcome.
- `Text.Lines`: follows `str::lines` as it was before Rust 1.77. There, a last line ending in `\r` without a `\n` also loses that `\r`; later releases keep it.
- The tests' concrete texts of src/day_06.rs:38-58, and the 20- and 21-number paths of src/day_01.rs:44-48, are not stated as lemmas. `ElfCount.Day06Post` and `XorCube.LengthCap` state the general rules those tests check.
- `Reindeers.SampleMagicianMessage`: states the message as the concatenation of the name, the fixed text and the digits, not as one literal.
- The JSON response bodies: serde's encoding of `Json<...>` replies is not modelled. Replies are datatypes (`Slicing.Sliced`, `Bakery.BakeResult`, `Reindeers.ContestResult`, `ElfCount.Answer`, the game's reply), and `Slicing.Sliced` stands for the `serde_json::to_string` text of src/day_05.rs:40, 63 and 65.
