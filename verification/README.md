# Advent of Code solutions, modelled in Dafny

This project models a Rust collection of Advent of Code solutions:
- sixteen puzzles, eleven from 2023 (days 1 to 11) and five from 2024 (days 1 to 5);
- each puzzle has a part one and a part two computed from the puzzle input.

Every solution becomes one Dafny module with pure functions:
- the parsing of the input;
- the puzzle's data structures;
- both parts.

Each module also holds lemmas that relate those functions to an independent statement of what the puzzle asks for.

Three shared modules:
- `Wrappers`: `Option`, and `Outcome`, which is a value or the panic of an `unwrap`/`expect`/index. It also holds `Collect`, which is `collect::<Option<Vec<_>>>()`.
- `Text`: the string functions the solutions use. These are `split_whitespace`, `split`, `split_once`, `strip_prefix`, `replace`, and `parse` for unsigned and signed integers with their width bound. `lines` is not among them: input already arrives split into lines.
- `Sorting`: a functional insertion sort parameterised by a "may come before" relation. It stands in for `sort` and `sort_by`.

Input arrives as a sequence of lines (or of rows of bytes) rather than one string, unless the split itself is part of the puzzle. A Rust panic is the `Panic` outcome.

| module | puzzle | source |
|---|---|---|
| `Trebuchet` | calibration values, digits and spelled-out digits | 2023/src/bin/01.rs |
| `CubeConundrum` | games of coloured cubes drawn from a bag | 2023/src/bin/02.rs |
| `GearRatios` | part numbers and gears in an engine schematic | 2023/src/bin/03.rs |
| `Scratchcards` | winning numbers and won copies of cards | 2023/src/bin/04.rs |
| `SeedFertilizer` | seed ids through a chain of range maps | 2023/src/bin/05.rs |
| `WaitForIt` | boat races: hold times that beat the record | 2023/src/bin/06.rs |
| `CamelCards` | poker-like hands with jokers, ranked by type | 2023/src/bin/07.rs |
| `HauntedWasteland` | walking a left/right node network | 2023/src/bin/08.rs |
| `MirageMaintenance` | extrapolating histories by difference tables | 2023/src/bin/09.rs |
| `PipeMaze` | the pipe loop through the start and its enclosed tiles | 2023/src/bin/10.rs |
| `CosmicExpansion` | galaxy distances in an expanding universe | 2023/src/bin/11.rs |
| `HistorianHysteria` | two lists of location ids: distance and similarity | 2024/src/bin/01.rs |
| `RedNosedReports` | safe reports, with and without the problem dampener | 2024/src/bin/02.rs |
| `MullItOver` | `mul` instructions switched by `do()`/`don't()` | 2024/src/bin/03.rs |
| `CeresSearch` | `XMAS` and X-shaped `MAS` in a word search | 2024/src/bin/04.rs |
| `PrintQueue` | page-ordering rules and update lists | 2024/src/bin/05.rs |

## Model

| member | source | states |
|---|---|---|
| Trebuchet.Digits | 2023/src/bin/01.rs:7 | every entry is a decimal digit, and there are none exactly when the line holds no digit character |
| Trebuchet.LineValue | 2023/src/bin/01.rs:6-13 | a line panics exactly when it has no digit; otherwise its value is a two-digit number (at most 99) |
| Trebuchet.LineValueFirstLast | 2023/src/bin/01.rs:6-13 | the value is ten times the line's first digit character plus its last digit character; a single digit counts as both |
| Trebuchet.SumValues | 2023/src/bin/01.rs:4-14 | the sum panics exactly when some line has no digit, and is at most 99 per line |
| Trebuchet.PartOne | 2023/src/bin/01.rs:3-15 | `None` exactly on empty input (`reduce` over nothing), a panic exactly when some line lacks a digit, otherwise at most 99 per line |
| Trebuchet.ReplaceEmbeds | 2023/src/bin/01.rs:30-32 | replacing a word by "word, digit, word" keeps the old text embedded, in order, in the new |
| Trebuchet.RewriteKeepsLine | 2023/src/bin/01.rs:30-32 | the nine replacements in turn keep the original line as a subsequence of the rewritten one |
| Trebuchet.RewriteKeepsValue | 2023/src/bin/01.rs:33-41 | a line part one can value keeps a value after the rewrite, since its digits all survive |
| Trebuchet.PartTwo | 2023/src/bin/01.rs:17-43 | `None` exactly on empty input; panics only when some line of the original input has no digit, so only where part one panics; otherwise at most 99 per line. The source rewrites the spelled digits across the whole input before `lines()`, the model line by line: no spelled digit contains a newline, so no occurrence spans two lines and both give the same lines |
| Trebuchet.Absent | 2023/src/bin/01.rs:31 | a word containing a character the text lacks leaves the text unchanged |
| Trebuchet.FirstAt | 2023/src/bin/01.rs:31 | `replace` rewrites the first occurrence and continues after it, so overlapping occurrences are not rewritten twice |
| Text.ReplaceAllFind | 2023/src/bin/01.rs:31 | the front-to-back scan behind `replace` agrees with the description through `find`: text without the word is unchanged; otherwise the text before the first occurrence, the replacement, and the rest replaced in turn |
| Text.ReplaceAllSkips | 2023/src/bin/01.rs:31 | text in which no occurrence starts before position `i` comes through `replace` unchanged up to `i` |
| Text.ParseShowInt | 2023/src/bin/09.rs:45 | every value of a signed type's range parses back from its decimal spelling |
| Text.WordsOfShown | 2023/src/bin/09.rs:44 | values written out with single spaces split back into their spellings |
| Text.WordsGap | 2024/src/bin/01.rs:41 | a word, any run of whitespace and more text split into that word and the words of the rest |
| Trebuchet.Twone | 2023/src/bin/01.rs:18-41 | "twone" becomes "two2twone1one" and is worth 21: the words overlap, and replacing "one" keeps the "o" that "two" needs |
| CubeConundrum.Cube | 2023/src/bin/02.rs:73-74 | a piece is read only when it has a space, and then as a count, that space and the colour name after it |
| CubeConundrum.CubeOfShown | 2023/src/bin/02.rs:73-81 | a count written in decimal, a space and a name read back as that count and name |
| CubeConundrum.AssignLastCount | 2023/src/bin/02.rs:76-81 | each colour of a set ends as the count of the last piece naming it, 0 when no piece does; unknown colours change nothing |
| CubeConundrum.ParseSet | 2023/src/bin/02.rs:69-85 | a set parses exactly when each of its ", "-separated pieces does |
| CubeConundrum.ParseSetLastCount | 2023/src/bin/02.rs:69-85 | each colour of a parsed set is the count of the last piece naming it, or 0 |
| CubeConundrum.GameParts | 2023/src/bin/02.rs:39-42 | a line without the "Game " prefix is refused; a split line is the prefix, the id text, ": " and the sets, put back together |
| CubeConundrum.ParseGame | 2023/src/bin/02.rs:38-54 | a parsed game has a `u32` id, and the line is "Game ", that id's text, ": " and the sets |
| CubeConundrum.ParseShownGame | 2023/src/bin/02.rs:38-54 | spelling out "Game <id>: <sets>" and parsing it gives back the id and the parse of the sets |
| CubeConundrum.ImpossibleMonotone | 2023/src/bin/02.rs:14-18 | a bigger bag never makes a possible game impossible |
| CubeConundrum.MaxCount | 2023/src/bin/02.rs:20-29 | the largest count of a colour over all sets: an upper bound that some set attains, 0 when there are no sets |
| CubeConundrum.FewestPossible | 2023/src/bin/02.rs:20-29 | the fewest-cubes bag allows the game |
| CubeConundrum.FewestIsLeast | 2023/src/bin/02.rs:14-29 | a bag allows the game exactly when it holds at least the fewest-cubes bag, colour by colour |
| CubeConundrum.PowerIsLeast | 2023/src/bin/02.rs:20-29 | the power is the product of the counts of a bag that allows the game, and no bag that allows the game has a smaller product |
| CubeConundrum.PowerZero | 2023/src/bin/02.rs:20-29 | the power is 0 exactly when some colour is never drawn, in particular for a game without sets |
| CubeConundrum.ParseGames | 2023/src/bin/02.rs:90-91 | parsing panics exactly when some line is not a game; otherwise there is one game per line, in order |
| CubeConundrum.PossibleIds | 2023/src/bin/02.rs:92-97 | no ids are left exactly when the bag of 12 red, 13 green and 14 blue makes every game impossible |
| CubeConundrum.PossibleIdsMembers | 2023/src/bin/02.rs:92-97 | the kept ids are exactly the ids of the games the bag allows, at most one per game |
| CubeConundrum.PossibleIdsSum | 2023/src/bin/02.rs:92-98 | summing the kept ids gives the same as summing every id with the impossible games counted as 0 |
| CubeConundrum.Reduce | 2023/src/bin/02.rs:98 | `reduce(add)` is `None` exactly over no values |
| CubeConundrum.PartOne | 2023/src/bin/02.rs:88-101 | panics exactly on a bad line; `None` exactly when every game is impossible, which includes empty input; otherwise the sum over all games of the id of each game the bag allows |
| CubeConundrum.PartTwo | 2023/src/bin/02.rs:103-111 | panics exactly on a bad line; `None` exactly on empty input |
| CubeConundrum.PossibleIdsBounded | 2023/src/bin/02.rs:92-98 | the id sum of the possible games is at most the sum of all ids |
| GearRatios.MakeGrid | 2023/src/bin/03.rs:11-23 | panics exactly on no lines or an empty first line; the width is the first line's length and the cells are all lines end to end, with fewer than a row left over |
| GearRatios.AtRectangular | 2023/src/bin/03.rs:11-23 | for equal-length lines the flattened grid reads line `y`, column `x` at `(x, y)`, and its height is the line count |
| GearRatios.At | 2023/src/bin/03.rs:43-47 | a cell is read exactly when the point lies inside the `w` by `h` grid |
| GearRatios.DigitsFromRun | 2023/src/bin/03.rs:36-37 | the run of digits from a column: all digits, and ended by the line's end or a non-digit |
| GearRatios.LineRunsSound | 2023/src/bin/03.rs:27-37 | every run found on a line is a maximal digit run, and runs come left to right |
| GearRatios.LineRunAt | 2023/src/bin/03.rs:27-37 | the run at any index of a line's scan is a maximal digit run of that line at or after the starting column |
| GearRatios.LineRunsOrdered | 2023/src/bin/03.rs:27-37 | of two runs found on a line, the earlier one starts further left |
| GearRatios.LineRunsComplete | 2023/src/bin/03.rs:27-37 | every maximal digit run of a line is found |
| GearRatios.AllRunsComplete | 2023/src/bin/03.rs:27-58 | the scan finds exactly the whole numbers of the schematic, line by line |
| GearRatios.FlagRun | 2023/src/bin/03.rs:38-52 | the `is_part` flag ends set exactly when some digit of the number has a symbol among its in-grid neighbours |
| GearRatios.IsPartIff | 2023/src/bin/03.rs:40-51 | a number is a part exactly when one of its digits touches a symbol |
| GearRatios.PartsEntries | 2023/src/bin/03.rs:54-56 | the stored entries are exactly the parts, each under its first digit's position and with its value |
| GearRatios.SchematicParts | 2023/src/bin/03.rs:25-58 | storing panics exactly when some part's value does not fit a `u32` |
| GearRatios.PartsOrdered | 2023/src/bin/03.rs:27-56 | the stored parts come in reading order, so no two share a position and no `insert` replaces an earlier part |
| GearRatios.PartsSum | 2023/src/bin/03.rs:54-60 | summing the stored values adds up exactly the values of the parts among the scanned numbers |
| GearRatios.PartOne | 2023/src/bin/03.rs:10-61 | panics exactly on an empty schematic or first line, or on an oversized part number; otherwise `Some` of the sum, over every whole number of the schematic taken once, of its value when it touches a symbol |
| GearRatios.PartOneCountsOnce | 2023/src/bin/03.rs:25-60 | the numbers summed are every whole number of the schematic, none repeated, and the stored positions are pairwise distinct |
| GearRatios.NoSymbolNoPart | 2023/src/bin/03.rs:10-61 | a schematic without symbols has no parts, so the answer is `Some(0)` |
| GearRatios.AdjacentIff | 2023/src/bin/03.rs:94-108 | a number is filed under a star exactly when one of its digits has that star among its neighbours |
| GearRatios.AdjacentIsPart | 2023/src/bin/03.rs:101-108 | a number next to a star is always a part |
| GearRatios.Touching | 2023/src/bin/03.rs:106-107 | the numbers filed under a star are exactly the runs adjacent to it |
| GearRatios.GearRatio | 2023/src/bin/03.rs:118-131 | a star that touches other than exactly two numbers contributes 0 |
| GearRatios.GearRatioOfPair | 2023/src/bin/03.rs:118-131 | a star touching exactly the numbers `a` and `b` contributes the product of their values |
| GearRatios.LookupPart | 2023/src/bin/03.rs:112-114 | a stored part is found again under its own position, with its value |
| GearRatios.GearRatioDone | 2023/src/bin/03.rs:126-128 | once the parts are stored, the `unwrap` of a star's lookup cannot fail |
| GearRatios.PartTwo | 2023/src/bin/03.rs:63-134 | panics exactly when part one does: on an empty schematic or first line, or on an oversized part number; otherwise always `Some` |
| Scratchcards.ParseNumbers | 2023/src/bin/04.rs:40-47 | the list parses exactly when every word is an `i32`, and the set holds exactly the words' values |
| Scratchcards.ParseShownNumbers | 2023/src/bin/04.rs:40-47 | any `i32` values, negative ones included, written out with single spaces parse back to the set of those values, so repeats are kept once |
| Scratchcards.ParseCard | 2023/src/bin/04.rs:5-12 | a card parses exactly when every word of both lists is an `i32`; it keeps the id, and each set holds exactly the values its list's words spell |
| Scratchcards.ParseShownCard | 2023/src/bin/04.rs:5-12 | a card whose two lists are written out with single spaces parses back to its id and the sets of its winning numbers and your numbers |
| Scratchcards.Matches | 2023/src/bin/04.rs:15-17 | the matches are exactly your numbers that are also winning numbers |
| Scratchcards.Points | 2023/src/bin/04.rs:59-64 | a card scores nothing exactly when it has no match |
| Scratchcards.PointsDouble | 2023/src/bin/04.rs:59-64 | the first match scores 1 and each further match doubles the score |
| Scratchcards.TotalPoints | 2023/src/bin/04.rs:51-65 | the total is 0 exactly when no card has a match |
| Scratchcards.ParseDeck | 2023/src/bin/04.rs:51-55 | panics exactly when some line is not a card; otherwise one card per line, in order |
| Scratchcards.PartOne | 2023/src/bin/04.rs:50-67 | panics exactly on a bad line; the total is 0 exactly when no card matches |
| Scratchcards.Copies | 2023/src/bin/04.rs:19-29 | a card is held at least once: itself plus what its matches win |
| Scratchcards.NoMatchesOneCopy | 2023/src/bin/04.rs:19-29 | a card without matches is held exactly once |
| Scratchcards.CopiesFuel | 2023/src/bin/04.rs:19-29 | more fuel changes nothing once the recursion has finished |
| Scratchcards.CopiesDone | 2023/src/bin/04.rs:19-29 | when every card wins only later cards and stays inside the deck, the recursion finishes within the cards after it |
| Scratchcards.PartTwo | 2023/src/bin/04.rs:69-77 | a bad line panics; otherwise at least one card is held per line |
| Scratchcards.PartTwoDone | 2023/src/bin/04.rs:69-77 | a well-numbered deck whose wins stay inside it never panics |
| SeedFertilizer.Convert | 2023/src/bin/05.rs:171-203 | the three pieces hold exactly the input ids below the rule's domain, the shifted ids inside it and the ids above it, so a rule of length 0 moves no id; their sizes add up to the input's |
| SeedFertilizer.SplitAllCovers | 2023/src/bin/05.rs:112-123 | after one rule, the finished pieces are exactly the shifted in-domain ids, and the pieces forwarded to the next rule are exactly the pending ids outside the domain |
| SeedFertilizer.SplitAllSize | 2023/src/bin/05.rs:112-123 | one rule neither loses nor duplicates an id |
| SeedFertilizer.PassCovers | 2023/src/bin/05.rs:108-130 | the rule loop moves each id by the first rule whose domain holds it and passes ids no rule holds through unchanged |
| SeedFertilizer.PassSize | 2023/src/bin/05.rs:108-130 | the rule loop keeps the number of ids |
| SeedFertilizer.Correspond | 2023/src/bin/05.rs:105-133 | every piece is a valid interval; a map without rules hands back the input interval |
| SeedFertilizer.CorrespondIsLookup | 2023/src/bin/05.rs:105-133 | the pieces cover exactly the images of the input's ids under first-match lookup |
| SeedFertilizer.CorrespondPreservesSize | 2023/src/bin/05.rs:105-133 | the pieces hold as many ids as the input |
| SeedFertilizer.MapAllCovers | 2023/src/bin/05.rs:24-29 | one stage maps a collection to exactly the images of its ids |
| SeedFertilizer.FoldCovers | 2023/src/bin/05.rs:24-29 | the fold covers exactly the ids some seed reaches through every stage |
| SeedFertilizer.FoldSize | 2023/src/bin/05.rs:24-29 | the fold keeps the number of ids |
| SeedFertilizer.ChainFrom | 2023/src/bin/05.rs:16-22 | the chain starts at the map from "seed", each next map's source is the previous map's destination, and it stops only where no map continues or the fuel bound is reached |
| SeedFertilizer.MinSoilNumber | 2023/src/bin/05.rs:15-32 | for any rules, those of length 0 included: panics exactly when the chain from "seed" never ends or there are no seeds; otherwise the answer is the location of some seed id through the chain, and no seed id reaches a lower one |
| SeedFertilizer.ChainRepeats | 2023/src/bin/05.rs:17-22 | a chain still going after one step per map has visited some category twice, so the `while let` never ends |
| SeedFertilizer.MinStart | 2023/src/bin/05.rs:31 | the minimum start: a lower bound that some interval attains |
| SeedFertilizer.LowestLocationIsLeastTrace | 2023/src/bin/05.rs:15-32 | panics exactly when there are no seeds; otherwise the answer is the location of some seed id, and no seed id reaches a lower one |
| SeedFertilizer.SingleSeeds | 2023/src/bin/05.rs:78-81 | the seed intervals cover exactly the listed ids |
| SeedFertilizer.RangedSeeds | 2023/src/bin/05.rs:43-51 | panics exactly on an odd count or a zero length; otherwise covers exactly the ids of each `start..start+len`, with sizes summing to the lengths |
| SeedFertilizer.LookupCases | 2023/src/bin/05.rs:105-133 | an id is moved by some rule that holds it, or left alone when none does |
| SeedFertilizer.ReorderedRulesLookup | 2023/src/bin/05.rs:108-127 | with disjoint domains, listing the rules in another order moves every id the same way |
| SeedFertilizer.ReorderedRulesCorrespond | 2023/src/bin/05.rs:105-133 | with disjoint domains, the output covers the same ids whatever the rule order |
| SeedFertilizer.SeedSeventyNine | 2023/src/bin/05.rs:171-203 | seed 79 under rules "50 98 2" and "52 50 48" becomes soil 81 |
| SeedFertilizer.SeedRangeInsideRule | 2023/src/bin/05.rs:188-194 | seeds 79..=92 inside rule "52 50 48" become exactly 81..=94 |
| SeedFertilizer.ConvertAsWritten | 2023/src/bin/05.rs:179-202 | panics exactly when `src + len - 1` underflows, or when a rule of length 0 with destination 0 has its start inside the input; agrees with `Convert` for rules of positive length; a rule of length 0 otherwise yields the empty overlap `dst..=dst-1` exactly when its start lies inside the input |
| SeedFertilizer.SplitAllAsWritten | 2023/src/bin/05.rs:112-123 | one rule panics exactly when converting some pending range does, and agrees with the corrected split for a rule of positive length |
| SeedFertilizer.PassAsWritten | 2023/src/bin/05.rs:108-130 | the rule loop agrees with the corrected one when every rule has positive length |
| SeedFertilizer.CorrespondAsWritten | 2023/src/bin/05.rs:105-133 | `correspond` agrees with the corrected one when every rule has positive length |
| SeedFertilizer.MapAllAsWritten | 2023/src/bin/05.rs:24-29 | one stage maps no ranges to none, and agrees with the corrected stage when every rule has positive length |
| SeedFertilizer.FoldAsWritten | 2023/src/bin/05.rs:24-29 | the fold maps no ranges to none, and agrees with the corrected fold when every rule of every stage has positive length |
| SeedFertilizer.MinSoilNumberAsWritten | 2023/src/bin/05.rs:15-32 | panics when the chain never ends or there are no seeds; agrees with `MinSoilNumber` when every rule of the chain has positive length |
| SeedFertilizer.ZeroLengthPhantom | 2023/src/bin/05.rs:180-194 | under the one rule "1 5 0" the seeds 3..=7 answer 1 as written, a location no seed reaches, where the corrected answer is 3 |
| SeedFertilizer.ZeroLengthUnderflow | 2023/src/bin/05.rs:180-191 | as written, the rules "5 0 0" and "0 5 0" make the seeds 3..=7 panic, where the corrected answer under "5 0 0" is 3 |
| WaitForIt.WinningStrategies | 2023/src/bin/06.rs:12-16 | exactly the winning hold times, ascending, and fewer of them than the race's duration |
| WaitForIt.WinsSymmetric | 2023/src/bin/06.rs:14 | holding for `t` wins exactly when holding for the rest of the race does |
| WaitForIt.EndsNeverWin | 2023/src/bin/06.rs:14 | holding for no time, or for the whole race, never wins |
| WaitForIt.WinsContiguous | 2023/src/bin/06.rs:12-16 | the winning hold times form one unbroken range |
| WaitForIt.UnwinnableIff | 2023/src/bin/06.rs:12-16 | no strategy wins exactly when no hold time beats the record |
| WaitForIt.Columns | 2023/src/bin/06.rs:23-24 | the columns are the line's words after the label |
| WaitForIt.Lines | 2023/src/bin/06.rs:20 | panics exactly on input without a newline; otherwise the time line, which holds no newline, then "\n" and the rest |
| WaitForIt.Zip | 2023/src/bin/06.rs:26-27 | the columns paired up, cut to the shorter list |
| WaitForIt.ZipRaces | 2023/src/bin/06.rs:26-32 | panics exactly when some paired column is not a `u64`; otherwise one race per pair, in order |
| WaitForIt.Races | 2023/src/bin/06.rs:19-33 | panics exactly on input without a newline or when some paired column is not a `u64`; otherwise one race per pair of columns, cut to the shorter line, each read from its time and distance words |
| WaitForIt.RacesOfSheet | 2023/src/bin/06.rs:19-33 | any races written out as a "Time:" line and a "Distance:" line read back as those races |
| WaitForIt.GlueLength | 2023/src/bin/06.rs:39-40 | `collect::<String>()` gives a string as long as all the columns together |
| WaitForIt.GlueAt | 2023/src/bin/06.rs:39-40 | each column sits unchanged in the collected string, right after the columns before it |
| WaitForIt.OneRace | 2023/src/bin/06.rs:35-46 | panics when the input has no newline or a collected line is not a `u64`; otherwise the race is the one read from the two collected strings |
| WaitForIt.OneRaceOfPieces | 2023/src/bin/06.rs:35-46 | a sheet whose time columns glue to a race's duration and whose distance columns glue to its record reads back as that race |
| WaitForIt.OneRaceExample | 2023/src/bin/06.rs:35-46 | the sheet with times 7, 15, 30 and distances 9, 40, 200 reads as the single race of 71530 ms and 940200 mm |
| WaitForIt.OneColumn | 2023/src/bin/06.rs:19-46 | with one column per line, the race read by part two is the only race part one reads |
| WaitForIt.Ways | 2023/src/bin/06.rs:51-54 | the product is 1 over no races, and 0 exactly when some race cannot be won |
| WaitForIt.PartOne | 2023/src/bin/06.rs:48-57 | panics exactly when the races do; the product is 0 exactly when some race cannot be won |
| WaitForIt.PartTwo | 2023/src/bin/06.rs:59-62 | panics exactly when the single race does; the count is 0 exactly when it cannot be won, and otherwise below its duration |
| CamelCards.ParseCard | 2023/src/bin/07.rs:59-79 | exactly the letters "123456789TJQKA" are cards, each read back from its letter, and 'J' is the joker |
| CamelCards.ParseLetter | 2023/src/bin/07.rs:41-79 | every card's letter parses back to it, and the joker ranks below every other card |
| CamelCards.ParseHand | 2023/src/bin/07.rs:32-37 | a hand parses exactly when each letter is a card, and it keeps the letters' order |
| CamelCards.TallyCounts | 2023/src/bin/07.rs:129-132 | each card's slot holds how often it occurs, and the slots add up to the hand size |
| CamelCards.MostFrequent | 2023/src/bin/07.rs:95-115 | jokers stand for a non-joker that occurs at least as often as any other, the ace when there is none |
| CamelCards.SubstituteCounts | 2023/src/bin/07.rs:117-127 | after the jokers are replaced no joker is left, the most frequent card gains one per joker, every other card keeps its count, and every non-joker stays in place |
| CamelCards.NoJokersKept | 2023/src/bin/07.rs:117-127 | a hand without jokers is left as it is |
| CamelCards.FiveCardsClassify | 2023/src/bin/07.rs:133-142 | every five-card hand gets a type, so the `panic!` arm is unreachable |
| CamelCards.TypeByCounts | 2023/src/bin/07.rs:129-142 | five cards whose replaced hand holds five, four or three of one card, the rest single, are five of a kind, four of a kind or three of a kind |
| CamelCards.PairsAtMost | 2023/src/bin/07.rs:129-142 | five cards whose replaced hand holds no card more than twice rank no higher than two pair |
| CamelCards.TwoCardsUntyped | 2023/src/bin/07.rs:133-142 | two different non-jokers give two counts of one, which match no arm of the table, so the hand has no type |
| CamelCards.FiveJokers | 2023/src/bin/07.rs:95-142 | five jokers stand for five aces and are five of a kind |
| CamelCards.TypeDecides | 2023/src/bin/07.rs:12-17 | hands of different types compare by type alone |
| CamelCards.FirstCardDecides | 2023/src/bin/07.rs:12-17 | hands of the same type whose first cards differ compare by those cards |
| CamelCards.AcesWithJoker | 2023/src/bin/07.rs:95-142 | "AKQAJ": the joker joins the pair of aces, making three of a kind |
| CamelCards.AcesAndKings | 2023/src/bin/07.rs:95-142 | "AKQAK": two pairs, typed no higher than two pair |
| CamelCards.KingsWithJoker | 2023/src/bin/07.rs:95-142 | "JKKK2": the joker becomes a fourth king, making four of a kind |
| CamelCards.FiveJokersBeatFourAces | 2023/src/bin/07.rs:202 | "JJJJJ" is five of a kind and beats "AAAA2", four of a kind |
| CamelCards.JokerMakesThree | 2023/src/bin/07.rs:203 | "AKQAJ" beats "AKQAK" |
| CamelCards.JokerRanksLowest | 2023/src/bin/07.rs:204 | "JKKK2" and "QQQQ2" are both four of a kind, and the first loses because the joker ranks below the queen |
| CamelCards.CompareHandsFlip | 2023/src/bin/07.rs:12-18 | hands compare antisymmetrically, and only identical hands compare equal |
| CamelCards.CompareHandsTransitive | 2023/src/bin/07.rs:12-18 | the hand order is transitive, so together with the above it is a total order |
| CamelCards.RankHands | 2023/src/bin/07.rs:156 | ranking reorders the hands without adding or losing one |
| CamelCards.RankedHandsAscend | 2023/src/bin/07.rs:156 | the ranked hands are in ascending order |
| CamelCards.Winnings | 2023/src/bin/07.rs:156-165 | panics exactly when two or more hands are ranked and one of them has no type, since sorting compares every hand then; no hands win 0, and a lone hand, never compared, wins its bid |
| CamelCards.LoneHandNeverTyped | 2023/src/bin/07.rs:156-165 | the lone hand "AK" has no type, yet with bid 5 it wins 5 without a panic |
| CamelCards.WinningsBounds | 2023/src/bin/07.rs:158-165 | total winnings lie between the sum of the bids and the hand count times that sum |
| CamelCards.SumBidsPermutation | 2023/src/bin/07.rs:158-165 | the bid sum does not depend on the order of the hands |
| CamelCards.ParseLine | 2023/src/bin/07.rs:147-154 | a line is a hand and a `u32` bid, read from its first two words: each card spells the matching letter of the first word, and the bid is the second word's decimal value |
| CamelCards.ParseShownLine | 2023/src/bin/07.rs:147-154 | a non-empty hand spelled out, a space and a `u32` bid read back as that hand and bid |
| CamelCards.ParseHands | 2023/src/bin/07.rs:147-154 | panics exactly on a bad line; otherwise one hand per line, in order |
| CamelCards.PartOne | 2023/src/bin/07.rs:146-168 | panics exactly when a line is malformed, or when there are two or more lines and some hand cannot be typed; a single well-formed line answers its bid |
| HauntedWasteland.NodeMap | 2023/src/bin/08.rs:45-51 | the map's keys are exactly the node ids, and a repeated id keeps its last node |
| HauntedWasteland.MakeDocument | 2023/src/bin/08.rs:42-57 | panics exactly on input without a blank line; the instructions are the text before the first one, which contains no blank line of its own |
| HauntedWasteland.Gcd | 2023/src/bin/08.rs:70-80 | the gcd is 0 exactly when both arguments are |
| HauntedWasteland.GcdDivides | 2023/src/bin/08.rs:70-80 | the gcd divides both arguments |
| HauntedWasteland.GcdGreatest | 2023/src/bin/08.rs:70-80 | every common divisor divides the gcd |
| HauntedWasteland.Lcm | 2023/src/bin/08.rs:82-93 | the division panics exactly when both arguments are 0 |
| HauntedWasteland.LcmCommonMultiple | 2023/src/bin/08.rs:82-93 | the lcm is a multiple of both arguments |
| HauntedWasteland.LcmOne | 2023/src/bin/08.rs:82-93 | the fold's seed is neutral: `lcm(1, s) = s` |
| HauntedWasteland.Move | 2023/src/bin/08.rs:16-33 | a step panics on an unknown node, or on a letter other than 'L' or 'R' where only those are accepted; 'L' goes left, and otherwise the step goes right |
| HauntedWasteland.StepsToEnd | 2023/src/bin/08.rs:16-33 | 0 steps from a node that already ends in 'Z' |
| HauntedWasteland.StepsToEndSound | 2023/src/bin/08.rs:16-33 | a finished count is the number of steps to the first node ending in 'Z' |
| HauntedWasteland.StepsToEndComplete | 2023/src/bin/08.rs:16-33 | with enough fuel, a walk that first meets a 'Z' node after `n` steps reports `n` |
| HauntedWasteland.PartOne | 2023/src/bin/08.rs:95-118 | `None` exactly for an empty instruction list; otherwise at least one step |
| HauntedWasteland.PartOneSound | 2023/src/bin/08.rs:95-118 | the count is that of the walk's first arrival at "ZZZ" |
| HauntedWasteland.PartOneComplete | 2023/src/bin/08.rs:95-118 | when the walk first reaches "ZZZ" after `n` steps within the fuel bound, part one answers `n` |
| HauntedWasteland.FoldLcmMultiple | 2023/src/bin/08.rs:120-131 | the fold's result is a multiple of its seed and of every walk's length |
| HauntedWasteland.PartTwo | 2023/src/bin/08.rs:120-131 | the answer is a common multiple of the step counts from every node ending in 'A' |
| MirageMaintenance.Diffs | 2023/src/bin/09.rs:9-13 | one difference fewer than values |
| MirageMaintenance.Table | 2023/src/bin/09.rs:3-23 | a table that starts with the history, in which each row is the differences of the one above, ending at the first all-zero row below the history |
| MirageMaintenance.GenDifferences | 2023/src/bin/09.rs:3-23 | panics exactly on an empty history (the `len() - 1` underflow) |
| MirageMaintenance.ExtendedTable | 2023/src/bin/09.rs:25-38 | after appending, every row's differences are still the row below it, and the last row stays all zero |
| MirageMaintenance.ConstantNext | 2023/src/bin/09.rs:25-38 | a constant history continues with the same value |
| MirageMaintenance.ArithmeticNext | 2023/src/bin/09.rs:25-38 | an arithmetic history continues with its next term |
| MirageMaintenance.ArithmeticPrevious | 2023/src/bin/09.rs:56-67 | extrapolating a reversed arithmetic history gives the term before its first |
| MirageMaintenance.ParseHistory | 2023/src/bin/09.rs:43-46 | a line parses exactly when every word is an `i32`, one value per word, each the value its word spells |
| MirageMaintenance.ParseShownHistory | 2023/src/bin/09.rs:43-46 | any `i32` values written out with single spaces parse back to the same values in the same order |
| MirageMaintenance.Histories | 2023/src/bin/09.rs:42-46 | panics exactly when some line fails to parse; otherwise one history per line |
| MirageMaintenance.PartOne | 2023/src/bin/09.rs:40-54 | panics exactly when some line does not parse or is empty |
| MirageMaintenance.PartTwo | 2023/src/bin/09.rs:56-71 | panics on exactly the inputs where part one does |
| PipeMaze.GetVal | 2023/src/bin/10.rs:18-26 | `None` exactly off the grid, including past the end of a short row; otherwise the character there |
| PipeMaze.Neighbors | 2023/src/bin/10.rs:41-50 | up, down, left and right, which together are exactly the adjacent points |
| PipeMaze.PipeOffsetsShape | 2023/src/bin/10.rs:72-83 | exactly the six pipe characters have ends, and those are two different unit steps |
| PipeMaze.PossibleMoves | 2023/src/bin/10.rs:89-93 | panics exactly off the grid or on a non-pipe; otherwise the pipe's two ends, two different adjacent points |
| PipeMaze.StartingPos | 2023/src/bin/10.rs:28-39 | panics exactly without an 'S'; otherwise the first 'S' in reading order |
| PipeMaze.Connecting | 2023/src/bin/10.rs:53-67 | panics exactly when a candidate holds a non-pipe other than '.'; otherwise keeps exactly the candidates whose pipes lead back, in order |
| PipeMaze.ConnectingFirst | 2023/src/bin/10.rs:53-67 | the first kept candidate is the first that leads back |
| PipeMaze.StartNeighbors | 2023/src/bin/10.rs:53-70 | two different adjacent points whose pipes lead back, the first in neighbour order first; a blocked neighbour panics |
| PipeMaze.StepForward | 2023/src/bin/10.rs:124 | the walk never turns back to the point it just left, and always moves to an adjacent point |
| PipeMaze.Advance | 2023/src/bin/10.rs:115-125 | a round panics exactly at a non-pipe, ends exactly when the loop closes, and otherwise steps forward |
| PipeMaze.WalkSound | 2023/src/bin/10.rs:115-125 | a walk that comes back steps from pipe to pipe and stops at the first pipe leading to the start |
| PipeMaze.Loop | 2023/src/bin/10.rs:108-126 | a grid without a start panics; a loop starts at the start and has at least two points |
| PipeMaze.LoopClosed | 2023/src/bin/10.rs:108-126 | the loop is a closed path of orthogonal steps from the start |
| PipeMaze.PartOne | 2023/src/bin/10.rs:108-126 | the farthest point along the loop: half the loop's length, rounded up |
| PipeMaze.HalfTowardZero | 2023/src/bin/10.rs:96-100 | `i32` division by 2 truncates toward zero |
| PipeMaze.ClosedSumRotate | 2023/src/bin/10.rs:95-102 | the closed shoelace sum does not depend on which vertex the loop is listed from |
| PipeMaze.ClosedSumTranslate | 2023/src/bin/10.rs:95-102 | the closed shoelace sum, and so the area, does not change when the loop moves |
| PipeMaze.OpenSumTranslate | 2023/src/bin/10.rs:95-102 | moving the loop changes the open sum by a term in the gap between its first and last vertex |
| PipeMaze.ShoelaceAsWrittenMoves | 2023/src/bin/10.rs:95-102 | the same loop one row higher gets area 1 from the open sum where it got 2, while the closed sum gives 1 both times |
| PipeMaze.PicksAsWritten | 2023/src/bin/10.rs:104-106 | as written, panics exactly when the area is below half the boundary; otherwise the count satisfies Pick's theorem |
| PipeMaze.Picks | 2023/src/bin/10.rs:104-106 | corrected, panics only when no interior count satisfies Pick's theorem, and otherwise satisfies it |
| PipeMaze.PicksAgree | 2023/src/bin/10.rs:104-106 | wherever the code as written answers, the corrected code gives the same answer |
| PipeMaze.PicksUnderflow | 2023/src/bin/10.rs:104-106 | area 1 with boundary 4 panics as written and gives 0 corrected |
| PipeMaze.PartTwoAsWritten | 2023/src/bin/10.rs:128-152 | the answer satisfies Pick's theorem for the open shoelace area |
| PipeMaze.PartTwo | 2023/src/bin/10.rs:128-152 | the answer satisfies Pick's theorem for the closed polygon's area |
| PipeMaze.SquareWalk | 2023/src/bin/10.rs:108-126 | the smallest loop is walked start, down, down-right, right |
| PipeMaze.ShoelaceMissesClosingEdge | 2023/src/bin/10.rs:95-102 | on the smallest loop the open sum gives area 2 and the closed sum area 1, so part two answers 1 as written and 0 corrected |
| PipeMaze.TopWalk | 2023/src/bin/10.rs:108-126 | on the loop one row higher the start's upper neighbour is off the grid, and the walk goes start, down, down-right, right |
| PipeMaze.PartTwoUnderflows | 2023/src/bin/10.rs:104-106 | on the loop one row higher part two panics as written and answers 0 corrected |
| CosmicExpansion.GalaxiesFrom | 2023/src/bin/11.rs:54-60 | exactly the '#' cells, in reading order |
| CosmicExpansion.EmptyBelow | 2023/src/bin/11.rs:62-71 | exactly the lines below the bound that no galaxy lies in |
| CosmicExpansion.FromLines | 2023/src/bin/11.rs:47-78 | panics exactly on no lines; the galaxies are the '#' cells, the empty columns are those of the first line's width without a '#', and the empty rows are the lines without one |
| CosmicExpansion.Pairs | 2023/src/bin/11.rs:17 | each pair `i < j` once: n·(n-1)/2 pairs |
| CosmicExpansion.AxisDistance | 2023/src/bin/11.rs:19-33 | the coordinate gap, plus `age - 1` more for each empty line strictly between |
| CosmicExpansion.DistanceSymmetric | 2023/src/bin/11.rs:19-35 | a pair's distance does not depend on its order |
| CosmicExpansion.TotalDistance | 2023/src/bin/11.rs:15-38 | age 0 panics (`age - 1`) exactly when there is a pair; fewer than two galaxies give 0 |
| CosmicExpansion.TotalAffine | 2023/src/bin/11.rs:15-38 | the total is the plain Manhattan sum plus `age - 1` times the pairs' empty lines |
| CosmicExpansion.AxisExpanded | 2023/src/bin/11.rs:19-35 | the axis distance is the plain distance between the two coordinates after the universe expands |
| CosmicExpansion.DistanceExpanded | 2023/src/bin/11.rs:15-38 | a pair's distance is the Manhattan distance between the galaxies' expanded positions |
| CosmicExpansion.PartOne | 2023/src/bin/11.rs:81-87 | panics exactly on empty input |
| CosmicExpansion.PartTwo | 2023/src/bin/11.rs:89-95 | panics exactly on empty input |
| CosmicExpansion.PartsAffine | 2023/src/bin/11.rs:81-95 | part two exceeds part one by 999998 times the pairs' empty lines |
| HistorianHysteria.ParseLine | 2024/src/bin/01.rs:41-52 | a line is read exactly when its first two words are `u32` ids, and gives the decimal values of those two words, further words ignored |
| HistorianHysteria.ParseShownLine | 2024/src/bin/01.rs:41-52 | two `u32` ids written with any run of whitespace between them read back as the same pair |
| HistorianHysteria.Columns | 2024/src/bin/01.rs:39-53 | panics exactly on a bad line; otherwise both columns are as long as the input, row by row |
| HistorianHysteria.Appearances | 2024/src/bin/01.rs:55-61 | the counts hold exactly the right column's ids, each with how often it occurs |
| HistorianHysteria.FromLines | 2024/src/bin/01.rs:38-68 | panics exactly on a bad line; the columns are equally long and the counts are those of the right column |
| HistorianHysteria.Sort | 2024/src/bin/01.rs:18-19 | ascending, with the same elements |
| HistorianHysteria.DistancePermutation | 2024/src/bin/01.rs:15-22 | reordering either column leaves the total distance unchanged |
| HistorianHysteria.TotalDistance | 2024/src/bin/01.rs:15-22 | equal-length columns are 0 apart exactly when they hold the same ids |
| HistorianHysteria.SimilarityScore | 2024/src/bin/01.rs:24-29 | through a map that counts the right column, the score is each left id times its occurrences on the right |
| HistorianHysteria.WeightedCounts | 2024/src/bin/01.rs:24-29 | weighting the left ids by any map that counts the right column gives each left id times its occurrences on the right |
| HistorianHysteria.AbsentAddNothing | 2024/src/bin/01.rs:24-29 | left ids missing from the right column add nothing |
| HistorianHysteria.PartOne | 2024/src/bin/01.rs:71-73 | panics exactly on a bad line |
| HistorianHysteria.PartTwo | 2024/src/bin/01.rs:75-77 | panics on the same inputs as part one; otherwise the similarity score |
| RedNosedReports.Remove | 2024/src/bin/02.rs:55-56 | one level fewer, the rest kept in order |
| RedNosedReports.FirstBad | 2024/src/bin/02.rs:12-30 | `None` exactly for a safe report; otherwise the first window after which the report stops being safe |
| RedNosedReports.ScanSound | 2024/src/bin/02.rs:12-30 | the scan stops exactly at the first window that breaks safety |
| RedNosedReports.IsSafe | 2024/src/bin/02.rs:12-30 | safe exactly when every step is 1 to 3 and all go the same direction; reports under two levels are safe |
| RedNosedReports.DampenedAsWritten | 2024/src/bin/02.rs:32-59 | as written, a safe report passes, and an unsafe one passes exactly when removing one of the two levels of its first bad window makes it safe |
| RedNosedReports.Dampened | 2024/src/bin/02.rs:32-59 | corrected, a report passes exactly when it is safe or is safe after removing any one level |
| RedNosedReports.SafeIsDampened | 2024/src/bin/02.rs:32-50 | a safe report passes both dampeners |
| RedNosedReports.AsWrittenSound | 2024/src/bin/02.rs:32-59 | the code as written never accepts a report the corrected dampener rejects |
| RedNosedReports.DampenerMissesEarlierLevel | 2024/src/bin/02.rs:32-59 | `[3, 2, 3, 4, 5]` is rejected as written but safe without its first level |
| RedNosedReports.FlatUnsafe | 2024/src/bin/02.rs:24-26 | a step of 0 is unsafe |
| RedNosedReports.TurnUnsafe | 2024/src/bin/02.rs:17-21 | a change of direction is unsafe |
| RedNosedReports.ParseReport | 2024/src/bin/02.rs:68-71 | a report parses exactly when every word is an `i32`, one level per word, each the value its word spells |
| RedNosedReports.ParseShownReport | 2024/src/bin/02.rs:68-71 | any `i32` levels written out with single spaces parse back to the same report |
| RedNosedReports.CountSafe | 2024/src/bin/02.rs:76-94 | panics exactly on a bad line; otherwise at most one per line |
| RedNosedReports.CountSafeCounts | 2024/src/bin/02.rs:76-94 | the count is the number of lines whose report passes the check |
| RedNosedReports.PartOne | 2024/src/bin/02.rs:76-83 | panics exactly on a bad line; otherwise the number of lines whose report is safe |
| RedNosedReports.PartTwoAsWritten | 2024/src/bin/02.rs:85-94 | panics exactly on a bad line; otherwise the number of lines whose report the as-written dampener accepts |
| RedNosedReports.PartTwo | 2024/src/bin/02.rs:85-94 | panics exactly on a bad line; otherwise the number of lines whose report is safe or safe after removing any one level |
| RedNosedReports.PartsOrdered | 2024/src/bin/02.rs:76-94 | part one counts at most what part two as written counts, which is at most what the corrected part two counts |
| MullItOver.Ops | 2024/src/bin/03.rs:21-45 | panics exactly when some `mul` operand does not fit an `i32`; at most one operation per match |
| MullItOver.MemoryExpected | 2024/src/bin/03.rs:19-48 | each `mul` gives one operation, in order, enabled exactly when the last `do()`/`don't()` before it was a `do()` or there was none |
| MullItOver.NoDontAllEnabled | 2024/src/bin/03.rs:36-43 | without `don't()` every operation is enabled |
| MullItOver.PartOne | 2024/src/bin/03.rs:58-67 | panics exactly on an oversized operand; otherwise the sum of every `mul`'s product |
| MullItOver.PartTwo | 2024/src/bin/03.rs:69-84 | panics exactly on an oversized operand; otherwise the sum of the enabled `mul`s' products |
| MullItOver.PartsCompared | 2024/src/bin/03.rs:58-84 | part two never exceeds part one, and equals it when no `don't()` occurs |
| CeresSearch.FromRows | 2024/src/bin/04.rs:72-83 | the height is the row count and the width is the first row's length |
| CeresSearch.Points | 2024/src/bin/04.rs:21-24 | every cell of the rectangle once: h·w distinct points |
| CeresSearch.Get | 2024/src/bin/04.rs:26-28 | `None` exactly off the grid, including negative coordinates and past the end of a short row |
| CeresSearch.NegateScale | 2024/src/bin/04.rs:120-138 | negation is scaling by -1 and undoes itself |
| CeresSearch.MoveNegate | 2024/src/bin/04.rs:93-98 | moving by an offset and then by its negation returns to the start |
| CeresSearch.StillNeverXmas | 2024/src/bin/04.rs:108-112 | the `(0, 0)` offset reads `X` twice and never `XMAS` |
| CeresSearch.NumXmas | 2024/src/bin/04.rs:30-46 | 0 from any cell but an `X`; from an `X`, the directions in which `XMAS` reads, at most 8 |
| CeresSearch.StillIgnored | 2024/src/bin/04.rs:30-46 | counting over all nine offsets equals counting over the eight compass directions |
| CeresSearch.DescribesMasSymmetric | 2024/src/bin/04.rs:48-52 | a diagonal reads `MAS` one way exactly when it does looking the other way |
| CeresSearch.IsXMasA | 2024/src/bin/04.rs:54-63 | a cell qualifies exactly when it holds `A` and both diagonals through it read `MAS` in some direction |
| CeresSearch.PartOne | 2024/src/bin/04.rs:140-144 | at most 8 per cell of the grid |
| CeresSearch.PartTwo | 2024/src/bin/04.rs:146-150 | at most one per cell, and 0 exactly when no cell is the `A` of an X-`MAS` |
| CeresSearch.OneRow | 2024/src/bin/04.rs:140-144 | the single row `XMAS` holds the word once |
| CeresSearch.OneCross | 2024/src/bin/04.rs:146-150 | `M.S`/`.A.`/`M.S` holds one X-`MAS` |
| PrintQueue.ParseRule | 2024/src/bin/05.rs:58-63 | a line without the bar separator is refused; a rule is read from the two numbers on either side of its first bar |
| PrintQueue.AddRule | 2024/src/bin/05.rs:58-63 | after adding, `x` follows `l` exactly when it did before or `(l, x)` is the new rule |
| PrintQueue.BuildFollows | 2024/src/bin/05.rs:56-65 | the built map orders exactly the pairs that were added |
| PrintQueue.RulesOf | 2024/src/bin/05.rs:56-65 | panics exactly when some rule line does not parse |
| PrintQueue.RulesOfFollows | 2024/src/bin/05.rs:56-65 | `b` must follow `a` exactly when some rule line says so |
| PrintQueue.RepeatedRule | 2024/src/bin/05.rs:56-65 | a repeated rule changes nothing |
| PrintQueue.ParseUpdate | 2024/src/bin/05.rs:69-72 | an update parses exactly when every comma-separated field is a page number, one page per field, never empty |
| PrintQueue.UpdatesOf | 2024/src/bin/05.rs:67-74 | panics exactly on a bad update line; otherwise one non-empty update per line |
| PrintQueue.OrderedUpdate | 2024/src/bin/05.rs:19-27 | ordered exactly when every adjacent pair is ordered by a rule; updates of one page are ordered |
| PrintQueue.MiddlePage | 2024/src/bin/05.rs:29-31 | panics exactly on an empty update; otherwise the page with as many pages after it as before, or one fewer |
| PrintQueue.Compare | 2024/src/bin/05.rs:35-39 | `Less` exactly when a rule puts `b` after `a`; `Equal` exactly when `a` has no rules |
| PrintQueue.SortPages | 2024/src/bin/05.rs:33-42 | the sorted update has the same pages |
| PrintQueue.SortOrders | 2024/src/bin/05.rs:33-42 | for distinct pages on which the rules are a strict total order, the sorted update is ordered |
| PrintQueue.Ordered | 2024/src/bin/05.rs:88-89 | keeps exactly the ordered updates |
| PrintQueue.Unordered | 2024/src/bin/05.rs:101-103 | keeps exactly the updates that are not ordered |
| PrintQueue.Partition | 2024/src/bin/05.rs:82-107 | the two parts together are the updates, each once |
| PrintQueue.SumMiddles | 2024/src/bin/05.rs:90-92 | panics exactly when some update is empty |
| PrintQueue.PartOne | 2024/src/bin/05.rs:82-93 | panics exactly when the input does not parse |
| PrintQueue.PartTwo | 2024/src/bin/05.rs:95-107 | panics exactly when the input does not parse |
| PrintQueue.SwapFixed | 2024/src/bin/05.rs:19-42 | with the one rule that 53 follows 47, `[47, 53]` is ordered, `[53, 47]` is not, and sorting it gives `[47, 53]` |

## Left out

- Input and output: the `advent_of_code::solution!` harness, file reading and `dbg!` are not modelled. Input arrives as a sequence of lines, as `lines()` produces it.
- Machine integer widths: sums, products and `as` casts are unbounded here. This covers `u32`, `u64`, `usize` and `i32` arithmetic in every puzzle, except the `usize` subtraction in `picks` on day 10, whose underflow is modelled as a panic. Parsing does keep each integer type's range, so a number too large for its type still panics.
- Hash iteration order: `HashMap`/`HashSet` are sequences or maps. Only order-independent results are claimed. For the walks from every 'A' node (2023 day 8, part two), the iteration order is a parameter `starts`.
- Regular expressions: `Memory::from_str` (2024 day 3) takes the sequence of regex matches as input. Matching `mul\((\d+),(\d+)\)|do\(\)|don't\(\)` over raw text is not modelled.
- Derived parsers: the `parse_display` patterns (2023 days 4 and 8) are modelled by the pieces they capture (`Scratchcards.ParseCard` takes the id and the two list texts; `HauntedWasteland.NodeMap` takes the parsed nodes).
- Almanac text: `Almanac::from_str`, `with_ranges`' map section, `Map::from_str` and `ConversionRange::from_str` (2023 day 5) are not modelled. The model starts from the rules and the seed numbers.
- SeedFertilizer.RangedSeeds: a zero-length seed range is treated as a panic. The source builds `start..=start-1`, which is empty unless `start` is 0, where it underflows.
- Sectioned input: 2024 day 5 takes its two sections as two line sequences; the `split_once("\n\n")` is not modelled. 2024 day 4 takes the grid as rows of bytes.
- Text.IsSpace: only the six ASCII whitespace characters separate words. Rust's `split_whitespace` also splits on the other Unicode `White_Space` characters, such as U+00A0 and U+3000.
- Floating point: `shoelace` returns an `f32` and the area is cast back to `usize`. The model keeps the integer area, which every loop of pipes makes exact.
- Fuel: walks that can run for ever in the source take a fuel bound, and running out is a `Panic`. This covers `PipeMaze.Walk`, `HauntedWasteland.StepsToEnd` and part one, and `Scratchcards.Copies`. Each bound is large enough that only a walk that never ends exhausts it. The bounds are four times the cell count for the pipe loop, the node count times the instruction count (plus one) for the network walks, and the deck size for won copies.
- SeedFertilizer.ChainFrom: the chain of maps is walked for at most one step per map. `SeedFertilizer.MinSoilNumber` turns a walk still going after that many steps into a `Panic`; `SeedFertilizer.ChainRepeats` shows such a walk has revisited a category, so the source's loop would never end.
- CamelCards.PartOne: the exact answer of the puzzle's example input (5905) is not proved. The three orderings of `test_misc`, the hand order, the ranking and the bounds on the winnings are proved instead.
- Example answers of the tests (such as 13 and 30 for 2023 day 4, or 374 and 8410 for 2023 day 11) are not proved. Small hand-made examples are proved instead.
- PrintQueue.SortPages: Rust's `sort_by` with an inconsistent comparator is not modelled beyond keeping the same pages. An ordered result is proved only for rules that totally order the update's pages.
- HauntedWasteland.PartTwo: states that the answer is a common multiple of the walk lengths, not that it is the least one.
- MirageMaintenance.PartOne: the extrapolated value is stated through the difference table (`Next`) and its lemmas, not as a closed formula for general histories.

## Findings

| source | as written | input that shows it | evidently intended | confidence | as-written member | corrected member |
|---|---|---|---|---|---|---|
| 2023/src/bin/10.rs:95-102 | `windows(2)` sums the shoelace terms of consecutive positions only, missing the edge from the last position back to the start | the 4 by 4 grid `....`, `.S7.`, `.LJ.`, `....`: as written part two answers 1 | the closed polygon's area, giving 0 enclosed tiles | not executed | PipeMaze.ShoelaceMissesClosingEdge | PipeMaze.PartTwo |
| 2023/src/bin/10.rs:104-106 | `area - (boundary_len / 2) + 1` subtracts first in `usize`, which overflows when the area is below half the boundary: a panic in debug builds, which the model follows (in release builds the wrap-around and the `+ 1` happen to land on the right count) | the same loop one row higher, the 2 by 4 grid `.S7.`, `.LJ.`: area 1, boundary 4, so as written part two panics | `area + 1 - boundary_len / 2`, giving 0 | not executed | PipeMaze.PartTwoUnderflows | PipeMaze.PicksAgree |
| 2024/src/bin/02.rs:32-59 | the dampener tries removing only the two levels of the first bad window | `[3, 2, 3, 4, 5]`: rejected, though without its first level it is `[2, 3, 4, 5]`, which is safe | a report is safe when removing any one level makes it safe | not executed | RedNosedReports.DampenerMissesEarlierLevel | RedNosedReports.Dampened |
| 2023/src/bin/05.rs:180-194 | `convert` with a rule of length 0 computes `src_end = src - 1`; an input that straddles `src` then gets the empty overlap `dst..=dst-1`, whose start enters the final `min` (or, for `dst` 0, the overlap's end underflows, and for `src` 0 `src_end` does) | one seed-to-location map with the single rule "1 5 0" and the seeds 3..=7: as written the answer is 1, which no seed reaches | a rule of length 0 moves no id, giving 3 | not executed | SeedFertilizer.ZeroLengthPhantom | SeedFertilizer.MinSoilNumber |
