# Materials report parser and building store, in Dafny

This project models the two library files that hold the logic of a small web
app. Players register a Minecraft build in the app and collect the materials
it needs.

- **lib/materials.ts** turns the text of a Litematica material list into rows
  of `item / total / missing / available`. It also converts block counts into
  stacks (64 blocks) and shulker boxes (27 stacks).
  - `parseMaterials` splits the text into lines and trims each one.
  - It keeps only the lines that start with `|` and mention neither `Item`
    (the header) nor `---` (a separator).
  - It splits each kept line on `|`, trims the pieces and drops the blank
    ones.
  - A line that leaves exactly four cells becomes a row.
  - `numberFromCell` deletes all whitespace from a count cell, so `4 974`
    reads as 4974. An empty result reads as 0; otherwise the cell goes
    through `Number`.
- **lib/buildings.ts** keeps building records in an in-memory map keyed by a
  generated id. The id has the form `build-<clock in base 36>-<random part>`. The
  random part is at most six characters, cut from the base-36 text of a
  random fraction.

Modules:

- `Wrappers`: `Option`.
- `Seqs`: `FilterMap`, the map-then-filter pattern of `.map(...).filter(...)`
  and of the parser's `continue`s, with lemmas about it.
- `Text`: the JavaScript string built-ins the source uses:
  - `trim`, over the ECMAScript white-space and line-terminator set;
  - `split` on one character, with `join` as its inverse;
  - `includes` and `startsWith`;
  - `replace(/\s+/g, "")`;
  - `toString(radix)`, for non-negative integers.
- `Materials`: the parser, `numberFromCell` and the conversions.
- `Buildings`: the record types and a `BuildingStore` class whose `entries`
  map is updated in place.
- `ReportExamples`: the concrete report lines the parser is built for, each
  with what it yields.

Counts are modelled as `Num = Val(n) | NaN`, where `Val(n)` is a
non-negative integer. The conversions work on `real`, because JavaScript
divides without truncating.

## Model

| member | source | states |
|---|---|---|
| Materials.NumberFromCell | lib/materials.ts:8-11 | `numberFromCell` itself. It has no contract of its own; what it computes is stated by the rows NumberFromCellSpec, NumberFromCellViaCleaned, NumberFromCellIgnoresWhitespace and NumberFromCellReadsDecimal |
| Materials.NumberFromCellSpec | lib/materials.ts:8-11 | A cell reads as NaN exactly when it holds a character that is neither whitespace nor a decimal digit; a blank (all-whitespace or empty) cell reads as 0 |
| Materials.NumberFromCellViaCleaned | lib/materials.ts:8-11 | The reading of a cell is decided by its text with all whitespace deleted: empty gives 0, decimal digits give their value, anything else gives NaN |
| Materials.NumberFromCellIgnoresWhitespace | lib/materials.ts:9 | Inserting any whitespace character anywhere in a cell does not change its reading (thousands separators are ignored) |
| Materials.NumberFromCellReadsDecimal | lib/materials.ts:8-11 | The decimal text of any non-negative integer reads back as that integer |
| Materials.NumberFromCellExample | lib/materials.ts:8-11 | `4974` and `4 974` both read as 4974 |
| Materials.ToNumber | lib/materials.ts:10 | `Number` of a non-empty, whitespace-free string is a value exactly when the string is all decimal digits |
| Materials.Lines | lib/materials.ts:15 | Splitting on line feeds gives one more line than there are line feeds, and every line is trimmed |
| Materials.DropCarriageReturn | lib/materials.ts:15 | A piece that ends in `\r` loses that one `\r` and nothing else; any other piece is unchanged |
| Materials.TrimDropCarriageReturn | lib/materials.ts:15 | After trimming, it makes no difference whether the `\r` was consumed by the split, so `\r\n` and `\n` texts give the same lines |
| Materials.OneLine | lib/materials.ts:15 | A text without a line feed is one line: the text trimmed |
| Materials.OneLineRows | lib/materials.ts:13-42 | A text without a line feed gives the row of its trimmed text if that line yields one, and no row otherwise |
| Materials.LinesAppend | lib/materials.ts:15 | The lines of two texts joined by a line feed are the lines of the first followed by the lines of the second |
| Materials.Cells | lib/materials.ts:22-25 | There are at most one more cells than `\|` characters, and every cell is non-empty, trimmed and free of `\|` |
| Materials.CellsFromPieces | lib/materials.ts:22-25 | Every cell kept from the pieces is non-empty and trimmed; a character absent from every piece is absent from every cell |
| Materials.CellsOfFramed | lib/materials.ts:22-25 | For `\|`-free pieces, the cells of `\|p1\|...\|pn\|` are the trimmed non-blank pieces in order; the empty border pieces vanish |
| Materials.BlankPieceIgnored | lib/materials.ts:25 | A blank piece anywhere in a table line can be removed without changing its cells |
| Materials.ParseLine | lib/materials.ts:17-38 | The loop body for one trimmed line, giving the row it pushes or none. It has no contract of its own; see the rows ParseLineCharacterised and NonNumericCellKeepsRow |
| Materials.ParsedRows | lib/materials.ts:13-42 | `parseMaterials` as a function. It has no contract of its own; see the rows ParseMaterials (the loop equals it), RowsComeFromTableLines, ParsedRowsAppend, OneLineRows, NoTableNoRows and FormatReportRoundTrip |
| Materials.ParseLineCharacterised | lib/materials.ts:17-38 | A line yields a row if and only if it starts with `\|`, mentions neither `Item` nor `---`, and has exactly four cells; the row's item is the first cell and its counts are the readings of the other three |
| Materials.NonNumericCellKeepsRow | lib/materials.ts:31-38 | A non-numeric total does not drop the row: the row is kept with a NaN total |
| Materials.ParseMaterials | lib/materials.ts:13-42 | The loop returns the rows of the lines that pass, in line order (`ParsedRows`), and never more rows than lines |
| Materials.RowsComeFromTableLines | lib/materials.ts:13-42 | Every row comes from its own line, and these lines are strictly increasing, so order is kept. Each such line starts with `\|`, contains neither `Item` nor `---`, and has four cells whose first is the row's item |
| Materials.NoTableNoRows | lib/materials.ts:18 | A text none of whose lines starts with `\|` gives no rows |
| Materials.EmptyTextNoRows | lib/materials.ts:13-42 | The empty text gives no rows |
| Materials.ParsedRowsAppend | lib/materials.ts:13-42 | The rows of two texts joined by a line feed are the rows of the first followed by the rows of the second: each line is parsed on its own |
| Materials.FormatRowRoundTrip | lib/materials.ts:17-38 | Printing the line `\| item \| total \| missing \| available \|` with decimal counts and parsing that line gives back exactly that row, for any item that is a non-empty, trimmed cell free of `\|`, `Item` and `---` |
| Materials.FormatRowParsed | lib/materials.ts:13-42 | Parsing, as a whole text, one printed row whose item holds no line feed gives exactly that row |
| Materials.FormatReportRoundTrip | lib/materials.ts:13-42 | Parsing a report printed one row per line gives back all its rows, in order, when no item holds a line feed |
| Materials.FramedRow | lib/materials.ts:18-25 | Such a printed line passes the filters and splits into exactly its four cells |
| Materials.FramedCells | lib/materials.ts:18-25 | A line framing any number of report cells passes the filters and splits into exactly those cells |
| Materials.ToStacks | lib/materials.ts:44 | Stacks times 64 is the total, and non-negative totals give non-negative stacks |
| Materials.ToShulkers | lib/materials.ts:45 | Shulker boxes times 27·64 is the total, and non-negative totals give non-negative counts |
| Materials.ConversionUnits | lib/materials.ts:44-45 | 64 blocks are one stack, 32 are half a stack, and 1728 are one shulker box |
| Materials.ShulkersAreStacksOverTwentySeven | lib/materials.ts:44-45 | A shulker count is the stack count divided by 27 |
| Materials.ConversionsLinear | lib/materials.ts:44-45 | Both conversions distribute over addition |
| Materials.ConvertSum | lib/materials.ts:44-45 | Converting the sum of the totals equals summing the converted totals, for stacks and for shulker boxes |
| ReportExamples.BrickReport | lib/materials.ts:13-42 | Parsing the text `\| Кирпичи \| 4 974 \| 4974 \| 0 \|` gives exactly one row: Кирпичи, 4974, 4974, 0 |
| ReportExamples.HeaderReport | lib/materials.ts:13-42 | Parsing the text `\| Item \| Total \| Missing \| Available \|` gives no rows |
| ReportExamples.SeparatorReport | lib/materials.ts:13-42 | Parsing the text `+----+-----+` gives no rows |
| ReportExamples.CaptionReport | lib/materials.ts:13-42 | Parsing the text `\| Список материалов \|` gives no rows |
| ReportExamples.BrickRow | lib/materials.ts:13-42 | The line `\| Кирпичи \| 4 974 \| 4974 \| 0 \|` yields the row Кирпичи, 4974, 4974, 0 |
| ReportExamples.HeaderRow | lib/materials.ts:18-29 | The header `\| Item \| Total \| Missing \| Available \|` splits into the four cells `Item`, `Total`, `Missing`, `Available`, yet yields no row: the `Item` filter rejects it, not the cell count |
| ReportExamples.HeaderCells | lib/materials.ts:22-25 | The header splits into exactly its four column names |
| ReportExamples.MentionsItem | lib/materials.ts:18 | Any line containing `Item` yields no row |
| ReportExamples.SeparatorRow | lib/materials.ts:18 | The separator `+----+-----+` yields no row |
| ReportExamples.CaptionRow | lib/materials.ts:27-29 | The caption `\| Список материалов \|` yields no row |
| ReportExamples.CaptionCells | lib/materials.ts:22-25 | The caption line has the single cell `Список материалов` |
| ReportExamples.EmptyReport | lib/materials.ts:13-42 | Running the parser on the empty text returns no rows |
| Seqs.OriginsSpec | lib/materials.ts:22-25 | Each kept element comes from its own input position and is `f` of that input. The positions increase strictly, and every input that `f` keeps has its place among them |
| Seqs.FilterMapAppend | lib/materials.ts:17-39 | Filtering a concatenation is the concatenation of the filtered parts |
| Seqs.FilterMapAllSome | lib/materials.ts:25 | When nothing is dropped, the result is the mapped sequence |
| Seqs.FilterMapSkip | lib/materials.ts:25 | An element that is dropped can be removed from the input without changing the result |
| Text.Trim | lib/materials.ts:15 | `trim`: the result is trimmed and no longer than the input; its contents are given by the row TrimIsMiddle |
| Text.TrimIsMiddle | lib/materials.ts:15 | `trim` returns a contiguous middle part of the string and removes only whitespace before and after it |
| Text.TrimFixpoint | lib/materials.ts:24 | Trimming twice is trimming once |
| Text.TrimPadded | lib/materials.ts:24 | Trimming a trimmed string surrounded by whitespace gives the string back |
| Text.TrimKeepsCharacters | lib/materials.ts:24 | Trimming introduces no character |
| Text.StartsWith | lib/materials.ts:18 | `startsWith`, defined as the string's prefix of that length being equal to the argument. It has no separate contract |
| Text.Contains | lib/materials.ts:18 | `includes`. It has no contract of its own; see the row ContainsSpec |
| Text.ContainsSpec | lib/materials.ts:18 | `includes` holds exactly when the substring occurs at some position |
| Text.JoinSplit | lib/materials.ts:23 | Joining the pieces of a split with the separator gives back the string |
| Text.SplitOn | lib/materials.ts:15-23 | `split` on one character: one more piece than separators, and no piece holds the separator; its contents are given by the rows JoinSplit and SplitJoin |
| Text.SplitJoin | lib/materials.ts:23 | Splitting a join of separator-free pieces gives back the pieces |
| Text.RemoveWhitespace | lib/materials.ts:9 | Deleting whitespace leaves a whitespace-free string no longer than the input |
| Text.FromToRadix | lib/buildings.ts:19-20 | The base-`r` digits of a number read back as the number |
| Buildings.WithId | lib/buildings.ts:24 | `{ ...building, id }`. It has no contract of its own; see the row WithIdKeepsFields |
| Buildings.WithIdKeepsFields | lib/buildings.ts:3-15 | `{ ...building, id }` has the given id and every other field unchanged, and a record is exactly its fields plus its id |
| Buildings.Slice | lib/buildings.ts:20 | `slice(start, end)` returns the characters of the string from `start` up to `end`, both clamped to its length, and nothing when `start` is past `end` |
| Buildings.GenerateId | lib/buildings.ts:19-20 | An id is `build-`, the clock in base 36 (which reads back as the clock), `-`, then at most six more characters |
| Buildings.BuildingStore.constructor | lib/buildings.ts:17 | The store starts empty |
| Buildings.BuildingStore.CreateBuilding | lib/buildings.ts:22-27 | Stores the fields with the id attached under that id, replacing any earlier record there, and returns that record. Every other key is unchanged, and every record stays stored under its own id |
| Buildings.BuildingStore.GetBuilding | lib/buildings.ts:29 | Returns the record stored under the id, which carries that id, or nothing (`null`) when there is none |
| Buildings.CreateThenGet | lib/buildings.ts:22-29 | Looking up an id right after creating a record under it returns that record, whatever the store held before |

## Left out

- `Number` is modelled for strings of decimal digits. The model reads every
  other non-empty cleaned cell as NaN. JavaScript would also accept signs,
  decimal points, exponents, `0x`/`0o`/`0b` prefixes and `Infinity`, and would
  round large integers to the nearest double. None of these is modelled.
- Materials.ToStacks and Materials.ToShulkers use exact real division, not
  IEEE double division, so rounding is not modelled. They take a real total.
  A NaN count is not carried through them.
- Buildings.GenerateId takes the clock reading (`Date.now()`) and the text of
  the random number (`Math.random().toString(36)`) as parameters. The clock
  and the random source are not modelled. Neither is the uniqueness of
  generated ids: Buildings.BuildingStore.CreateBuilding takes the id as given
  and overwrites a record already stored under it, as `Map.set` does.
- Buildings.BuildingStore.entries is a Dafny `map`. JavaScript `Map`
  insertion order is not modelled, because the source never iterates the
  store.
- Inside `parseMaterials`, `numberFromCell` is never given a blank cell,
  because blank pieces are filtered first. Its 0 branch is modelled and
  proved about (NumberFromCellSpec), but no parsed row can reach it.
- A non-numeric count becomes NaN, as the code does, and the row is kept
  (NonNumericCellKeepsRow). lib/materials.ts does not guard this case; the
  model follows the code.
- The checklist page, the HTTP routes, file upload and data-URL encoding are
  outside these two files and are not modelled.
- Whitespace is the ECMAScript set used by `trim` and `\s`: U+0009 to U+000D,
  space, no-break space, the Unicode space separators, U+2028, U+2029 and the
  byte order mark. Characters are Dafny `char`s, so
  characters outside the Basic Multilingual Plane are not split into UTF-16
  surrogate pairs.
