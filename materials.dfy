/**
 * The Litematica material-list parser and the stack / shulker-box
 * conversions (lib/materials.ts).
 *
 * A report is a fixed-width table: rows framed by `|`, `+---+` separator
 * rows, a caption row and an `Item | Total | Missing | Available` header.
 * Parsing keeps, in order, every row that survives the line filters and
 * splits into exactly four non-blank cells.
 */
module Materials {
  import opened Text
  import opened Wrappers
  import opened Seqs

  /** A parsed numeric cell: a non-negative integer, or the NaN JavaScript's
      `Number` produces for text it cannot read. */
  datatype Num = Val(n: nat) | NaN

  datatype MaterialRow = MaterialRow(item: string, total: Num, missing: Num, available: Num)

  // ---- numberFromCell

  /** `Number(s)` on a non-empty string without whitespace, for the decimal
      digit strings; any other string reads as NaN here. */
  function ToNumber(s: string): (r: Num)
    requires s != [] && NoWhitespace(s)
    ensures r.Val? <==> AllRadixDigits(s, 10)
  {
    if AllRadixDigits(s, 10) then Val(FromRadix(s, 10)) else NaN
  }

  /** `numberFromCell`: delete every whitespace character; nothing left reads
      as 0, anything else goes through `Number`. */
  function NumberFromCell(value: string): Num {
    var cleaned := Trim(RemoveWhitespace(value));
    TrimNoWhitespace(RemoveWhitespace(value));
    if cleaned == [] then Val(0) else ToNumber(cleaned)
  }

  /** A cell reads as NaN exactly when it holds a character that is neither
      whitespace nor a decimal digit; a blank cell reads as 0. */
  lemma NumberFromCellSpec(value: string)
    ensures NumberFromCell(value).NaN? <==> !DigitsOrWhitespace(value)
    ensures AllWhitespace(value) ==> NumberFromCell(value) == Val(0)
  {
    TrimNoWhitespace(RemoveWhitespace(value));
    RemoveWhitespaceDigits(value);
    RemoveWhitespaceExtremes(value);
  }

  /** Every character is whitespace or a decimal digit. */
  predicate DigitsOrWhitespace(s: string) {
    forall k :: 0 <= k < |s| ==> IsWhitespace(s[k]) || IsRadixDigit(s[k], 10)
  }

  /** The whitespace-free text of a cell is all decimal digits exactly when
      every non-whitespace character of the cell is a digit. */
  lemma {:induction false} RemoveWhitespaceDigits(value: string)
    ensures AllRadixDigits(RemoveWhitespace(value), 10) <==> DigitsOrWhitespace(value)
  {
    if |value| > 0 {
      var tail := value[1..];
      RemoveWhitespaceDigits(tail);
      var rest := RemoveWhitespace(tail);
      assert value == [value[0]] + tail;
      assert DigitsOrWhitespace(value) <==>
        (IsWhitespace(value[0]) || IsRadixDigit(value[0], 10)) && DigitsOrWhitespace(tail) by {
        if DigitsOrWhitespace(value) {
          forall k | 0 <= k < |tail| ensures IsWhitespace(tail[k]) || IsRadixDigit(tail[k], 10) {
            assert tail[k] == value[k + 1];
          }
        }
      }
      if !IsWhitespace(value[0]) {
        var r := RemoveWhitespace(value);
        assert r == [value[0]] + rest;
        assert AllRadixDigits(r, 10) <==> IsRadixDigit(value[0], 10) && AllRadixDigits(rest, 10) by {
          if AllRadixDigits(r, 10) {
            assert r[0] == value[0];
            forall k | 0 <= k < |rest| ensures IsRadixDigit(rest[k], 10) {
              assert rest[k] == r[k + 1];
            }
          }
          if IsRadixDigit(value[0], 10) && AllRadixDigits(rest, 10) {
            forall k | 0 <= k < |r| ensures IsRadixDigit(r[k], 10) {
              if k > 0 { assert r[k] == rest[k - 1]; }
            }
          }
        }
      }
    }
  }

  /** A cell reads the same with and without its whitespace, so interior
      thousands separators such as the space in `4 974` are ignored. */
  lemma NumberFromCellIgnoresWhitespace(a: string, b: string, c: char)
    requires IsWhitespace(c)
    ensures NumberFromCell(a + [c] + b) == NumberFromCell(a + b)
  {
    RemoveWhitespaceAppend(a + [c], b);
    RemoveWhitespaceAppend(a, [c]);
    RemoveWhitespaceAppend(a, b);
    assert [c][1..] == [];
    assert RemoveWhitespace([c]) == [];
    assert RemoveWhitespace(a + [c] + b) == RemoveWhitespace(a + b);
    NumberFromCellViaCleaned(a + [c] + b);
    NumberFromCellViaCleaned(a + b);
  }

  /** The reading of a cell depends only on its whitespace-free text. */
  lemma NumberFromCellViaCleaned(value: string)
    ensures NumberFromCell(value) ==
      var cleaned := RemoveWhitespace(value);
      if cleaned == [] then Val(0)
      else if AllRadixDigits(cleaned, 10) then Val(FromRadix(cleaned, 10))
      else NaN
  {
    TrimNoWhitespace(RemoveWhitespace(value));
  }

  /** A printed non-negative integer reads back as itself. */
  lemma NumberFromCellReadsDecimal(n: nat)
    ensures NumberFromCell(ToRadix(n, 10)) == Val(n)
  {
    var s := ToRadix(n, 10);
    assert NoWhitespace(s);
    RemoveWhitespaceExtremes(s);
    TrimNoWhitespace(s);
    FromToRadix(n, 10);
  }

  /** The cell of the report row `| Кирпичи | 4 974 | 4974 | 0 |` and its
      separator-free spelling both read as 4974. */
  lemma NumberFromCellExample()
    ensures NumberFromCell("4974") == Val(4974)
    ensures NumberFromCell("4 974") == Val(4974)
  {
    PlainCellExample();
    SpacedCellCleaned();
    NumberFromCellViaCleaned("4 974");
    DigitsExample();
  }

  lemma SpacedCellCleaned()
    ensures RemoveWhitespace("4 974") == "4974"
  {
    var s := "4 974";
    assert s[1..] == " 974" && s[1..][1..] == "974";
    assert NoWhitespace("974");
    RemoveWhitespaceExtremes("974");
  }

  lemma PlainCellExample()
    ensures NumberFromCell("4974") == Val(4974)
  {
    var s := "4974";
    DigitsExample();
    assert NoWhitespace(s);
    RemoveWhitespaceExtremes(s);
    NumberFromCellViaCleaned(s);
  }

  lemma DigitsExample()
    ensures AllRadixDigits("4974", 10) && FromRadix("4974", 10) == 4974
  {
    var s := "4974";
    assert s[..3] == "497" && s[..3][..2] == "49" && s[..3][..2][..1] == "4" && "4"[..0] == [];
    assert FromRadix("4", 10) == 4;
    assert FromRadix("49", 10) == 49;
    assert FromRadix("497", 10) == 497;
  }

  // ---- parseMaterials

  /** `s` without one trailing carriage return. */
  function DropCarriageReturn(s: string): (r: string)
    ensures r == s || r + ['\r'] == s
    ensures r != s <==> |s| > 0 && s[|s| - 1] == '\r'
  {
    if |s| > 0 && s[|s| - 1] == '\r' then s[..|s| - 1] else s
  }

  /** `text.split(/\r?\n/).map(line => line.trim())`: a separator is a line
      feed, optionally preceded by a carriage return that the split consumes. */
  function Lines(text: string): (lines: seq<string>)
    ensures |lines| == Count(text, '\n') + 1
    ensures forall k :: 0 <= k < |lines| ==> IsTrimmed(lines[k])
  {
    LinesOf(SplitOn(text, '\n'))
  }

  /** The trimmed lines, given the pieces between line feeds. */
  function LinesOf(pieces: seq<string>): (lines: seq<string>)
    ensures |lines| == |pieces|
    ensures forall k :: 0 <= k < |lines| ==> lines[k] == LineAt(pieces, k) && IsTrimmed(lines[k])
  {
    seq(|pieces|, k requires 0 <= k < |pieces| => LineAt(pieces, k))
  }

  /** The `k`-th trimmed line, given the pieces between line feeds. */
  function LineAt(pieces: seq<string>, k: nat): string
    requires k < |pieces|
  {
    Trim(if k < |pieces| - 1 then DropCarriageReturn(pieces[k]) else pieces[k])
  }

  /** The filters of lib/materials.ts:18: a table line that is neither the
      header nor a separator. */
  predicate IsCandidate(line: string) {
    StartsWith(line, "|") && !Contains(line, "Item") && !Contains(line, "---")
  }

  /** `line.split("|").map(part => part.trim()).filter(Boolean)`. */
  function Cells(line: string): (cells: seq<string>)
    ensures |cells| <= Count(line, '|') + 1
    ensures forall k :: 0 <= k < |cells| ==> cells[k] != [] && IsTrimmed(cells[k]) && '|' !in cells[k]
  {
    CellsFromPieces(SplitOn(line, '|'), '|');
    FilterMap(CellOf, SplitOn(line, '|'))
  }

  /** One piece between `|` characters, trimmed; a blank piece is dropped. */
  function CellOf(piece: string): Option<string> {
    var t := Trim(piece);
    if t == [] then None else Some(t)
  }

  /** Each cell kept from the pieces is a non-empty trimmed piece, so a
      character absent from every piece is absent from every cell. */
  lemma CellsFromPieces(pieces: seq<string>, c: char)
    ensures forall k :: 0 <= k < |FilterMap(CellOf, pieces)| ==>
      FilterMap(CellOf, pieces)[k] != [] && IsTrimmed(FilterMap(CellOf, pieces)[k])
    ensures (forall k :: 0 <= k < |pieces| ==> c !in pieces[k]) ==>
      forall k :: 0 <= k < |FilterMap(CellOf, pieces)| ==> c !in FilterMap(CellOf, pieces)[k]
  {
    var cells, idx := FilterMap(CellOf, pieces), Origins(CellOf, pieces);
    OriginsSound(CellOf, pieces);
    forall k | 0 <= k < |cells|
      ensures cells[k] == Trim(pieces[idx[k]]) && cells[k] != []
    {
    }
    forall k | 0 <= k < |cells| ensures c in cells[k] ==> c in pieces[idx[k]] {
      TrimKeepsCharacters(pieces[idx[k]], c);
    }
  }

  /** What one (already trimmed) line contributes to the result. */
  function ParseLine(line: string): Option<MaterialRow> {
    if !IsCandidate(line) then None
    else
      var parts := Cells(line);
      if |parts| != 4 then None
      else Some(MaterialRow(parts[0], NumberFromCell(parts[1]), NumberFromCell(parts[2]), NumberFromCell(parts[3])))
  }

  /** The rows `parseMaterials(text)` returns. */
  function ParsedRows(text: string): seq<MaterialRow> {
    FilterMap(ParseLine, Lines(text))
  }

  /** `parseMaterials`: one pass over the trimmed lines, skipping the lines
      the filters reject and appending a row for every other one. */
  method ParseMaterials(text: string) returns (rows: seq<MaterialRow>)
    ensures rows == ParsedRows(text)
    ensures |rows| <= |Lines(text)|
  {
    rows := [];
    var lines := Lines(text);
    for i := 0 to |lines|
      invariant rows == FilterMap(ParseLine, lines[..i])
    {
      var line := lines[i];
      FilterMapStep(ParseLine, lines, i);
      if !StartsWith(line, "|") || Contains(line, "Item") || Contains(line, "---") {
        assert ParseLine(line) == None;
        continue;
      }
      var parts := Cells(line);
      if |parts| != 4 {
        assert ParseLine(line) == None;
        continue;
      }
      var row := MaterialRow(parts[0], NumberFromCell(parts[1]), NumberFromCell(parts[2]), NumberFromCell(parts[3]));
      assert ParseLine(line) == Some(row);
      rows := rows + [row];
    }
    assert lines[..|lines|] == lines;
  }

  // ---- Properties of the parser

  /** A line yields a row exactly when it passes the filters and has four
      non-blank cells; the row is those cells, read positionally. */
  lemma ParseLineCharacterised(line: string)
    ensures ParseLine(line).Some? <==> IsCandidate(line) && |Cells(line)| == 4
    ensures ParseLine(line).Some? ==>
      var row, cells := ParseLine(line).value, Cells(line);
      && row.item == cells[0] && row.item != [] && IsTrimmed(row.item) && '|' !in row.item
      && row.total == NumberFromCell(cells[1])
      && row.missing == NumberFromCell(cells[2])
      && row.available == NumberFromCell(cells[3])
  {
  }

  /** Every row comes from a line that, trimmed, starts with `|`, contains
      neither `Item` nor `---`, and splits into four non-blank cells whose
      first is the item; rows keep the order of their lines. */
  lemma RowsComeFromTableLines(text: string)
    ensures var lines, rows, idx := Lines(text), ParsedRows(text), Origins(ParseLine, Lines(text));
      && |idx| == |rows|
      && (forall k, m :: 0 <= k < m < |idx| ==> idx[k] < idx[m])
      && forall k :: 0 <= k < |rows| ==>
           && idx[k] < |lines|
           && StartsWith(lines[idx[k]], "|")
           && !Contains(lines[idx[k]], "Item") && !Contains(lines[idx[k]], "---")
           && |Cells(lines[idx[k]])| == 4
           && rows[k].item == Cells(lines[idx[k]])[0]
  {
    var lines, rows, idx := Lines(text), ParsedRows(text), Origins(ParseLine, Lines(text));
    OriginsSpec(ParseLine, lines);
    forall k | 0 <= k < |rows|
      ensures idx[k] < |lines| && IsCandidate(lines[idx[k]]) && |Cells(lines[idx[k]])| == 4
      ensures rows[k].item == Cells(lines[idx[k]])[0]
    {
      ParseLineCharacterised(lines[idx[k]]);
    }
  }

  /** Text with no line starting with `|` (after trimming) parses to nothing;
      in particular the empty text does. */
  lemma NoTableNoRows(text: string)
    requires forall k :: 0 <= k < |Lines(text)| ==> !StartsWith(Lines(text)[k], "|")
    ensures ParsedRows(text) == []
  {
    var lines := Lines(text);
    forall k | 0 <= k < |lines| ensures ParseLine(lines[k]).None? {
      assert !IsCandidate(lines[k]);
    }
    FilterMapNone(ParseLine, lines);
  }

  lemma EmptyTextNoRows()
    ensures ParsedRows("") == []
  {
    assert Lines("") == [""];
    NoTableNoRows("");
  }

  /** Trimming makes a carriage return before a line feed irrelevant. */
  lemma TrimDropCarriageReturn(s: string)
    ensures Trim(DropCarriageReturn(s)) == Trim(s)
  {
    if |s| > 0 && s[|s| - 1] == '\r' {
      TrimSnocWhitespace(s[..|s| - 1], '\r');
      assert s[..|s| - 1] + ['\r'] == s;
    }
  }

  /** Splitting into lines is compositional over a line feed. */
  lemma LinesAppend(a: string, b: string)
    ensures Lines(a + "\n" + b) == Lines(a) + Lines(b)
  {
    assert a + "\n" + b == a + ['\n'] + b;
    SplitAppend(a, b, '\n');
    LinesOfAppend(SplitOn(a, '\n'), SplitOn(b, '\n'));
  }

  /** The lines of two runs of pieces, the first ended by a line feed, are
      the lines of each run. */
  lemma LinesOfAppend(pa: seq<string>, pb: seq<string>)
    requires |pa| > 0 && |pb| > 0
    ensures LinesOf(pa + pb) == LinesOf(pa) + LinesOf(pb)
  {
    var l, la, lb := LinesOf(pa + pb), LinesOf(pa), LinesOf(pb);
    forall k | 0 <= k < |l| ensures l[k] == (la + lb)[k] {
      LinesOfAt(pa, pb, k);
    }
  }

  /** One line of two runs of pieces, by where it falls. */
  lemma LinesOfAt(pa: seq<string>, pb: seq<string>, k: nat)
    requires |pa| > 0 && |pb| > 0 && k < |pa| + |pb|
    ensures LinesOf(pa + pb)[k] == (LinesOf(pa) + LinesOf(pb))[k]
  {
    if k < |pa| - 1 {
      LineAtFront(pa, pb, k);
    } else if k == |pa| - 1 {
      LineAtSeam(pa, pb);
    } else {
      LineAtBack(pa, pb, k - |pa|);
    }
  }

  /** A line of the first run, before its last, is not affected by what
      follows. */
  lemma LineAtFront(pa: seq<string>, pb: seq<string>, k: nat)
    requires k < |pa| - 1
    ensures LinesOf(pa + pb)[k] == (LinesOf(pa) + LinesOf(pb))[k]
  {
    assert (LinesOf(pa) + LinesOf(pb))[k] == LinesOf(pa)[k];
    assert (pa + pb)[k] == pa[k];
    assert LinesOf(pa + pb)[k] == LineAt(pa + pb, k);
    assert LinesOf(pa)[k] == LineAt(pa, k);
  }

  /** The last line of the first run is now ended by a line feed, whose
      carriage return trimming removes anyway. */
  lemma LineAtSeam(pa: seq<string>, pb: seq<string>)
    requires |pa| > 0 && |pb| > 0
    ensures LinesOf(pa + pb)[|pa| - 1] == (LinesOf(pa) + LinesOf(pb))[|pa| - 1]
  {
    var k := |pa| - 1;
    assert (LinesOf(pa) + LinesOf(pb))[k] == LinesOf(pa)[k];
    assert (pa + pb)[k] == pa[k];
    assert LinesOf(pa + pb)[k] == Trim(DropCarriageReturn(pa[k]));
    assert LinesOf(pa)[k] == Trim(pa[k]);
    TrimDropCarriageReturn(pa[k]);
  }

  /** A line of the second run keeps its reading, shifted. */
  lemma LineAtBack(pa: seq<string>, pb: seq<string>, j: nat)
    requires j < |pb|
    ensures LinesOf(pa + pb)[|pa| + j] == (LinesOf(pa) + LinesOf(pb))[|pa| + j]
  {
    var k := |pa| + j;
    assert (LinesOf(pa) + LinesOf(pb))[k] == LinesOf(pb)[j];
    assert (pa + pb)[k] == pb[j];
    assert LinesOf(pa + pb)[k] == LineAt(pa + pb, k);
    assert LinesOf(pb)[j] == LineAt(pb, j);
    var line := if j < |pb| - 1 then DropCarriageReturn(pb[j]) else pb[j];
    assert LineAt(pa + pb, k) == Trim(line);
    assert LineAt(pb, j) == Trim(line);
  }

  /** A text without a line feed is the single line of its trimmed self. */
  lemma OneLine(s: string)
    requires '\n' !in s
    ensures Lines(s) == [Trim(s)]
  {
    SplitPlain(s, '\n');
    assert LineAt([s], 0) == Trim(s);
  }

  /** A text without a line feed gives at most one row: the row of its
      trimmed self, if that yields one. */
  lemma OneLineRows(s: string)
    requires '\n' !in s
    ensures ParsedRows(s) == ToSeq(ParseLine(Trim(s)))
  {
    OneLine(s);
    assert [Trim(s)][..0] == [];
  }

  /** Parsing is compositional over lines: the rows of two texts joined by a
      line feed are the rows of the first followed by those of the second. */
  lemma ParsedRowsAppend(a: string, b: string)
    ensures ParsedRows(a + "\n" + b) == ParsedRows(a) + ParsedRows(b)
  {
    LinesAppend(a, b);
    FilterMapAppend(ParseLine, Lines(a), Lines(b));
  }

  /** Never fails: a four-cell line whose second cell is not a number still
      yields its row, with NaN in that field. */
  lemma NonNumericCellKeepsRow(line: string)
    requires IsCandidate(line) && |Cells(line)| == 4
    requires !DigitsOrWhitespace(Cells(line)[1])
    ensures ParseLine(line).Some? && ParseLine(line).value.total == NaN
  {
    NumberFromCellSpec(Cells(line)[1]);
  }

  // ---- Round trip with the report layout

  /** A table line: the pieces between `|` borders, as in `| a | b |`. */
  function Framed(pieces: seq<string>): string {
    Join([""] + pieces + [""], '|')
  }

  /** A cell as the report lays it out, with one space on each side. */
  function Padded(cell: string): string {
    " " + cell + " "
  }

  /** The cells of a framed line are its non-blank pieces, trimmed. */
  lemma CellsOfFramed(pieces: seq<string>)
    requires forall k :: 0 <= k < |pieces| ==> '|' !in pieces[k]
    ensures Cells(Framed(pieces)) == FilterMap(CellOf, pieces)
  {
    var all := [""] + pieces + [""];
    BordersAvoid(pieces, '|');
    SplitJoin(all, '|');
    assert Cells(Framed(pieces)) == FilterMap(CellOf, all);
    BlankCell("");
    FilterMapDropEnds(CellOf, "", pieces, "");
  }

  /** Adding empty pieces at both ends adds no character. */
  lemma BordersAvoid(pieces: seq<string>, c: char)
    requires forall k :: 0 <= k < |pieces| ==> c !in pieces[k]
    ensures forall k :: 0 <= k < |pieces| + 2 ==> c !in ([""] + pieces + [""])[k]
  {
    var all := [""] + pieces + [""];
    forall k | 0 <= k < |all| ensures c !in all[k] {
      if 0 < k < |all| - 1 { assert all[k] == pieces[k - 1]; }
    }
  }

  /** `.filter(Boolean)` drops a blank piece wherever it stands, so a blank
      interior cell shifts the cells after it one column to the left. */
  lemma BlankPieceIgnored(xs: seq<string>, blank: string, ys: seq<string>)
    requires AllWhitespace(blank)
    requires forall k :: 0 <= k < |xs| ==> '|' !in xs[k]
    requires forall k :: 0 <= k < |ys| ==> '|' !in ys[k]
    ensures Cells(Framed(xs + [blank] + ys)) == Cells(Framed(xs + ys))
  {
    assert '|' !in blank by {
      assert forall m :: 0 <= m < |blank| ==> blank[m] != '|';
    }
    PiecesAvoid(xs, [blank], '|');
    PiecesAvoid(xs + [blank], ys, '|');
    PiecesAvoid(xs, ys, '|');
    CellsOfFramed(xs + [blank] + ys);
    CellsOfFramed(xs + ys);
    BlankCell(blank);
    FilterMapSkip(CellOf, xs, blank, ys);
  }

  /** A character absent from the pieces of two lists is absent from the
      pieces of their concatenation. */
  lemma PiecesAvoid(xs: seq<string>, ys: seq<string>, c: char)
    requires forall k :: 0 <= k < |xs| ==> c !in xs[k]
    requires forall k :: 0 <= k < |ys| ==> c !in ys[k]
    ensures forall k :: 0 <= k < |xs + ys| ==> c !in (xs + ys)[k]
  {
    forall k | 0 <= k < |xs + ys| ensures c !in (xs + ys)[k] {
      if k < |xs| {
        assert (xs + ys)[k] == xs[k];
      } else {
        assert (xs + ys)[k] == ys[k - |xs|];
      }
    }
  }

  /** A blank piece gives no cell. */
  lemma BlankCell(blank: string)
    requires AllWhitespace(blank)
    ensures CellOf(blank) == None
  {
    TrimPadded(blank, "", "");
    assert blank + "" + "" == blank;
  }

  /** A non-empty trimmed cell padded with spaces reads back as itself. */
  lemma PaddedCell(cell: string)
    requires cell != [] && IsTrimmed(cell)
    ensures CellOf(Padded(cell)) == Some(cell)
  {
    assert AllWhitespace(" ");
    TrimPadded(" ", cell, " ");
  }

  /** Trimming padded cells and dropping blank ones gives back the cells,
      when each cell is trimmed and not empty. */
  lemma CellsOfPadded(cells: seq<string>, padded: seq<string>)
    requires forall k :: 0 <= k < |cells| ==> cells[k] != [] && IsTrimmed(cells[k])
    requires |padded| == |cells| && forall k :: 0 <= k < |cells| ==> padded[k] == Padded(cells[k])
    ensures FilterMap(CellOf, padded) == cells
  {
    forall k | 0 <= k < |cells| ensures CellOf(padded[k]) == Some(cells[k]) {
      PaddedCell(cells[k]);
    }
    FilterMapAllSome(CellOf, padded, cells);
  }

  /** The report row printed from an item and three counts, `| item | total |
      missing | available |`. */
  function FormatRow(item: string, total: nat, missing: nat, available: nat): string {
    Framed([Padded(item), Padded(ToRadix(total, 10)), Padded(ToRadix(missing, 10)), Padded(ToRadix(available, 10))])
  }

  /** What a cell of a printed report row must be to read back unchanged
      and keep its row: non-empty, trimmed, free of `|`, and mentioning
      neither `Item` nor `---`. */
  predicate IsReportCell(s: string) {
    s != [] && IsTrimmed(s) && '|' !in s && !Contains(s, "Item") && !Contains(s, "---")
  }

  /** A printed count is a report cell. */
  lemma DigitsAreReportCell(s: string)
    requires s != [] && AllRadixDigits(s, 10)
    ensures IsReportCell(s)
  {
    ContainsHead(s, "Item");
    ContainsHead(s, "---");
    assert 'I' !in s && '-' !in s && '|' !in s;
  }

  /** Padding adds no occurrence of a word without spaces. */
  lemma PaddedContains(cell: string, word: string)
    requires word != [] && ' ' !in word && !Contains(cell, word)
    ensures !Contains(Padded(cell), word)
  {
    assert Padded(cell) == [] + [' '] + (cell + [' '] + []);
    ContainsAround([], ' ', cell + [' '] + [], word);
    ContainsAround(cell, ' ', [], word);
    ContainsHead([], word);
  }

  /** Printing a row and parsing it gives the row back: the item unchanged and
      each count read as itself, provided the item is a report cell. */
  lemma FormatRowRoundTrip(item: string, total: nat, missing: nat, available: nat)
    requires IsReportCell(item)
    ensures ParseLine(FormatRow(item, total, missing, available)) ==
      Some(MaterialRow(item, Val(total), Val(missing), Val(available)))
  {
    var a, b, c := ToRadix(total, 10), ToRadix(missing, 10), ToRadix(available, 10);
    var line := FormatRow(item, total, missing, available);
    DigitsAreReportCell(a);
    DigitsAreReportCell(b);
    DigitsAreReportCell(c);
    FramedRow(item, a, b, c);
    ParseFourCells(line, item, a, b, c);
    NumberFromCellReadsDecimal(total);
    NumberFromCellReadsDecimal(missing);
    NumberFromCellReadsDecimal(available);
  }

  /** Parsing a text that is one printed row gives back that row alone. The
      item must not hold a line feed, which would cut the row in two. */
  lemma FormatRowParsed(item: string, total: nat, missing: nat, available: nat)
    requires IsReportCell(item) && '\n' !in item
    ensures ParsedRows(FormatRow(item, total, missing, available)) ==
      [MaterialRow(item, Val(total), Val(missing), Val(available))]
  {
    var line := FormatRow(item, total, missing, available);
    assert '\n' !in line by {
      RowAvoidsLineFeed(item, total, missing, available);
    }
    assert Trim(line) == line by {
      FramedEnds([Padded(item), Padded(ToRadix(total, 10)), Padded(ToRadix(missing, 10)), Padded(ToRadix(available, 10))]);
      TrimFixpoint(line);
    }
    OneLineRows(line);
    FormatRowRoundTrip(item, total, missing, available);
  }

  /** A printed row holds no line feed when its item holds none. */
  lemma RowAvoidsLineFeed(item: string, total: nat, missing: nat, available: nat)
    requires '\n' !in item
    ensures '\n' !in FormatRow(item, total, missing, available)
  {
    var a, b, c := ToRadix(total, 10), ToRadix(missing, 10), ToRadix(available, 10);
    DigitsAvoidLineFeed(a);
    DigitsAvoidLineFeed(b);
    DigitsAvoidLineFeed(c);
    var pieces := [Padded(item), Padded(a), Padded(b), Padded(c)];
    assert forall k :: 0 <= k < |pieces| ==> '\n' !in pieces[k];
    FramedAvoidsCharacter(pieces, '\n');
  }

  /** Decimal digits are not line feeds. */
  lemma DigitsAvoidLineFeed(s: string)
    requires AllRadixDigits(s, 10)
    ensures '\n' !in s
  {
    forall k | 0 <= k < |s| ensures s[k] != '\n' {
      assert IsRadixDigit(s[k], 10);
    }
  }

  /** A character other than `|` absent from every piece is absent from the
      framed line. */
  lemma FramedAvoidsCharacter(pieces: seq<string>, c: char)
    requires c != '|'
    requires forall k :: 0 <= k < |pieces| ==> c !in pieces[k]
    ensures c !in Framed(pieces)
  {
    BordersAvoid(pieces, c);
    JoinAvoids([""] + pieces + [""], '|', c);
  }

  /** A framed line begins and ends with `|`, so trimming leaves it alone. */
  lemma FramedEnds(pieces: seq<string>)
    ensures var s := Framed(pieces); |s| > 0 && s[0] == '|' && s[|s| - 1] == '|' && IsTrimmed(s)
  {
    var all := [""] + pieces + [""];
    assert all[|all| - 1] == [];
    JoinEndsWithSeparator(all, '|');
    assert Join(all, '|') == [] + ['|'] + Join(all[1..], '|');
  }

  /** A row as a report prints it: an item and three non-negative counts. */
  datatype PrintedRow = PrintedRow(item: string, total: nat, missing: nat, available: nat)

  /** A report of printed rows, one per line. */
  function FormatReport(rows: seq<PrintedRow>): string {
    if |rows| == 0 then ""
    else
      var line := FormatRow(rows[0].item, rows[0].total, rows[0].missing, rows[0].available);
      if |rows| == 1 then line else line + "\n" + FormatReport(rows[1..])
  }

  /** The material rows a report of printed rows stands for. */
  function ReadBack(rows: seq<PrintedRow>): (parsed: seq<MaterialRow>)
    ensures |parsed| == |rows|
  {
    if |rows| == 0 then []
    else [MaterialRow(rows[0].item, Val(rows[0].total), Val(rows[0].missing), Val(rows[0].available))] + ReadBack(rows[1..])
  }

  /** Parsing a printed report gives back its rows, in order, when no item
      holds a line feed. */
  lemma {:induction false} FormatReportRoundTrip(rows: seq<PrintedRow>)
    requires forall k :: 0 <= k < |rows| ==> IsReportCell(rows[k].item) && '\n' !in rows[k].item
    ensures ParsedRows(FormatReport(rows)) == ReadBack(rows)
  {
    if |rows| == 0 {
      EmptyTextNoRows();
    } else {
      var r := rows[0];
      FormatRowParsed(r.item, r.total, r.missing, r.available);
      if |rows| > 1 {
        assert forall k :: 0 <= k < |rows| - 1 ==> rows[1..][k] == rows[k + 1];
        FormatReportRoundTrip(rows[1..]);
        ParsedRowsAppend(FormatRow(r.item, r.total, r.missing, r.available), FormatReport(rows[1..]));
      }
    }
  }

  /** A line that does not split into exactly four cells gives no row. */
  lemma WrongCellCount(line: string)
    requires |Cells(line)| != 4
    ensures ParseLine(line) == None
  {
  }

  /** A line that passes the filters and has exactly four cells gives the row
      of those cells. */
  lemma ParseFourCells(line: string, item: string, a: string, b: string, c: string)
    requires IsCandidate(line) && Cells(line) == [item, a, b, c]
    ensures ParseLine(line) == Some(MaterialRow(item, NumberFromCell(a), NumberFromCell(b), NumberFromCell(c)))
  {
  }

  /** The report line of four cells, `| item | a | b | c |`, passes the line
      filters and splits into exactly those cells. */
  lemma FramedRow(item: string, a: string, b: string, c: string)
    requires IsReportCell(item) && IsReportCell(a) && IsReportCell(b) && IsReportCell(c)
    ensures var line := Framed([Padded(item), Padded(a), Padded(b), Padded(c)]);
      Cells(line) == [item, a, b, c] && IsCandidate(line)
  {
    FramedCells([item, a, b, c], [Padded(item), Padded(a), Padded(b), Padded(c)]);
  }

  /** A report line of any number of report cells passes the line filters and
      splits into exactly those cells. */
  lemma FramedCells(cells: seq<string>, padded: seq<string>)
    requires forall k :: 0 <= k < |cells| ==> IsReportCell(cells[k])
    requires |padded| == |cells| && forall k :: 0 <= k < |cells| ==> padded[k] == Padded(cells[k])
    ensures Cells(Framed(padded)) == cells
    ensures IsCandidate(Framed(padded))
  {
    FramedCellsAre(cells, padded);
    FramedIsCandidate(cells, padded);
  }

  /** Framing padded cells that are non-empty, trimmed and `|`-free reads
      them back. */
  lemma FramedCellsAre(cells: seq<string>, padded: seq<string>)
    requires forall k :: 0 <= k < |cells| ==> cells[k] != [] && IsTrimmed(cells[k]) && '|' !in cells[k]
    requires |padded| == |cells| && forall k :: 0 <= k < |cells| ==> padded[k] == Padded(cells[k])
    ensures Cells(Framed(padded)) == cells
  {
    assert FilterMap(CellOf, padded) == cells by {
      CellsOfPadded(cells, padded);
    }
    assert forall k :: 0 <= k < |padded| ==> '|' !in padded[k] by {
      forall k | 0 <= k < |padded| ensures '|' !in padded[k] {
        assert padded[k] == [' '] + cells[k] + [' '];
      }
    }
    CellsOfFramed(padded);
  }

  /** A framed line of padded cells that mention neither marker passes the
      line filters. */
  lemma FramedIsCandidate(cells: seq<string>, padded: seq<string>)
    requires forall k :: 0 <= k < |cells| ==> !Contains(cells[k], "Item") && !Contains(cells[k], "---")
    requires |padded| == |cells| && forall k :: 0 <= k < |cells| ==> padded[k] == Padded(cells[k])
    ensures IsCandidate(Framed(padded))
  {
    PaddedCellsAvoid(cells, padded, "Item");
    PaddedCellsAvoid(cells, padded, "---");
    assert Framed(padded)[0] == '|';
  }

  /** A word without spaces or `|` that no cell mentions is not mentioned by
      the framed line of the padded cells. */
  lemma PaddedCellsAvoid(cells: seq<string>, padded: seq<string>, word: string)
    requires word != [] && ' ' !in word && '|' !in word
    requires forall k :: 0 <= k < |cells| ==> !Contains(cells[k], word)
    requires |padded| == |cells| && forall k :: 0 <= k < |cells| ==> padded[k] == Padded(cells[k])
    ensures !Contains(Framed(padded), word)
  {
    forall k | 0 <= k < |cells| ensures !Contains(padded[k], word) {
      PaddedContains(cells[k], word);
    }
    FramedAvoids(padded, word);
  }

  /** A framed line mentions a word without spaces or `|` only if a piece does. */
  lemma FramedAvoids(pieces: seq<string>, word: string)
    requires word != [] && '|' !in word
    requires forall k :: 0 <= k < |pieces| ==> !Contains(pieces[k], word)
    ensures !Contains(Framed(pieces), word)
  {
    var all := [""] + pieces + [""];
    JoinContains(all, '|', word);
    ContainsHead([], word);
    forall k | 0 <= k < |all| ensures !Contains(all[k], word) {
      if 0 < k < |all| - 1 {
        assert all[k] == pieces[k - 1];
      } else {
        assert all[k] == [];
      }
    }
  }

  // ---- toStacks and toShulkers

  /** Blocks per stack. */
  const StackSize: real := 64.0
  /** Stacks per shulker box. */
  const StacksPerShulker: real := 27.0

  /** `toStacks`: the exact number of stacks `total` blocks fill. */
  function ToStacks(total: real): (stacks: real)
    ensures stacks * StackSize == total
    ensures total >= 0.0 ==> stacks >= 0.0
  {
    total / 64.0
  }

  /** `toShulkers`: the exact number of shulker boxes (27 stacks of 64)
      `total` blocks fill. */
  function ToShulkers(total: real): (shulkers: real)
    ensures shulkers * (StacksPerShulker * StackSize) == total
    ensures total >= 0.0 ==> shulkers >= 0.0
  {
    total / (27.0 * 64.0)
  }

  lemma ConversionUnits()
    ensures ToStacks(64.0) == 1.0 && ToStacks(32.0) == 0.5
    ensures ToShulkers(1728.0) == 1.0
  {
  }

  lemma ShulkersAreStacksOverTwentySeven(total: real)
    ensures ToShulkers(total) == ToStacks(total) / StacksPerShulker
  {
  }

  lemma ConversionsLinear(a: real, b: real)
    ensures ToStacks(a + b) == ToStacks(a) + ToStacks(b)
    ensures ToShulkers(a + b) == ToShulkers(a) + ToShulkers(b)
  {
  }

  function Sum(xs: seq<real>): real {
    if |xs| == 0 then 0.0 else Sum(xs[..|xs| - 1]) + xs[|xs| - 1]
  }

  function StacksOfEach(totals: seq<real>): (r: seq<real>)
    ensures |r| == |totals| && forall k :: 0 <= k < |r| ==> r[k] == ToStacks(totals[k])
  {
    seq(|totals|, k requires 0 <= k < |totals| => ToStacks(totals[k]))
  }

  function ShulkersOfEach(totals: seq<real>): (r: seq<real>)
    ensures |r| == |totals| && forall k :: 0 <= k < |r| ==> r[k] == ToShulkers(totals[k])
  {
    seq(|totals|, k requires 0 <= k < |totals| => ToShulkers(totals[k]))
  }

  /** Summing the row totals and converting gives the same as converting each
      row and summing: totals may be aggregated in either order. */
  lemma {:induction false} ConvertSum(totals: seq<real>)
    ensures ToStacks(Sum(totals)) == Sum(StacksOfEach(totals))
    ensures ToShulkers(Sum(totals)) == Sum(ShulkersOfEach(totals))
  {
    if |totals| > 0 {
      var init := totals[..|totals| - 1];
      ConvertSum(init);
      assert StacksOfEach(totals)[..|totals| - 1] == StacksOfEach(init);
      assert ShulkersOfEach(totals)[..|totals| - 1] == ShulkersOfEach(init);
      ConversionsLinear(Sum(init), totals[|totals| - 1]);
    }
  }
}
