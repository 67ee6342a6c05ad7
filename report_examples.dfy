/**
 * Concrete lines of a Litematica material list and what the parser makes
 * of them (lib/materials.ts:13-42).
 */
module ReportExamples {
  import opened Wrappers
  import opened Text
  import opened Materials

  /** The report `| Кирпичи | 4 974 | 4974 | 0 |` gives one row, whose total
      has its thousands separator removed. */
  lemma BrickReport()
    ensures ParsedRows("| Кирпичи | 4 974 | 4974 | 0 |") ==
      [MaterialRow("Кирпичи", Val(4974), Val(4974), Val(0))]
  {
    var text := "| Кирпичи | 4 974 | 4974 | 0 |";
    assert text == Framed([Padded("Кирпичи"), Padded("4 974"), Padded("4974"), Padded("0")]) by {
      BrickText();
    }
    SingleTableLine(text);
    BrickRow();
  }

  lemma BrickText()
    ensures Framed([Padded("Кирпичи"), Padded("4 974"), Padded("4974"), Padded("0")]) ==
      "| Кирпичи | 4 974 | 4974 | 0 |"
  {
    FramedFour(Padded("Кирпичи"), Padded("4 974"), Padded("4974"), Padded("0"));
  }

  /** A line of four pieces is the pieces between five `|`. */
  lemma FramedFour(a: string, b: string, c: string, d: string)
    ensures Framed([a, b, c, d]) == "|" + a + "|" + b + "|" + c + "|" + d + "|"
  {
    assert [""] + [a, b, c, d] + [""] == [""] + [a, b, c, d, ""];
    JoinCons("", [a, b, c, d, ""]);
    JoinCons(a, [b, c, d, ""]);
    JoinCons(b, [c, d, ""]);
    JoinCons(c, [d, ""]);
    JoinCons(d, [""]);
  }

  /** Joining with `|` puts one `|` after the first piece. */
  lemma JoinCons(p: string, rest: seq<string>)
    requires |rest| >= 1
    ensures Join([p] + rest, '|') == p + "|" + Join(rest, '|')
  {
    assert ([p] + rest)[1..] == rest;
  }

  /** A line of one piece is the piece between two `|`. */
  lemma FramedOne(a: string)
    ensures Framed([a]) == "|" + a + "|"
  {
    var all := ["", a, ""];
    assert [""] + [a] + [""] == all;
    assert all[1..] == [a, ""];
    assert all[1..][1..] == [""];
    assert Join([a, ""], '|') == a + "|";
  }

  /** The header report gives no row. */
  lemma HeaderReport()
    ensures ParsedRows("| Item | Total | Missing | Available |") == []
  {
    SingleTableLine("| Item | Total | Missing | Available |");
    HeaderRow();
  }

  /** The separator report gives no row. */
  lemma SeparatorReport()
    ensures ParsedRows("+----+-----+") == []
  {
    var text := "+----+-----+";
    assert '\n' !in text && IsTrimmed(text);
    TrimFixpoint(text);
    OneLineRows(text);
    SeparatorRow();
  }

  /** The caption report gives no row. */
  lemma CaptionReport()
    ensures ParsedRows("| Список материалов |") == []
  {
    var text := "| Список материалов |";
    assert text == Framed([Padded("Список материалов")]) by {
      FramedOne(Padded("Список материалов"));
    }
    SingleTableLine(text);
    CaptionRow();
  }

  /** A text of one table line, bordered by `|`, is that line alone. */
  lemma SingleTableLine(text: string)
    requires '\n' !in text && text != [] && text[0] == '|' && text[|text| - 1] == '|'
    ensures ParsedRows(text) == ToSeq(ParseLine(text))
  {
    assert Trim(text) == text by {
      TrimFixpoint(text);
    }
    OneLineRows(text);
  }

  /** A row with a thousands separator in its total: `| Кирпичи | 4 974 | 4974 | 0 |`. */
  lemma BrickRow()
    ensures ParseLine(Framed([Padded("Кирпичи"), Padded("4 974"), Padded("4974"), Padded("0")])) ==
      Some(MaterialRow("Кирпичи", Val(4974), Val(4974), Val(0)))
  {
    BrickCells();
    FramedRow("Кирпичи", "4 974", "4974", "0");
    ParseFourCells(Framed([Padded("Кирпичи"), Padded("4 974"), Padded("4974"), Padded("0")]),
      "Кирпичи", "4 974", "4974", "0");
    NumberFromCellExample();
    NumberFromCellReadsDecimal(0);
    assert ToRadix(0, 10) == "0";
  }

  /** The four cells of the brick row are report cells. */
  lemma BrickCells()
    ensures IsReportCell("Кирпичи") && IsReportCell("4 974") && IsReportCell("4974") && IsReportCell("0")
  {
    BrickNameCell();
    SpacedCountCell();
    CountCells();
  }

  lemma SpacedCountCell()
    ensures IsReportCell("4 974")
  {
    PlainCell("4 974");
  }

  lemma CountCells()
    ensures IsReportCell("4974") && IsReportCell("0")
  {
    DigitsExample();
    DigitsAreReportCell("4974");
    assert AllRadixDigits("0", 10);
    DigitsAreReportCell("0");
  }

  lemma BrickNameCell()
    ensures IsReportCell("Кирпичи")
  {
    PlainCell("Кирпичи");
  }

  /** A cell that starts and ends with a non-space and holds neither `|`,
      `I` nor `-` is a report cell. */
  lemma PlainCell(s: string)
    requires s != [] && !IsWhitespace(s[0]) && !IsWhitespace(s[|s| - 1])
    requires '|' !in s && 'I' !in s && '-' !in s
    ensures IsReportCell(s)
  {
    ContainsHead(s, "Item");
    ContainsHead(s, "---");
  }

  /** The column header `| Item | Total | Missing | Available |` has four
      cells but mentions `Item`, so it gives no row. */
  lemma HeaderRow()
    ensures Cells("| Item | Total | Missing | Available |") == ["Item", "Total", "Missing", "Available"]
    ensures ParseLine("| Item | Total | Missing | Available |") == None
  {
    HeaderCells();
    HeaderMentionsItem();
  }

  lemma HeaderMentionsItem()
    ensures ParseLine("| Item | Total | Missing | Available |") == None
  {
    assert "| " + "Item" + " | Total | Missing | Available |" == "| Item | Total | Missing | Available |";
    MentionsItem("| ", " | Total | Missing | Available |");
  }

  /** The header splits into its four column names. */
  lemma HeaderCells()
    ensures Cells("| Item | Total | Missing | Available |") == ["Item", "Total", "Missing", "Available"]
  {
    assert Framed([Padded("Item"), Padded("Total"), Padded("Missing"), Padded("Available")]) ==
      "| Item | Total | Missing | Available |" by {
      HeaderText();
    }
    HeaderWords();
    FourCells("Item", "Total", "Missing", "Available");
  }

  lemma HeaderText()
    ensures Framed([Padded("Item"), Padded("Total"), Padded("Missing"), Padded("Available")]) ==
      "| Item | Total | Missing | Available |"
  {
    FramedFour(Padded("Item"), Padded("Total"), Padded("Missing"), Padded("Available"));
    assert "|" + Padded("Item") == "| Item ";
    assert "| Item " + "|" == "| Item |";
    assert "| Item |" + Padded("Total") == "| Item | Total ";
    assert "| Item | Total " + "|" == "| Item | Total |";
    assert "| Item | Total |" + Padded("Missing") == "| Item | Total | Missing ";
    assert "| Item | Total | Missing " + "|" == "| Item | Total | Missing |";
    assert "| Item | Total | Missing |" + Padded("Available") == "| Item | Total | Missing | Available ";
    assert "| Item | Total | Missing | Available " + "|" == "| Item | Total | Missing | Available |";
  }

  lemma HeaderWords()
    ensures IsWord("Item") && IsWord("Total") && IsWord("Missing") && IsWord("Available")
  {
  }

  /** A cell the splitter gives back unchanged: non-empty, trimmed, `|`-free. */
  predicate IsWord(w: string) {
    w != [] && IsTrimmed(w) && '|' !in w
  }

  /** Four such cells, padded and framed, split back into themselves. */
  lemma FourCells(a: string, b: string, c: string, d: string)
    requires IsWord(a) && IsWord(b) && IsWord(c) && IsWord(d)
    ensures Cells(Framed([Padded(a), Padded(b), Padded(c), Padded(d)])) == [a, b, c, d]
  {
    FramedCellsAre([a, b, c, d], [Padded(a), Padded(b), Padded(c), Padded(d)]);
  }

  /** A line that mentions `Item` anywhere is filtered out. */
  lemma MentionsItem(pre: string, rest: string)
    ensures ParseLine(pre + "Item" + rest) == None
  {
    var line := pre + "Item" + rest;
    assert line[|pre|..|pre| + 4] == "Item";
    assert OccursAt(line, "Item", |pre|);
    ContainsSpec(line, "Item");
  }

  /** A separator row does not start with `|`. */
  lemma SeparatorRow()
    ensures ParseLine("+----+-----+") == None
  {
    var line := "+----+-----+";
    assert line[..1] == "+";
  }

  /** The caption `| Список материалов |` splits into a single cell. */
  lemma CaptionRow()
    ensures ParseLine(Framed([Padded("Список материалов")])) == None
  {
    CaptionCells();
    WrongCellCount(Framed([Padded("Список материалов")]));
  }

  lemma CaptionCells()
    ensures Cells(Framed([Padded("Список материалов")])) == ["Список материалов"]
  {
    CaptionCell();
    SingleCell("Список материалов");
  }

  /** A line framing one padded cell has that cell alone. */
  lemma SingleCell(cell: string)
    requires cell != [] && IsTrimmed(cell) && '|' !in cell
    ensures Cells(Framed([Padded(cell)])) == [cell]
  {
    FramedCellsAre([cell], [Padded(cell)]);
  }

  lemma CaptionCell()
    ensures IsReportCell("Список материалов")
  {
    PlainCell("Список материалов");
  }

  /** Parsing the empty text gives no rows. */
  method EmptyReport() returns (rows: seq<MaterialRow>)
    ensures rows == []
  {
    EmptyTextNoRows();
    rows := ParseMaterials("");
  }
}
