/**
 * The logic of generate_excel_report_command.py that is not spreadsheet
 * styling: the report's file name, the refusal of an empty report, the row
 * arithmetic of the summary sheet's sections, and the environment summary
 * derived from the branch table.
 *
 * A sheet is a map from (row, column) to a cell, both numbered from 1 as in
 * the spreadsheet; fonts, fills and column widths are not modelled.
 */
module ExcelReport {
  import opened Wrappers
  import opened Strings
  import opened Entities
  import opened Aggregation
  import opened Records
  import opened GitMetrics
  import opened CommitStatistics

  // ---------------------------------------------------------------------
  // The report file.
  // ---------------------------------------------------------------------

  /** The characters the file-name fragment keeps: alphanumerics and '_'. */
  predicate IsNameChar(c: char) {
    IsAlnum(c) || c == '_'
  }

  /** `"".join(c for c in s if c.isalnum() or c == '_')`. */
  function KeepNameChars(s: string): string {
    if s == [] then []
    else KeepNameChars(s[..|s| - 1]) + (if IsNameChar(s[|s| - 1]) then [s[|s| - 1]] else [])
  }

  /** The file-name fragment: the single author's lower-cased name, cleaned, or "multiple_authors". */
  function NameFragment(authors: seq<Author>): string {
    if |authors| == 1 then KeepNameChars(Lower(authors[0].name)) else "multiple_authors"
  }

  /** `f"relatorio_git_{timestamp}_{author_name}.xlsx"`. */
  function ReportFileName(timestamp: string, fragment: string): string {
    "relatorio_git_" + timestamp + "_" + fragment + ".xlsx"
  }

  /** `output_dir / filename`. */
  function ReportPath(outputDir: string, timestamp: string, authors: seq<Author>): string {
    outputDir + "/" + ReportFileName(timestamp, NameFragment(authors))
  }

  /** The kept characters are the name characters of s, each as often as s has it. */
  lemma {:induction false} KeepNameCharsSpec(s: string)
    ensures |KeepNameChars(s)| <= |s|
    ensures forall i :: 0 <= i < |KeepNameChars(s)| ==> IsNameChar(KeepNameChars(s)[i])
    ensures forall c :: c in KeepNameChars(s) <==> c in s && IsNameChar(c)
    ensures forall c :: multiset(KeepNameChars(s))[c] == if IsNameChar(c) then multiset(s)[c] else 0
  {
    if s != [] {
      var init := s[..|s| - 1];
      KeepNameCharsSpec(init);
      assert s == init + [s[|s| - 1]];
    }
  }

  /**
   * Cleaning works in order: the cleaned text of a concatenation is the
   * concatenation of the cleaned parts.
   */
  lemma {:induction false} KeepNameCharsConcat(a: string, b: string)
    ensures KeepNameChars(a + b) == KeepNameChars(a) + KeepNameChars(b)
    decreases |b|
  {
    if b == [] {
      assert a + b == a;
    } else {
      var init := b[..|b| - 1];
      var c := b[|b| - 1];
      var tail := if IsNameChar(c) then [c] else [];
      KeepNameCharsConcat(a, init);
      assert (a + b)[..|a + b| - 1] == a + init;
      assert (a + b)[|a + b| - 1] == c;
      assert KeepNameChars(a + b) == KeepNameChars(a) + KeepNameChars(init) + tail;
    }
  }

  /** A single character is kept exactly when it is a name character. */
  lemma KeepNameCharsOne(c: char)
    ensures KeepNameChars([c]) == if IsNameChar(c) then [c] else []
  {
    assert [c][..0] == [];
  }

  /** A string of name characters only is kept whole. */
  lemma {:induction false} KeepNameCharsKeepsClean(s: string)
    requires forall i :: 0 <= i < |s| ==> IsNameChar(s[i])
    ensures KeepNameChars(s) == s
  {
    if s != [] {
      KeepNameCharsKeepsClean(s[..|s| - 1]);
    }
  }

  /**
   * With one author the fragment holds only lower-case letters, digits and
   * '_', each a character of the lower-cased name; otherwise it is
   * "multiple_authors".
   */
  lemma NameFragmentSpec(authors: seq<Author>)
    ensures |authors| != 1 ==> NameFragment(authors) == "multiple_authors"
    ensures |authors| == 1 ==> forall i :: 0 <= i < |NameFragment(authors)| ==>
      && IsNameChar(NameFragment(authors)[i])
      && !('A' <= NameFragment(authors)[i] <= 'Z')
      && NameFragment(authors)[i] in Lower(authors[0].name)
  {
    if |authors| == 1 {
      var low := Lower(authors[0].name);
      KeepNameCharsSpec(low);
      assert forall i :: 0 <= i < |KeepNameChars(low)| ==> KeepNameChars(low)[i] in KeepNameChars(low);
    }
  }

  /** The fragment of a clean lower-case name is the name itself; cleaning twice changes nothing. */
  lemma NameFragmentOfCleanName(a: Author)
    requires forall i :: 0 <= i < |a.name| ==> ('a' <= a.name[i] <= 'z' || '0' <= a.name[i] <= '9' || a.name[i] == '_')
    ensures NameFragment([a]) == a.name
  {
    assert Lower(a.name) == a.name;
    KeepNameCharsKeepsClean(a.name);
  }

  /** The file name can be taken apart again: the timestamp and the fragment sit at fixed places. */
  lemma ReportFileNameParts(timestamp: string, fragment: string)
    ensures var f := ReportFileName(timestamp, fragment);
      && StartsWith(f, "relatorio_git_")
      && f[14..14 + |timestamp|] == timestamp
      && f[14 + |timestamp|] == '_'
      && f[15 + |timestamp|..|f| - 5] == fragment
      && f[|f| - 5..] == ".xlsx"
  {
  }

  /** The output directory: whether it exists and the files written in it. */
  class OutputDir {
    const path: string
    var present: bool
    var files: seq<string>

    constructor (path: string, present: bool)
      ensures this.path == path && this.present == present && files == []
    {
      this.path := path;
      this.present := present;
      files := [];
    }

    /** `mkdir(exist_ok=True)`. */
    method Mkdir()
      modifies this
      ensures present && files == old(files)
    {
      present := true;
    }

    /** The workbook is written to the path; its content is not modelled. */
    method Write(file: string)
      modifies this
      ensures present == old(present) && files == old(files) + [file]
    {
      files := files + [file];
    }
  }

  /**
   * `execute()` for the statistics the query returned: with no daily rows
   * the ValueError and no change to the directory; otherwise the report is
   * written to its path in the (created) directory, and the path returned.
   */
  method Execute(stats: Statistics, authors: seq<Author>, dir: OutputDir, timestamp: string)
    returns (r: Result<string, string>)
    modifies dir
    ensures stats.daily == [] ==> r.Err? && dir.present == old(dir.present) && dir.files == old(dir.files)
    ensures stats.daily != [] ==>
      && r == Ok(ReportPath(dir.path, timestamp, authors))
      && dir.present && dir.files == old(dir.files) + [r.value]
  {
    if stats.daily == [] {
      return Err("Nenhum dado encontrado para gerar o relatório");
    }
    var fragment := if |authors| == 1 then KeepNameChars(Lower(authors[0].name)) else "multiple_authors";
    var outputPath := dir.path + "/" + ReportFileName(timestamp, fragment);
    dir.Mkdir();
    dir.Write(outputPath);
    r := Ok(outputPath);
  }

  /** The report of a repository query is refused exactly when the query found no commit. */
  lemma NoCommitsNoReport(commits: seq<Commit>)
    ensures StatisticsOf(commits).daily == [] <==> commits == []
  {
    if commits != [] {
      var rs := CommitRecords(commits);
      CommitRecordsSpec(commits);
      GroupSpec(rs, DailyKey);
      assert DailyKey(rs[0]) in KeySet(rs, DailyKey);
    }
  }

  // ---------------------------------------------------------------------
  // Sections of the summary sheet.
  // ---------------------------------------------------------------------

  datatype Cell = Text(text: string) | Number(n: int)

  /** A data frame as `dataframe_to_rows(header=True)` yields it: the header, then the rows. */
  datatype Frame = Frame(header: seq<Cell>, rows: seq<seq<Cell>>)

  type Cells = map<(int, int), Cell>

  /** The cells of one sheet row r: value i of row goes to column i + 1. */
  function WriteRow(m: Cells, row: seq<Cell>, r: int): Cells {
    if row == [] then m
    else WriteRow(m, row[..|row| - 1], r)[(r, |row|) := row[|row| - 1]]
  }

  /** The rows, the first at sheet row `first`, each next one a row further down. */
  function WriteRows(m: Cells, rows: seq<seq<Cell>>, first: int): Cells {
    if rows == [] then m
    else WriteRow(WriteRows(m, rows[..|rows| - 1], first), rows[|rows| - 1], first + |rows| - 1)
  }

  /** The title in column A of the start row, the header and the data rows below it. */
  function Section(m: Cells, title: string, data: Frame, start: int): Cells {
    WriteRows(m[(start, 1) := Text(title)], [data.header] + data.rows, start + 1)
  }

  /** m' agrees with m on every row outside lo..hi. */
  predicate SameOutside(m: Cells, m': Cells, lo: int, hi: int) {
    && (forall p: (int, int) :: p in m' && (p.0 < lo || p.0 > hi) ==> p in m && m'[p] == m[p])
    && (forall p: (int, int) :: p in m && (p.0 < lo || p.0 > hi) ==> p in m')
  }

  /** Sheet row r holds the values of row, in columns 1..|row|. */
  predicate RowAt(m: Cells, row: seq<Cell>, r: int) {
    forall col :: 1 <= col <= |row| ==> (r, col) in m && m[(r, col)] == row[col - 1]
  }

  /** Writing a row sets exactly its cells and leaves every other row as it was. */
  lemma {:induction false} WriteRowSpec(m: Cells, row: seq<Cell>, r: int)
    ensures RowAt(WriteRow(m, row, r), row, r)
    ensures SameOutside(m, WriteRow(m, row, r), r, r)
  {
    if row != [] {
      var init := row[..|row| - 1];
      var w := WriteRow(m, init, r);
      var w' := WriteRow(m, row, r);
      WriteRowSpec(m, init, r);
      assert w' == w[(r, |row|) := row[|row| - 1]];
      forall col | 1 <= col <= |row|
        ensures (r, col) in w' && w'[(r, col)] == row[col - 1]
      {
        if col < |row| {
          assert row[col - 1] == init[col - 1];
          assert (r, col) in w && w[(r, col)] == init[col - 1];
        }
      }
    }
  }

  /** A row of m outside the rows m' changed is still there in m'. */
  lemma KeptRow(m: Cells, m': Cells, lo: int, hi: int, row: seq<Cell>, r: int)
    requires SameOutside(m, m', lo, hi) && RowAt(m, row, r) && (r < lo || r > hi)
    ensures RowAt(m', row, r)
  {
    forall col | 1 <= col <= |row|
      ensures (r, col) in m' && m'[(r, col)] == row[col - 1]
    {
      assert (r, col) in m;
    }
  }

  lemma SameOutsideTrans(m: Cells, m': Cells, m'': Cells, lo: int, hi: int, lo': int, hi': int, lo0: int, hi0: int)
    requires SameOutside(m, m', lo, hi) && SameOutside(m', m'', lo', hi')
    requires lo0 <= lo && lo0 <= lo' && hi <= hi0 && hi' <= hi0
    ensures SameOutside(m, m'', lo0, hi0)
  {
  }

  /** Writing rows puts each at its own sheet row and leaves the rows outside the block as they were. */
  lemma {:induction false} WriteRowsSpec(m: Cells, rows: seq<seq<Cell>>, first: int)
    ensures forall i :: 0 <= i < |rows| ==> RowAt(WriteRows(m, rows, first), rows[i], first + i)
    ensures SameOutside(m, WriteRows(m, rows, first), first, first + |rows| - 1)
  {
    if rows != [] {
      var n := |rows| - 1;
      var init := rows[..n];
      var before := WriteRows(m, init, first);
      var after := WriteRows(m, rows, first);
      assert after == WriteRow(before, rows[n], first + n);
      assert forall i :: 0 <= i < n ==> RowAt(before, init[i], first + i) by {
        WriteRowsSpec(m, init, first);
      }
      assert SameOutside(m, before, first, first + n - 1) by {
        WriteRowsSpec(m, init, first);
      }
      assert RowAt(after, rows[n], first + n) && SameOutside(before, after, first + n, first + n) by {
        WriteRowSpec(before, rows[n], first + n);
      }
      forall i | 0 <= i < n
        ensures RowAt(after, rows[i], first + i)
      {
        assert rows[i] == init[i];
        KeptRow(before, after, first + n, first + n, init[i], first + i);
      }
      SameOutsideTrans(m, before, after, first, first + n - 1, first + n, first + n, first, first + n);
    }
  }

  /**
   * A section puts its title in column A of its start row, the header on the
   * next row, data row i on row start + 2 + i, and changes nothing outside
   * rows start..start + 1 + |rows|.
   */
  lemma SectionSpec(m: Cells, title: string, data: Frame, start: int)
    ensures (start, 1) in Section(m, title, data, start) && Section(m, title, data, start)[(start, 1)] == Text(title)
    ensures RowAt(Section(m, title, data, start), data.header, start + 1)
    ensures forall i :: 0 <= i < |data.rows| ==> RowAt(Section(m, title, data, start), data.rows[i], start + 2 + i)
    ensures SameOutside(m, Section(m, title, data, start), start, start + 1 + |data.rows|)
  {
    var rows := [data.header] + data.rows;
    var m0 := m[(start, 1) := Text(title)];
    var sec := Section(m, title, data, start);
    WriteRowsSpec(m0, rows, start + 1);
    assert sec == WriteRows(m0, rows, start + 1);
    assert rows[0] == data.header;
    forall i | 0 <= i < |data.rows|
      ensures RowAt(sec, data.rows[i], start + 2 + i)
    {
      assert rows[i + 1] == data.rows[i];
      assert RowAt(sec, rows[i + 1], start + 1 + (i + 1));
    }
  }

  /** A worksheet of the workbook. */
  class Sheet {
    var cells: Cells
    /** The merged ranges, each (row, first column, last column). */
    var merged: seq<(int, int, int)>

    constructor ()
      ensures cells == map[] && merged == []
    {
      cells := map[];
      merged := [];
    }

    /**
     * `_add_section`: merge A:H of the start row and put the title there,
     * write the header and the data rows below it, and return the row of
     * the last data line (the header's row when there are no data rows).
     */
    method AddSection(title: string, data: Frame, startRow: int) returns (lastRow: int)
      modifies this
      ensures lastRow == startRow + 1 + |data.rows|
      ensures merged == old(merged) + [(startRow, 1, 8)]
      ensures cells == Section(old(cells), title, data, startRow)
    {
      merged := merged + [(startRow, 1, 8)];
      cells := cells[(startRow, 1) := Text(title)];
      ghost var titled := cells;
      var first := startRow + 1;
      var rows := [data.header] + data.rows;
      var i := 0;
      while i < |rows|
        invariant 0 <= i <= |rows|
        invariant merged == old(merged) + [(startRow, 1, 8)]
        invariant cells == WriteRows(titled, rows[..i], first)
      {
        assert rows[..i + 1][..i] == rows[..i];
        var row := rows[i];
        ghost var before := cells;
        var c := 0;
        while c < |row|
          invariant 0 <= c <= |row|
          invariant merged == old(merged) + [(startRow, 1, 8)]
          invariant cells == WriteRow(before, row[..c], first + i)
        {
          assert row[..c + 1][..c] == row[..c];
          cells := cells[(first + i, c + 1) := row[c]];
          c := c + 1;
        }
        assert row[..c] == row;
        i := i + 1;
      }
      assert rows[..i] == rows;
      lastRow := first + |data.rows|;
    }
  }

  /** The start rows of the four summary sections: row 1, then two rows below each section's last row. */
  function SectionStarts(byAuthor: Frame, byEnvironment: Frame, daily: Frame): (int, int, int, int) {
    var s1 := 1;
    var s2 := s1 + 1 + |byAuthor.rows| + 2;
    var s3 := s2 + 1 + |byEnvironment.rows| + 2;
    var s4 := s3 + 1 + |daily.rows| + 2;
    (s1, s2, s3, s4)
  }

  const AuthorTitle: string := "RESUMO POR AUTOR E AMBIENTE"
  const EnvironmentTitle: string := "RESUMO POR AMBIENTE (PRD/HML)"
  const DailyTitle: string := "TOTAIS DIÁRIOS"
  const MonthlyTitle: string := "TOTAIS MENSAIS"

  /** The cells of the summary sheet. */
  function SummaryCells(m: Cells, byAuthor: Frame, byEnvironment: Frame, daily: Frame, monthly: Frame): Cells {
    var (s1, s2, s3, s4) := SectionStarts(byAuthor, byEnvironment, daily);
    Section(Section(Section(Section(m, AuthorTitle, byAuthor, s1),
      EnvironmentTitle, byEnvironment, s2), DailyTitle, daily, s3), MonthlyTitle, monthly, s4)
  }

  /** `_create_summary_sheet`: the four sections, each starting two rows below the previous one's last row. */
  method CreateSummarySheet(sheet: Sheet, byAuthor: Frame, byEnvironment: Frame, daily: Frame, monthly: Frame)
    modifies sheet
    ensures sheet.cells == SummaryCells(old(sheet.cells), byAuthor, byEnvironment, daily, monthly)
    ensures var (s1, s2, s3, s4) := SectionStarts(byAuthor, byEnvironment, daily);
      sheet.merged == old(sheet.merged) + [(s1, 1, 8), (s2, 1, 8), (s3, 1, 8), (s4, 1, 8)]
  {
    var currentRow := 1;
    currentRow := sheet.AddSection(AuthorTitle, byAuthor, currentRow);
    currentRow := sheet.AddSection(EnvironmentTitle, byEnvironment, currentRow + 2);
    currentRow := sheet.AddSection(DailyTitle, daily, currentRow + 2);
    var _ := sheet.AddSection(MonthlyTitle, monthly, currentRow + 2);
  }

  /** A later section keeps an earlier cell whose row lies above it. */
  lemma KeptAbove(m: Cells, title: string, data: Frame, start: int, p: (int, int))
    requires p in m && p.0 < start
    ensures p in Section(m, title, data, start) && Section(m, title, data, start)[p] == m[p]
  {
    SectionSpec(m, title, data, start);
  }

  /** Four sections written one after the other, each starting two rows below the last row of the one before. */
  predicate Stacked(m: Cells, m1: Cells, m2: Cells, m3: Cells, m4: Cells,
                    byAuthor: Frame, byEnvironment: Frame, daily: Frame, monthly: Frame,
                    s1: int, s2: int, s3: int, s4: int) {
    && s2 == s1 + 1 + |byAuthor.rows| + 2 && s3 == s2 + 1 + |byEnvironment.rows| + 2
    && s4 == s3 + 1 + |daily.rows| + 2
    && m1 == Section(m, AuthorTitle, byAuthor, s1)
    && m2 == Section(m1, EnvironmentTitle, byEnvironment, s2)
    && m3 == Section(m2, DailyTitle, daily, s3)
    && m4 == Section(m3, MonthlyTitle, monthly, s4)
  }

  /** On the finished sheet every title stands in column A of its section's start row. */
  lemma StackedTitles(m: Cells, m1: Cells, m2: Cells, m3: Cells, m4: Cells,
                      byAuthor: Frame, byEnvironment: Frame, daily: Frame, monthly: Frame,
                      s1: int, s2: int, s3: int, s4: int)
    requires Stacked(m, m1, m2, m3, m4, byAuthor, byEnvironment, daily, monthly, s1, s2, s3, s4)
    ensures (s1, 1) in m4 && m4[(s1, 1)] == Text(AuthorTitle)
    ensures (s2, 1) in m4 && m4[(s2, 1)] == Text(EnvironmentTitle)
    ensures (s3, 1) in m4 && m4[(s3, 1)] == Text(DailyTitle)
    ensures (s4, 1) in m4 && m4[(s4, 1)] == Text(MonthlyTitle)
  {
    SectionSpec(m, AuthorTitle, byAuthor, s1);
    SectionSpec(m1, EnvironmentTitle, byEnvironment, s2);
    SectionSpec(m2, DailyTitle, daily, s3);
    SectionSpec(m3, MonthlyTitle, monthly, s4);
    KeptAbove(m1, EnvironmentTitle, byEnvironment, s2, (s1, 1));
    KeptAbove(m2, DailyTitle, daily, s3, (s1, 1));
    KeptAbove(m3, MonthlyTitle, monthly, s4, (s1, 1));
    KeptAbove(m2, DailyTitle, daily, s3, (s2, 1));
    KeptAbove(m3, MonthlyTitle, monthly, s4, (s2, 1));
    KeptAbove(m3, MonthlyTitle, monthly, s4, (s3, 1));
  }

  /** Row i of rows stands at sheet row first + i. */
  ghost predicate RowsAt(m: Cells, rows: seq<seq<Cell>>, first: int) {
    forall i :: 0 <= i < |rows| ==> RowAt(m, rows[i], first + i)
  }

  /** A written section holds its data rows and leaves the rows outside it alone. */
  lemma SectionPlaced(m: Cells, m': Cells, title: string, data: Frame, start: int)
    requires m' == Section(m, title, data, start)
    ensures RowsAt(m', data.rows, start + 2)
    ensures SameOutside(m, m', start, start + 1 + |data.rows|)
  {
    SectionSpec(m, title, data, start);
  }

  /** Rows written above a later section are still in place once it is written. */
  lemma RowsKept(m: Cells, m': Cells, lo: int, hi: int, rows: seq<seq<Cell>>, first: int)
    requires SameOutside(m, m', lo, hi) && first + |rows| <= lo
    requires RowsAt(m, rows, first)
    ensures RowsAt(m', rows, first)
  {
    forall i | 0 <= i < |rows|
      ensures RowAt(m', rows[i], first + i)
    {
      KeptRow(m, m', lo, hi, rows[i], first + i);
    }
  }

  /** Rows written above two later sections are still in place once both are written. */
  lemma RowsKeptTwice(m: Cells, m': Cells, m'': Cells, lo: int, hi: int, lo': int, hi': int,
                      rows: seq<seq<Cell>>, first: int)
    requires SameOutside(m, m', lo, hi) && SameOutside(m', m'', lo', hi')
    requires first + |rows| <= lo <= lo'
    requires RowsAt(m, rows, first)
    ensures RowsAt(m'', rows, first)
  {
    RowsKept(m, m', lo, hi, rows, first);
    RowsKept(m', m'', lo', hi', rows, first);
  }

  /** Each of the four sections holds its rows and leaves the others' rows alone. */
  lemma StackedPlaced(m: Cells, m1: Cells, m2: Cells, m3: Cells, m4: Cells,
                      byAuthor: Frame, byEnvironment: Frame, daily: Frame, monthly: Frame,
                      s1: int, s2: int, s3: int, s4: int)
    requires Stacked(m, m1, m2, m3, m4, byAuthor, byEnvironment, daily, monthly, s1, s2, s3, s4)
    ensures RowsAt(m1, byAuthor.rows, s1 + 2)
    ensures RowsAt(m2, byEnvironment.rows, s2 + 2) && SameOutside(m1, m2, s2, s2 + 1 + |byEnvironment.rows|)
    ensures RowsAt(m3, daily.rows, s3 + 2) && SameOutside(m2, m3, s3, s3 + 1 + |daily.rows|)
    ensures RowsAt(m4, monthly.rows, s4 + 2) && SameOutside(m3, m4, s4, s4 + 1 + |monthly.rows|)
  {
    SectionPlaced(m, m1, AuthorTitle, byAuthor, s1);
    SectionPlaced(m1, m2, EnvironmentTitle, byEnvironment, s2);
    SectionPlaced(m2, m3, DailyTitle, daily, s3);
    SectionPlaced(m3, m4, MonthlyTitle, monthly, s4);
  }

  /** Once the sections are stacked, every data row stands at its place under its title. */
  lemma StackedRows(m1: Cells, m2: Cells, m3: Cells, m4: Cells,
                    byAuthor: Frame, byEnvironment: Frame, daily: Frame, monthly: Frame,
                    s1: int, s2: int, s3: int, s4: int)
    requires s2 == s1 + 1 + |byAuthor.rows| + 2 && s3 == s2 + 1 + |byEnvironment.rows| + 2
    requires s4 == s3 + 1 + |daily.rows| + 2
    requires RowsAt(m1, byAuthor.rows, s1 + 2)
    requires RowsAt(m2, byEnvironment.rows, s2 + 2) && SameOutside(m1, m2, s2, s2 + 1 + |byEnvironment.rows|)
    requires RowsAt(m3, daily.rows, s3 + 2) && SameOutside(m2, m3, s3, s3 + 1 + |daily.rows|)
    requires RowsAt(m4, monthly.rows, s4 + 2) && SameOutside(m3, m4, s4, s4 + 1 + |monthly.rows|)
    ensures RowsAt(m4, byAuthor.rows, s1 + 2)
    ensures RowsAt(m4, byEnvironment.rows, s2 + 2)
    ensures RowsAt(m4, daily.rows, s3 + 2)
  {
    RowsKeptTwice(m1, m2, m3, s2, s2 + 1 + |byEnvironment.rows|, s3, s3 + 1 + |daily.rows|, byAuthor.rows, s1 + 2);
    RowsKept(m3, m4, s4, s4 + 1 + |monthly.rows|, byAuthor.rows, s1 + 2);
    RowsKeptTwice(m2, m3, m4, s3, s3 + 1 + |daily.rows|, s4, s4 + 1 + |monthly.rows|, byEnvironment.rows, s2 + 2);
    RowsKept(m3, m4, s4, s4 + 1 + |monthly.rows|, daily.rows, s3 + 2);
  }

  /**
   * No section overwrites another: on the finished sheet each title stands in
   * column A of its start row with its data rows under it, and one empty row
   * separates a section's last row from the next title.
   */
  lemma SummaryLayout(m: Cells, byAuthor: Frame, byEnvironment: Frame, daily: Frame, monthly: Frame)
    ensures var (s1, s2, s3, s4) := SectionStarts(byAuthor, byEnvironment, daily);
      var sheet := SummaryCells(m, byAuthor, byEnvironment, daily, monthly);
      && s1 == 1
      && s2 == s1 + 1 + |byAuthor.rows| + 2 && s3 == s2 + 1 + |byEnvironment.rows| + 2
      && s4 == s3 + 1 + |daily.rows| + 2
      && (s1, 1) in sheet && sheet[(s1, 1)] == Text(AuthorTitle)
      && (s2, 1) in sheet && sheet[(s2, 1)] == Text(EnvironmentTitle)
      && (s3, 1) in sheet && sheet[(s3, 1)] == Text(DailyTitle)
      && (s4, 1) in sheet && sheet[(s4, 1)] == Text(MonthlyTitle)
      && (forall i :: 0 <= i < |byAuthor.rows| ==> RowAt(sheet, byAuthor.rows[i], s1 + 2 + i))
      && (forall i :: 0 <= i < |byEnvironment.rows| ==> RowAt(sheet, byEnvironment.rows[i], s2 + 2 + i))
      && (forall i :: 0 <= i < |daily.rows| ==> RowAt(sheet, daily.rows[i], s3 + 2 + i))
      && (forall i :: 0 <= i < |monthly.rows| ==> RowAt(sheet, monthly.rows[i], s4 + 2 + i))
  {
    var (s1, s2, s3, s4) := SectionStarts(byAuthor, byEnvironment, daily);
    var m1 := Section(m, AuthorTitle, byAuthor, s1);
    var m2 := Section(m1, EnvironmentTitle, byEnvironment, s2);
    var m3 := Section(m2, DailyTitle, daily, s3);
    var m4 := Section(m3, MonthlyTitle, monthly, s4);
    assert m4 == SummaryCells(m, byAuthor, byEnvironment, daily, monthly);
    assert Stacked(m, m1, m2, m3, m4, byAuthor, byEnvironment, daily, monthly, s1, s2, s3, s4);
    StackedTitles(m, m1, m2, m3, m4, byAuthor, byEnvironment, daily, monthly, s1, s2, s3, s4);
    StackedPlaced(m, m1, m2, m3, m4, byAuthor, byEnvironment, daily, monthly, s1, s2, s3, s4);
    StackedRows(m1, m2, m3, m4, byAuthor, byEnvironment, daily, monthly, s1, s2, s3, s4);
  }

  // ---------------------------------------------------------------------
  // The environment summary.
  // ---------------------------------------------------------------------

  function BranchEnv(k: BranchKey): string { k.1 }

  /** `_get_environment_summary`: the branch table grouped again by environment. */
  function EnvironmentSummary(branchStats: seq<Row<BranchKey>>): seq<Row<string>> {
    Regroup(branchStats, BranchEnv)
  }

  /**
   * Each environment row sums the measures, `total_commits` included, of the
   * branch rows of that environment.
   */
  lemma EnvironmentSummaryFromBranchRows(branchStats: seq<Row<BranchKey>>)
    ensures forall i :: 0 <= i < |EnvironmentSummary(branchStats)| ==>
      EnvironmentSummary(branchStats)[i].total == SumKey(AsItems(branchStats, BranchEnv), EnvironmentSummary(branchStats)[i].key)
  {
    FoldTotals(AsItems(branchStats, BranchEnv));
  }

  /**
   * For the branch table of some commits, the environment summary has one
   * row per environment, counting the commits of that environment, and
   * `total_branches` is its set of distinct branches.
   */
  lemma EnvironmentSummarySpec(commits: seq<Commit>)
    ensures IsGrouping(EnvironmentSummary(StatisticsOf(commits).branches), CommitRecords(commits), GitMetrics.EnvKey)
    ensures SumRows(EnvironmentSummary(StatisticsOf(commits).branches)).commits == |commits|
  {
    var rs := CommitRecords(commits);
    CommitRecordsSpec(commits);
    if commits == [] {
      assert EnvironmentSummary(StatisticsOf(commits).branches) == [];
    } else {
      assert StatisticsOf(commits).branches == Group(rs, BranchStatKey);
      RegroupSpec(rs, BranchStatKey, BranchEnv, GitMetrics.EnvKey);
      GroupSum(rs, BranchStatKey);
      RegroupSum(Group(rs, BranchStatKey), BranchEnv);
    }
  }
}
