/** The results-integration script of the image-only task: every model's
    per-case reply texts are scanned with one regular expression for the
    five image fields, one summary sheet is written per model folder, and
    the summary sheets are gathered into one workbook. */
module Integration {
  import opened Wrappers
  import opened Text
  import opened Regex
  import opened Naming
  import GeminiRunner

  const FieldKeys: seq<string> := ["1_TypeOfMedicalImaging", "2_SpecificImagingSequence", "3_UseOfContrast",
                                   "4_ImagePlane", "5_PartOfTheBodyImaged"]
  const FirstCase: int := 1
  const LastCase: int := 272
  const SummaryBook: string := "sum.xlsx"
  const CombinedBook: string := "combined_sum.xlsx"

  /** The models whose folders `main` integrates, in sheet order. */
  const ModelNames: seq<string> := ["gpt4v_result", "gpt4o_result", "gemini_result", "gemini_flash_result", "Claude_result"]

  /** The folder name `create_result_folder` gives a model at temperature 1,
      trial 1; it titles the model's sheet. */
  function SheetName(model: string): string
  {
    model + FolderTail("1", 1)
  }

  /** The model's folder inside the model's directory. */
  function ModelFolder(model: string): string
  {
    model + "/" + SheetName(model)
  }

  /** The folder list of `main`: `gpt4v_result/gpt4v_result_temp_1_try1` and so on. */
  const FolderPaths: seq<string> := [ModelFolder(ModelNames[0]), ModelFolder(ModelNames[1]), ModelFolder(ModelNames[2]),
                                     ModelFolder(ModelNames[3]), ModelFolder(ModelNames[4])]

  /** The characters of `t` as literal pattern elements. */
  function Lits(t: string): (p: seq<Elem>)
    ensures |p| == |t| && forall k :: 0 <= k < |t| ==> p[k] == Lit(t[k])
  {
    seq(|t|, k requires 0 <= k < |t| => Lit(t[k]))
  }

  /** `"<key>":\s*"([^"]*)"[^{}]*` */
  function FieldPattern(key: string): seq<Elem>
  {
    [Lit('"')] + Lits(key) + [Lit('"'), Lit(':'), Star(Space), Lit('"'), Group(NotQuote), Lit('"'), Star(NotBrace)]
  }

  /** The pattern of `extract_info_from_text`: an opening brace, filler
      without braces, the five fields in order, each followed by filler
      without braces, and a closing brace. */
  const InfoPattern: seq<Elem> :=
    [Lit('{'), Star(NotBrace)] + FieldPattern(FieldKeys[0]) + FieldPattern(FieldKeys[1]) + FieldPattern(FieldKeys[2])
    + FieldPattern(FieldKeys[3]) + FieldPattern(FieldKeys[4]) + [Lit('}')]

  lemma FieldPatternGroups(key: string)
    ensures GroupCount(FieldPattern(key)) == 1 && GroupsIn(FieldPattern(key), NotQuote)
  {
    var tail: seq<Elem> := [Lit('"'), Lit(':'), Star(Space), Lit('"'), Group(NotQuote), Lit('"'), Star(NotBrace)];
    LitsHaveNoGroup(key);
    GroupCountAppend([Lit('"')], Lits(key));
    GroupCountAppend([Lit('"')] + Lits(key), tail);
    assert GroupCount(tail) == 1;
  }

  lemma {:induction false} LitsHaveNoGroup(t: string)
    ensures GroupCount(Lits(t)) == 0
    decreases |t|
  {
    if t != [] {
      assert Lits(t)[1..] == Lits(t[1..]);
      LitsHaveNoGroup(t[1..]);
    }
  }

  lemma GroupsInAppend(a: seq<Elem>, b: seq<Elem>, cl: Class)
    requires GroupsIn(a, cl) && GroupsIn(b, cl)
    ensures GroupsIn(a + b, cl)
  {
    assert forall k :: |a| <= k < |a| + |b| ==> (a + b)[k] == b[k - |a|];
  }

  /** The pattern has five groups, each capturing text without a double quote. */
  lemma InfoPatternShape()
    ensures GroupCount(InfoPattern) == 5 && GroupsIn(InfoPattern, NotQuote)
    ensures InfoPattern[0] == Lit('{') && InfoPattern[|InfoPattern| - 1] == Lit('}')
  {
    var p0: seq<Elem> := [Lit('{'), Star(NotBrace)];
    var p1 := p0 + FieldPattern(FieldKeys[0]);
    var p2 := p1 + FieldPattern(FieldKeys[1]);
    var p3 := p2 + FieldPattern(FieldKeys[2]);
    var p4 := p3 + FieldPattern(FieldKeys[3]);
    var p5 := p4 + FieldPattern(FieldKeys[4]);
    var close: seq<Elem> := [Lit('}')];
    assert InfoPattern == p5 + close;
    assert GroupCount(p0) == 0 && GroupsIn(p0, NotQuote);
    assert GroupCount(close) == 0 && GroupsIn(close, NotQuote);
    FieldPatternGroups(FieldKeys[0]);
    FieldPatternGroups(FieldKeys[1]);
    FieldPatternGroups(FieldKeys[2]);
    FieldPatternGroups(FieldKeys[3]);
    FieldPatternGroups(FieldKeys[4]);
    GroupCountAppend(p0, FieldPattern(FieldKeys[0]));
    GroupCountAppend(p1, FieldPattern(FieldKeys[1]));
    GroupCountAppend(p2, FieldPattern(FieldKeys[2]));
    GroupCountAppend(p3, FieldPattern(FieldKeys[3]));
    GroupCountAppend(p4, FieldPattern(FieldKeys[4]));
    GroupCountAppend(p5, close);
    GroupsInAppend(p0, FieldPattern(FieldKeys[0]), NotQuote);
    GroupsInAppend(p1, FieldPattern(FieldKeys[1]), NotQuote);
    GroupsInAppend(p2, FieldPattern(FieldKeys[2]), NotQuote);
    GroupsInAppend(p3, FieldPattern(FieldKeys[3]), NotQuote);
    GroupsInAppend(p4, FieldPattern(FieldKeys[4]), NotQuote);
    GroupsInAppend(p5, close, NotQuote);
  }

  /** `match.group(m + 1)`; every match of the pattern has all five groups. */
  function GroupAt(g: seq<string>, m: nat): string
  {
    if m < |g| then g[m] else ""
  }

  /** The dict `extract_info_from_text` returns, from the values in key order. */
  function InfoMap(v: seq<string>): map<string, string>
  {
    map[FieldKeys[0] := GroupAt(v, 0), FieldKeys[1] := GroupAt(v, 1), FieldKeys[2] := GroupAt(v, 2),
        FieldKeys[3] := GroupAt(v, 3), FieldKeys[4] := GroupAt(v, 4)]
  }

  lemma InfoMapValues(v: seq<string>)
    ensures forall m :: 0 <= m < 5 ==> InfoMap(v)[FieldKeys[m]] == GroupAt(v, m)
  {
    var r := InfoMap(v);
    assert FieldKeys[0][0] == '1' && FieldKeys[1][0] == '2' && FieldKeys[2][0] == '3'
           && FieldKeys[3][0] == '4' && FieldKeys[4][0] == '5';
    assert r[FieldKeys[0]] == GroupAt(v, 0);
    assert r[FieldKeys[1]] == GroupAt(v, 1);
    assert r[FieldKeys[2]] == GroupAt(v, 2);
    assert r[FieldKeys[3]] == GroupAt(v, 3);
  }

  /** `extract_info_from_text(text)`: the groups of the first match, or five
      empty strings. */
  function ExtractInfo(text: string): (r: map<string, string>)
    ensures r.Keys == set k | k in FieldKeys
  {
    match Search(InfoPattern, text)
    case Some(f) => InfoMap(f.m.groups)
    case None => InfoMap([])
  }

  /** When the pattern matches, the five values are the five groups of the
      leftmost match, none containing a double quote; that match starts
      with `{`, ends with `}` and is accepted by the pattern, and no earlier
      start admits a match. */
  lemma ExtractInfoMatched(text: string)
    requires Search(InfoPattern, text).Some?
    ensures var r, f := ExtractInfo(text), Search(InfoPattern, text).value;
            |f.m.groups| == 5
            && (forall m :: 0 <= m < 5 ==> r[FieldKeys[m]] == f.m.groups[m] && '"' !in f.m.groups[m])
            && f.start < f.m.end <= |text| && text[f.start] == '{' && text[f.m.end - 1] == '}'
            && Accepts(InfoPattern, text, f.start, f.m.end, f.m.groups)
            && forall k, j, g :: 0 <= k < f.start ==> !Accepts(InfoPattern, text, k, j, g)
  {
    var f := Search(InfoPattern, text).value;
    InfoPatternShape();
    SearchSpec(InfoPattern, text);
    InfoMapValues(f.m.groups);
    AcceptsGroups(InfoPattern, text, f.start, f.m.end, f.m.groups, NotQuote);
    AcceptsEndsWith(InfoPattern, text, f.start, f.m.end, f.m.groups, '}');
    forall m | 0 <= m < 5
      ensures '"' !in f.m.groups[m]
    {
      assert AllIn(NotQuote, f.m.groups[m]);
    }
  }

  /** With no match anywhere in the text (`SearchSpec`), all five values are empty. */
  lemma ExtractInfoUnmatched(text: string)
    requires Search(InfoPattern, text).None?
    ensures forall m :: 0 <= m < 5 ==> ExtractInfo(text)[FieldKeys[m]] == ""
  {
    assert ExtractInfo(text) == InfoMap([]);
    InfoMapValues([]);
  }

  /** A workbook cell: an integer or a string. */
  datatype Cell = Num(n: int) | Str(s: string)

  /** A worksheet: its title and its rows. */
  datatype Sheet = Sheet(title: string, rows: seq<seq<Cell>>)

  /** openpyxl's title for the sheet of a new workbook. */
  const DefaultTitle: string := "Sheet"

  const Header: seq<Cell> := [Str("case_number"), Str("1_Type_Of_Medical_Imaging"), Str("2_Specific_Imaging_Sequence"),
                              Str("3_Use_Of_Contrast"), Str("4_Image_Plane"), Str("5_Part_Of_The_Body_Imaged")]

  /** The files the script reads and writes: reply texts and workbooks, by path. */
  datatype Files = Files(texts: map<string, string>, books: map<string, seq<Sheet>>)

  /** The row for a case with no result file. */
  function BlankRow(caseNumber: int): seq<Cell>
  {
    [Num(caseNumber), Str(""), Str(""), Str(""), Str(""), Str("")]
  }

  /** The row for a case whose result file holds `text`. */
  function InfoRow(caseNumber: int, text: string): seq<Cell>
  {
    var info := ExtractInfo(text);
    [Num(caseNumber), Str(info[FieldKeys[0]]), Str(info[FieldKeys[1]]), Str(info[FieldKeys[2]]),
     Str(info[FieldKeys[3]]), Str(info[FieldKeys[4]])]
  }

  function SummaryRow(folder: string, texts: map<string, string>, caseNumber: int): seq<Cell>
  {
    var path := ResultPath(folder, caseNumber);
    if path in texts then InfoRow(caseNumber, texts[path]) else BlankRow(caseNumber)
  }

  /** The rows `process_files_in_folder` writes: the header, then one row for
      each case from 1 to 272. */
  function SummarySheet(folder: string, texts: map<string, string>): seq<seq<Cell>>
  {
    seq(LastCase - FirstCase + 2, k requires 0 <= k <= LastCase - FirstCase + 1 =>
      if k == 0 then Header else SummaryRow(folder, texts, k - 1 + FirstCase))
  }

  /** A case's row is six cells starting with the case number; a case whose
      file is missing, or whose text holds no match, has five empty values,
      and otherwise the values are the five fields extracted from its text. */
  lemma SummaryRowSpec(folder: string, texts: map<string, string>, i: int)
    ensures var row, path := SummaryRow(folder, texts, i), ResultPath(folder, i);
            |row| == 6 && row[0] == Num(i)
            && (path !in texts ==> row == BlankRow(i))
            && (path in texts && Search(InfoPattern, texts[path]).None? ==> row == BlankRow(i))
            && (path in texts ==> forall m :: 0 <= m < 5 ==> row[m + 1] == Str(ExtractInfo(texts[path])[FieldKeys[m]]))
  {
    var path := ResultPath(folder, i);
    if path in texts && Search(InfoPattern, texts[path]).None? {
      ExtractInfoUnmatched(texts[path]);
    }
  }

  /** The summary has the header and then, in case order, the row of each
      case from 1 to 272. */
  lemma SummarySheetSpec(folder: string, texts: map<string, string>)
    ensures var rows := SummarySheet(folder, texts);
            |rows| == 273 && rows[0] == Header
            && forall i :: 1 <= i <= 272 ==> rows[i] == SummaryRow(folder, texts, i)
  {
  }

  /** `process_files_in_folder(folder_path)`: builds the sheet row by row and
      saves it as the one sheet of `sum.xlsx` in the folder. */
  method ProcessFilesInFolder(files: Files, folder: string) returns (f: Files)
    ensures f == files.(books := files.books[PathJoin(folder, SummaryBook) := [Sheet(DefaultTitle, SummarySheet(folder, files.texts))]])
  {
    var rows := [Header];
    var i := FirstCase;
    while i <= LastCase
      invariant FirstCase <= i <= LastCase + 1
      invariant |rows| == i - FirstCase + 1 && rows[0] == Header
      invariant forall k :: 1 <= k < |rows| ==> rows[k] == SummaryRow(folder, files.texts, k - 1 + FirstCase)
    {
      var path := ResultPath(folder, i);
      if path in files.texts {
        var info := ExtractInfo(files.texts[path]);
        rows := rows + [[Num(i), Str(info[FieldKeys[0]]), Str(info[FieldKeys[1]]), Str(info[FieldKeys[2]]),
                         Str(info[FieldKeys[3]]), Str(info[FieldKeys[4]])]];
      } else {
        rows := rows + [[Num(i), Str(""), Str(""), Str(""), Str(""), Str("")]];
      }
      i := i + 1;
    }
    assert rows == SummarySheet(folder, files.texts);
    f := files.(books := files.books[PathJoin(folder, SummaryBook) := [Sheet(DefaultTitle, rows)]]);
  }

  /** `wb.active` of a loaded workbook: its first sheet's rows. */
  function ActiveRows(book: seq<Sheet>): seq<seq<Cell>>
  {
    if book == [] then [] else book[0].rows
  }

  function SummaryPath(folder: string): string
  {
    PathJoin(folder, SummaryBook)
  }

  /** The sheets `combine_excel_files` puts in the new workbook: for each
      folder in order whose `sum.xlsx` exists, a sheet titled with the last
      path component of the folder holding that workbook's active rows. */
  function Combined(folders: seq<string>, books: map<string, seq<Sheet>>): seq<Sheet>
    decreases |folders|
  {
    if folders == [] then []
    else
      var front := Combined(folders[..|folders| - 1], books);
      var folder := folders[|folders| - 1];
      if SummaryPath(folder) in books
      then front + [FolderSheet(folder, books)]
      else front
  }

  /** The sheet copied from a folder's `sum.xlsx`. */
  function FolderSheet(folder: string, books: map<string, seq<Sheet>>): Sheet
    requires SummaryPath(folder) in books
  {
    Sheet(LastComponent(folder), ActiveRows(books[SummaryPath(folder)]))
  }

  /** At most one sheet per folder. */
  lemma {:induction false} CombinedLength(folders: seq<string>, books: map<string, seq<Sheet>>)
    ensures |Combined(folders, books)| <= |folders|
    decreases |folders|
  {
    if folders != [] {
      CombinedLength(folders[..|folders| - 1], books);
    }
  }

  /** When every folder has its summary, the k-th sheet comes from the k-th
      folder. */
  lemma CombinedAllPresent(folders: seq<string>, books: map<string, seq<Sheet>>)
    requires forall k :: 0 <= k < |folders| ==> SummaryPath(folders[k]) in books
    ensures |Combined(folders, books)| == |folders|
    ensures forall k :: 0 <= k < |folders| ==> Combined(folders, books)[k] == FolderSheet(folders[k], books)
  {
    CombinedLengthAllPresent(folders, books);
    forall k | 0 <= k < |folders|
      ensures Combined(folders, books)[k] == FolderSheet(folders[k], books)
    {
      CombinedAt(folders, books, k);
    }
  }

  lemma {:induction false} CombinedLengthAllPresent(folders: seq<string>, books: map<string, seq<Sheet>>)
    requires forall k :: 0 <= k < |folders| ==> SummaryPath(folders[k]) in books
    ensures |Combined(folders, books)| == |folders|
    decreases |folders|
  {
    if folders != [] {
      var front := folders[..|folders| - 1];
      assert forall k :: 0 <= k < |front| ==> front[k] == folders[k];
      CombinedLengthAllPresent(front, books);
    }
  }

  lemma {:induction false} CombinedAt(folders: seq<string>, books: map<string, seq<Sheet>>, k: nat)
    requires forall j :: 0 <= j < |folders| ==> SummaryPath(folders[j]) in books
    requires k < |folders|
    ensures |Combined(folders, books)| == |folders|
    ensures Combined(folders, books)[k] == FolderSheet(folders[k], books)
    decreases |folders|
  {
    CombinedLengthAllPresent(folders, books);
    var n := |folders| - 1;
    var front := folders[..n];
    var prev := Combined(front, books);
    var sheet := FolderSheet(folders[n], books);
    assert Combined(folders, books) == prev + [sheet];
    if k < n {
      CombinedAt(front, books, k);
    }
  }

  /** When no folder has its summary, the combined workbook has no sheet. */
  lemma {:induction false} CombinedNonePresent(folders: seq<string>, books: map<string, seq<Sheet>>)
    requires forall k :: 0 <= k < |folders| ==> SummaryPath(folders[k]) !in books
    ensures Combined(folders, books) == []
    decreases |folders|
  {
    if folders != [] {
      var front := folders[..|folders| - 1];
      assert forall k :: 0 <= k < |front| ==> front[k] == folders[k];
      CombinedNonePresent(front, books);
    }
  }

  /** `combine_excel_files(folder_paths, combined_file_path)` */
  method CombineExcelFiles(files: Files, folders: seq<string>, target: string) returns (f: Files)
    ensures f == files.(books := files.books[target := Combined(folders, files.books)])
  {
    var sheets: seq<Sheet> := [];
    for i := 0 to |folders|
      invariant sheets == Combined(folders[..i], files.books)
    {
      assert folders[..i + 1][..i] == folders[..i];
      var path := SummaryPath(folders[i]);
      if path in files.books {
        sheets := sheets + [Sheet(LastComponent(folders[i]), ActiveRows(files.books[path]))];
      }
    }
    assert folders[..|folders|] == folders;
    f := files.(books := files.books[target := sheets]);
  }

  /** The books after `process_files_in_folder` has run on each folder in order. */
  function ProcessAll(files: Files, folders: seq<string>): Files
    decreases |folders|
  {
    if folders == [] then files
    else
      var folder := folders[|folders| - 1];
      var before := ProcessAll(files, folders[..|folders| - 1]);
      before.(books := before.books[SummaryPath(folder) := [Sheet(DefaultTitle, SummarySheet(folder, files.texts))]])
  }

  /** Processing leaves the reply texts alone and leaves, for each folder,
      its summary in its `sum.xlsx`, provided no two folders share one. */
  lemma {:induction false} ProcessAllSpec(files: Files, folders: seq<string>)
    requires forall a, b :: 0 <= a < b < |folders| ==> SummaryPath(folders[a]) != SummaryPath(folders[b])
    ensures ProcessAll(files, folders).texts == files.texts
    ensures forall k :: 0 <= k < |folders| ==>
              SummaryPath(folders[k]) in ProcessAll(files, folders).books
              && ProcessAll(files, folders).books[SummaryPath(folders[k])]
                 == [Sheet(DefaultTitle, SummarySheet(folders[k], files.texts))]
    decreases |folders|
  {
    if folders != [] {
      var front := folders[..|folders| - 1];
      assert forall k :: 0 <= k < |front| ==> front[k] == folders[k];
      ProcessAllSpec(files, front);
    }
  }

  /** `main()` */
  function IntegrationMain(files: Files): Files
  {
    var processed := ProcessAll(files, FolderPaths);
    processed.(books := processed.books[CombinedBook := Combined(FolderPaths, processed.books)])
  }

  method RunIntegration(files: Files) returns (f: Files)
    ensures f == IntegrationMain(files)
  {
    f := files;
    for i := 0 to |FolderPaths|
      invariant f == ProcessAll(files, FolderPaths[..i])
      invariant f.texts == files.texts
    {
      assert FolderPaths[..i + 1][..i] == FolderPaths[..i];
      f := ProcessFilesInFolder(f, FolderPaths[i]);
    }
    assert FolderPaths[..|FolderPaths|] == FolderPaths;
    f := CombineExcelFiles(f, FolderPaths, CombinedBook);
  }

  lemma LastComponentAfter(a: string, b: string)
    requires '/' !in b
    ensures LastComponent(a + "/" + b) == b
  {
    var s := a + "/" + b;
    assert s[|a| + 1..] == b;
    LastIndexOfUnique(s, '/', |a|);
  }

  lemma TailHasNoSlash(temperature: string, trial: nat)
    requires '/' !in temperature
    ensures '/' !in FolderTail(temperature, trial)
  {
    var shown := ReplaceChar(temperature, '.', '_');
    assert forall i :: 0 <= i < |shown| ==> shown[i] == if temperature[i] == '.' then '_' else temperature[i];
    assert FolderTail(temperature, trial) == TemperatureTag + shown + TrialTag + NatToString(trial);
  }

  lemma FolderNames()
    ensures forall k :: 0 <= k < 5 ==> LastComponent(FolderPaths[k]) == SheetName(ModelNames[k])
  {
    TailHasNoSlash("1", 1);
    forall k | 0 <= k < 5
      ensures LastComponent(FolderPaths[k]) == SheetName(ModelNames[k])
    {
      assert '/' !in ModelNames[k];
      LastComponentAfter(ModelNames[k], SheetName(ModelNames[k]));
    }
  }

  /** Different models get different summary workbooks. */
  lemma ModelSummaryPathsDiffer(ma: string, mb: string)
    requires ma != mb && '/' !in ma && '/' !in mb
    ensures SummaryPath(ModelFolder(ma)) != SummaryPath(ModelFolder(mb))
  {
    TailHasNoSlash("1", 1);
    var ta, tb := SheetName(ma) + "/" + SummaryBook, SheetName(mb) + "/" + SummaryBook;
    assert FolderTail("1", 1) != [] && SheetName(ma)[|SheetName(ma)| - 1] in FolderTail("1", 1);
    assert SheetName(mb)[|SheetName(mb)| - 1] in FolderTail("1", 1);
    assert SummaryPath(ModelFolder(ma)) == ma + ['/'] + ta;
    assert SummaryPath(ModelFolder(mb)) == mb + ['/'] + tb;
    if SummaryPath(ModelFolder(ma)) == SummaryPath(ModelFolder(mb)) {
      SplitAtSeparator(ma, ta, mb, tb, '/');
    }
  }

  lemma SummaryPathsDistinct()
    ensures forall a, b :: 0 <= a < b < |FolderPaths| ==> SummaryPath(FolderPaths[a]) != SummaryPath(FolderPaths[b])
  {
    forall a, b | 0 <= a < b < |FolderPaths|
      ensures SummaryPath(FolderPaths[a]) != SummaryPath(FolderPaths[b])
    {
      ModelSummaryPathsDiffer(ModelNames[a], ModelNames[b]);
    }
  }

  /** The combined workbook holds five sheets, one per model folder in
      order, each titled with the folder's last component and holding that
      folder's summary of the reply texts. */
  lemma IntegrationMainSheets(files: Files)
    ensures var f := IntegrationMain(files);
            f.texts == files.texts && CombinedBook in f.books
            && |f.books[CombinedBook]| == 5
            && forall k :: 0 <= k < 5 ==>
                 f.books[CombinedBook][k] == Sheet(SheetName(ModelNames[k]), SummarySheet(FolderPaths[k], files.texts))
  {
    SummaryPathsDistinct();
    ProcessAllSpec(files, FolderPaths);
    var processed := ProcessAll(files, FolderPaths);
    CombinedAllPresent(FolderPaths, processed.books);
    FolderNames();
  }

  /** The Gemini Flash folder integrated is the one the image-only Gemini
      script writes its reply texts to, and the five fields the pattern
      reads are the five keys that script asks for. */
  lemma ReadsRunnerFolders()
    ensures FolderPaths[3] == GeminiRunner.ResultDir
    ensures FieldKeys == GeminiRunner.Keys(GeminiRunner.ImgOnly)
  {
    var tail := FolderTail("1", 1);
    assert ModelNames[3] + "/" + ModelNames[3] == GeminiRunner.BaseFolder;
    assert FolderPaths[3] == (ModelNames[3] + "/" + ModelNames[3]) + tail;
  }
}
