/**
 * The screening run: every uploaded résumé whose extension names a PDF or a
 * Word document is read, its fields are extracted into a row, and the rows
 * are ranked by score, highest first.
 */
module Ranking {
  import opened Wrappers
  import opened Text
  import opened Seqs
  import Name
  import Contact
  import Sections
  import Skills

  /** The two document formats the screener can read. */
  datatype DocKind = Pdf | Docx

  /** An uploaded file: its name and its bytes. */
  datatype Upload = Upload(name: String, content: seq<bv8>)

  /** One line of the ranked table. */
  datatype Row = Row(
    fileName: String,
    name: String,
    email: String,
    phone: String,
    matchedSkills: String,
    education: String,
    experience: String,
    score: real)

  // ---------------------------------------------------------------- file type

  /** `name.split('.')[-1].lower()`: what follows the last dot, or the whole name when it has none. */
  function Extension(name: String): (ext: String)
    ensures '.' !in ext && forall k :: 0 <= k < |ext| ==> !IsUpper(ext[k])
    ensures |ext| <= |name| && ext == Lower(name[|name| - |ext|..])
    ensures |ext| == |name| || name[|name| - |ext| - 1] == '.'
  {
    var parts := Split(name, '.');
    var t := parts[|parts| - 1];
    LastPiece(name);
    var ext := Lower(t);
    assert forall k :: 0 <= k < |t| ==> ext[k] == LowerChar(t[k]) && t[k] != '.';
    ext
  }

  /** The reader chosen for a file name: by its extension, `None` for anything else. */
  function KindOf(name: String): (kind: Option<DocKind>)
    ensures kind == Some(Pdf) <==> Extension(name) == "pdf"
    ensures kind == Some(Docx) <==> Extension(name) == "docx"
  {
    var ext := Extension(name);
    if ext == "pdf" then Some(Pdf)
    else if ext == "docx" then Some(Docx)
    else None
  }

  /** The last piece of a split on dots is the text after the last dot, and holds no dot. */
  lemma LastPiece(name: String)
    ensures var parts := Split(name, '.'); var t := parts[|parts| - 1];
      && '.' !in t && |t| <= |name| && t == name[|name| - |t|..]
      && (|t| == |name| || name[|name| - |t| - 1] == '.')
  {
    SplitLast(name, '.');
  }

  /** An extension `ext` shows in the lower-cased name: the whole of it, or after its last dot. */
  lemma ExtensionShows(name: String, ext: String)
    requires Extension(name) == ext
    ensures Lower(name) == ext || (|ext| < |name| && Lower(name)[|name| - |ext| - 1..] == "." + ext)
  {
    LastPiece(name);
    var parts := Split(name, '.');
    var t := parts[|parts| - 1];
    var n := |name|;
    var low := Lower(name);
    LowerSlice(name, n - |t|, n);
    if |t| < n {
      assert low[n - |t| - 1] == '.';
      assert low[n - |t| - 1..] == [low[n - |t| - 1]] + low[n - |t|..];
    } else {
      assert name[n - |t|..] == name;
    }
  }

  /** A lower-cased name that is a dot-free `ext` has extension `ext`. */
  lemma ExtensionOfWhole(name: String, ext: String)
    requires '.' !in ext && Lower(name) == ext
    ensures Extension(name) == ext
  {
    LastPiece(name);
    var parts := Split(name, '.');
    var t := parts[|parts| - 1];
    var n := |name|;
    var low := Lower(name);
    forall k | 0 <= k < n
      ensures name[k] != '.'
    {
      assert low[k] == ext[k];
    }
    assert |t| == n;
    assert name[n - |t|..] == name;
  }

  /** A lower-cased name that ends with a dot and a dot-free `ext` has extension `ext`. */
  lemma ExtensionOfSuffix(name: String, ext: String)
    requires '.' !in ext && |ext| < |name| && Lower(name)[|name| - |ext| - 1..] == "." + ext
    ensures Extension(name) == ext
  {
    LastPiece(name);
    var parts := Split(name, '.');
    var t := parts[|parts| - 1];
    var n := |name|;
    var low := Lower(name);
    var d := n - |ext| - 1;
    assert low[d] == '.';
    forall k | d < k < n
      ensures name[k] != '.'
    {
      assert low[k] == ext[k - d - 1];
    }
    assert |t| == |ext|;
    LowerSlice(name, n - |t|, n);
    assert low[n - |ext|..] == ext;
  }

  /**
   * A file has extension `ext` (a dot-free word) exactly when its lower-cased
   * name is `ext` itself or ends with a dot followed by `ext`.
   */
  lemma ExtensionIff(name: String, ext: String)
    requires '.' !in ext
    ensures Extension(name) == ext
        <==> Lower(name) == ext || (|ext| < |name| && Lower(name)[|name| - |ext| - 1..] == "." + ext)
  {
    if Extension(name) == ext {
      ExtensionShows(name, ext);
    } else if Lower(name) == ext {
      ExtensionOfWhole(name, ext);
    } else if |ext| < |name| && Lower(name)[|name| - |ext| - 1..] == "." + ext {
      ExtensionOfSuffix(name, ext);
    }
  }

  /** `.pdf` and `.docx` files, in any letter case, are the ones read. */
  lemma SupportedNames(name: String)
    ensures KindOf(name) == Some(Pdf)
        <==> Lower(name) == "pdf" || (3 < |name| && Lower(name)[|name| - 4..] == ".pdf")
    ensures KindOf(name) == Some(Docx)
        <==> Lower(name) == "docx" || (4 < |name| && Lower(name)[|name| - 5..] == ".docx")
  {
    PdfNames(name);
    DocxNames(name);
  }

  lemma PdfNames(name: String)
    ensures Extension(name) == "pdf" <==> Lower(name) == "pdf" || (3 < |name| && Lower(name)[|name| - 4..] == ".pdf")
  {
    ExtensionIff(name, "pdf");
  }

  lemma DocxNames(name: String)
    ensures Extension(name) == "docx" <==> Lower(name) == "docx" || (4 < |name| && Lower(name)[|name| - 5..] == ".docx")
  {
    ExtensionIff(name, "docx");
  }

  predicate IsSupported(file: Upload) {
    KindOf(file.name).Some?
  }

  // ---------------------------------------------------------------- one row

  /** `snippet[:100] + "..."`, the shortened form the table shows. */
  function Cell(snippet: String): (cell: String)
    ensures |cell| == (if |snippet| < 100 then |snippet| else 100) + 3
    ensures cell[..|cell| - 3] == snippet[..|cell| - 3]
    ensures cell[|cell| - 3..] == "..."
  {
    var head := if |snippet| < 100 then snippet else snippet[..100];
    head + "..."
  }

  /**
   * The row for one résumé, from its text: the fields found, the snippets
   * shortened, the matched required skills joined with `", "`.
   */
  function BuildRow(fileName: String, text: String, required: seq<String>): (row: Row)
    ensures row.fileName == fileName
    ensures 0.0 <= row.score <= 100.0
    ensures |row.education| <= 103 && |row.experience| <= 103
  {
    var found := Skills.ExtractSkills(text, Skills.SkillKeywords);
    var m := Skills.MatchScore(found, required);
    Row(
      fileName,
      Name.ExtractName(text),
      Contact.ExtractEmail(text),
      Contact.ExtractPhone(text),
      Join(m.matched, ", "),
      Cell(Sections.ExtractSection(text, Sections.EducationKeywords)),
      Cell(Sections.ExtractSection(text, Sections.ExperienceKeywords)),
      m.score)
  }

  /** A cell shows `"Not found..."` exactly when its snippet was `"Not found"`. */
  lemma CellOfMarker(snippet: String)
    ensures Cell(snippet) == NotFound + "..." <==> snippet == NotFound
  {
    var cell := Cell(snippet);
    if cell == NotFound + "..." {
      assert |snippet| == 9;
      assert snippet == cell[..9];
    }
  }

  /**
   * What each field of a row says about the résumé text: the name is blank
   * only for a blank text, each contact field and snippet is the marker
   * exactly when nothing of its kind occurs, and a full score means every
   * required skill was found.
   */
  lemma RowMeaning(fileName: String, text: String, required: seq<String>)
    ensures var row := BuildRow(fileName, text, required);
      && (row.name == [] <==> AllSpace(text))
      && (row.email == NotFound <==> forall i: nat, e: nat :: !Contact.IsEmailSpan(text, i, e))
      && (row.phone == NotFound <==> forall i: nat, e: nat :: !Contact.IsPhoneSpan(text, i, e))
      && (row.education == NotFound + "..."
          <==> forall k :: 0 <= k < |Sections.EducationKeywords| ==> !Contains(Lower(text), Sections.EducationKeywords[k]))
      && (row.experience == NotFound + "..."
          <==> forall k :: 0 <= k < |Sections.ExperienceKeywords| ==> !Contains(Lower(text), Sections.ExperienceKeywords[k]))
  {
    Name.NameIsFirstNonBlankLine(text);
    Sections.ScreenerSectionsNotFound(text);
    CellOfMarker(Sections.ExtractSection(text, Sections.EducationKeywords));
    CellOfMarker(Sections.ExtractSection(text, Sections.ExperienceKeywords));
  }

  /** With skills required, a row scores 100 exactly when every one of them was found in the résumé. */
  lemma RowScoreFull(fileName: String, text: String, required: seq<String>)
    requires required != []
    ensures var row := BuildRow(fileName, text, required);
      var found := Skills.ExtractSkills(text, Skills.SkillKeywords);
      row.score == 100.0 <==> forall k :: 0 <= k < |required| ==> Skills.IsFound(found, required[k])
  {
    Skills.ScoreExtremes(Skills.ExtractSkills(text, Skills.SkillKeywords), required);
  }

  /** A supported file read with the reader its extension selects, turned into a row. */
  function RowFor(file: Upload, required: seq<String>, decode: (DocKind, seq<bv8>) -> String): (row: Row)
    requires IsSupported(file)
    ensures row.fileName == file.name
  {
    BuildRow(file.name, decode(KindOf(file.name).value, file.content), required)
  }

  /** The rows for the supported files among `files`, one each, in upload order. */
  function RowsOf(files: seq<Upload>, required: seq<String>, decode: (DocKind, seq<bv8>) -> String): (rows: seq<Row>)
    ensures |rows| == |Filter(files, IsSupported)|
  {
    FilterMap(files, IsSupported, RowMaker(required, decode))
  }

  /** The rows are those of the supported uploads, one each, in upload order. */
  lemma RowsOfAre(files: seq<Upload>, required: seq<String>, decode: (DocKind, seq<bv8>) -> String)
    ensures var rows, supported := RowsOf(files, required, decode), Filter(files, IsSupported);
      forall k :: 0 <= k < |rows| ==> rows[k] == RowFor(supported[k], required, decode)
  {
    FilterMapAt(files, IsSupported, RowMaker(required, decode));
  }

  /** `RowFor` with the requirement and the readers fixed, as a function of the file. */
  function RowMaker(required: seq<String>, decode: (DocKind, seq<bv8>) -> String): Upload --> Row {
    file requires IsSupported(file) => RowFor(file, required, decode)
  }

  // ---------------------------------------------------------------- ranking

  /** Scores never increase from one row to the next. */
  predicate Ranked(rows: seq<Row>) {
    forall i :: 0 < i < |rows| ==> rows[i - 1].score >= rows[i].score
  }

  /** In a ranked table every row scores at least as high as every row below it. */
  lemma {:induction false} RankedPairs(rows: seq<Row>)
    requires Ranked(rows)
    ensures forall i, j :: 0 <= i < j < |rows| ==> rows[i].score >= rows[j].score
    decreases |rows|
  {
    if |rows| > 1 {
      var tail := rows[1..];
      assert Ranked(tail) by {
        forall i | 0 < i < |tail|
          ensures tail[i - 1].score >= tail[i].score
        {
          assert tail[i - 1] == rows[i] && tail[i] == rows[i + 1];
        }
      }
      RankedPairs(tail);
      forall i, j | 0 <= i < j < |rows|
        ensures rows[i].score >= rows[j].score
      {
        if i == 0 {
          assert rows[1].score >= rows[j].score by {
            if j > 1 {
              assert tail[0] == rows[1] && tail[j - 1] == rows[j];
            }
          }
        } else {
          assert tail[i - 1] == rows[i] && tail[j - 1] == rows[j];
        }
      }
    }
  }

  function Insert(row: Row, rows: seq<Row>): (r: seq<Row>)
    requires Ranked(rows)
    ensures multiset(r) == multiset(rows) + multiset{row}
    ensures Ranked(r)
    ensures |r| == |rows| + 1
    ensures r[0] == row || (rows != [] && r[0] == rows[0])
  {
    if rows == [] || row.score >= rows[0].score then [row] + rows
    else
      var rest := Insert(row, rows[1..]);
      assert rows == [rows[0]] + rows[1..];
      var r := [rows[0]] + rest;
      assert forall j :: 0 < j < |r| ==> r[j] == rest[j - 1];
      r
  }

  /**
   * `sort_values(by="Score (%)", ascending=False)`: the same rows, highest
   * score first.
   */
  function SortByScore(rows: seq<Row>): (r: seq<Row>)
    ensures multiset(r) == multiset(rows)
    ensures Ranked(r)
  {
    if rows == [] then []
    else
      assert rows == [rows[0]] + rows[1..];
      Insert(rows[0], SortByScore(rows[1..]))
  }

  /** The warning shown for a file that is neither PDF nor Word. */
  function Warning(file: Upload): (w: String)
    ensures |w| == |WarningPrefix| + |file.name|
    ensures w[..|WarningPrefix|] == WarningPrefix && w[|WarningPrefix|..] == file.name
  {
    WarningPrefix + file.name
  }

  const WarningPrefix: String := "Unsupported file: "

  /** The warning names its file: two warnings are equal only for files of the same name. */
  lemma WarningNamesFile(a: Upload, b: Upload)
    requires Warning(a) == Warning(b)
    ensures a.name == b.name
  {
    assert a.name == Warning(a)[|WarningPrefix|..];
  }

  /** A file the screener cannot read. */
  predicate IsUnsupported(file: Upload) {
    !IsSupported(file)
  }

  /** The warnings for the unsupported files among `files`, one each, in upload order. */
  function WarningsOf(files: seq<Upload>): (warnings: seq<String>)
    ensures |warnings| == |files| - |Filter(files, IsSupported)|
  {
    FilterComplement(files, IsSupported, IsUnsupported);
    FilterMap(files, IsUnsupported, Warning)
  }

  /** The warnings are those of the unsupported uploads, one each, in upload order. */
  lemma WarningsOfAre(files: seq<Upload>)
    ensures var warnings, unsupported := WarningsOf(files), Filter(files, IsUnsupported);
      forall k :: 0 <= k < |warnings| ==> warnings[k] == Warning(unsupported[k])
  {
    FilterMapAt(files, IsUnsupported, Warning);
  }

  /**
   * How a screening run ends: it does not start, or sorting fails because no
   * row was built (a table without rows has no score column to sort by), or
   * it produces the ranked table.
   */
  datatype Outcome = Idle | NoScoreColumn | Table(rows: seq<Row>)

  /**
   * The screening run. Nothing happens unless files were uploaded and the
   * required-skills box is not empty; then each file is read with the reader
   * its extension selects (unsupported files only produce a warning), a row
   * is built for it, and the rows are ranked by score.
   */
  method RankResumes(files: seq<Upload>, requiredInput: String, decode: (DocKind, seq<bv8>) -> String)
    returns (outcome: Outcome, warnings: seq<String>)
    ensures outcome.Idle? <==> files == [] || requiredInput == []
    ensures outcome.NoScoreColumn? <==> !outcome.Idle? && forall k :: 0 <= k < |files| ==> !IsSupported(files[k])
    ensures outcome.Table? ==>
      var rows := RowsOf(files, Skills.ParseRequired(requiredInput), decode);
      multiset(outcome.rows) == multiset(rows) && Ranked(outcome.rows)
    ensures !outcome.Idle? ==> warnings == WarningsOf(files)
    ensures outcome.Idle? ==> warnings == []
  {
    warnings := [];
    if files == [] || requiredInput == [] {
      return Idle, warnings;
    }
    var required := Skills.ParseRequired(requiredInput);
    var results: seq<Row> := [];
    for i := 0 to |files|
      invariant results == RowsOf(files[..i], required, decode)
      invariant warnings == WarningsOf(files[..i])
    {
      RowsStep(files, i, required, decode);
      WarningsStep(files, i);
      results, warnings := ScreenOne(files[i], required, decode, results, warnings);
    }
    assert files[..|files|] == files;
    NoneKept(files, IsSupported);
    if results == [] {
      outcome := NoScoreColumn;
    } else {
      outcome := Table(SortByScore(results));
    }
  }

  /**
   * One pass of the screening loop: a supported file is read and its row is
   * appended; any other file only adds its warning.
   */
  method ScreenOne(file: Upload, required: seq<String>, decode: (DocKind, seq<bv8>) -> String,
                   results: seq<Row>, warnings: seq<String>)
    returns (results': seq<Row>, warnings': seq<String>)
    ensures results' == results + (if IsSupported(file) then [RowFor(file, required, decode)] else [])
    ensures warnings' == warnings + (if IsSupported(file) then [] else [Warning(file)])
  {
    match KindOf(file.name)
    case None =>
      results', warnings' := results, warnings + [Warning(file)];
    case Some(kind) =>
      var text := decode(kind, file.content);
      results', warnings' := results + [BuildRow(file.name, text, required)], warnings;
  }

  /** What one more file adds to the rows: its own row when it is supported, nothing otherwise. */
  lemma RowsStep(files: seq<Upload>, i: nat, required: seq<String>, decode: (DocKind, seq<bv8>) -> String)
    requires i < |files|
    ensures var file := files[i];
      RowsOf(files[..i + 1], required, decode)
        == RowsOf(files[..i], required, decode) + (if IsSupported(file) then [RowFor(file, required, decode)] else [])
  {
    assert files[..i + 1] == files[..i] + [files[i]];
    FilterMapSnoc(files[..i], files[i], IsSupported, RowMaker(required, decode));
  }

  /** What one more file adds to the warnings: its own warning when it is unsupported, nothing otherwise. */
  lemma WarningsStep(files: seq<Upload>, i: nat)
    requires i < |files|
    ensures var file := files[i];
      WarningsOf(files[..i + 1]) == WarningsOf(files[..i]) + (if IsSupported(file) then [] else [Warning(file)])
  {
    assert files[..i + 1] == files[..i] + [files[i]];
    FilterMapSnoc(files[..i], files[i], IsUnsupported, Warning);
  }

  /** Every file gets either a row or a warning, never both and never neither. */
  lemma RowsAndWarnings(files: seq<Upload>, required: seq<String>, decode: (DocKind, seq<bv8>) -> String)
    ensures |RowsOf(files, required, decode)| + |WarningsOf(files)| == |files|
  {
  }

  /** The first row of a ranked table has the highest score of all. */
  lemma TopRowIsBest(rows: seq<Row>, table: seq<Row>)
    requires multiset(table) == multiset(rows) && Ranked(table) && rows != []
    ensures table != [] && forall r :: r in rows ==> table[0].score >= r.score
  {
    assert |table| == |multiset(table)| == |rows|;
    RankedPairs(table);
    forall r | r in rows
      ensures table[0].score >= r.score
    {
      assert r in multiset(rows);
      var j :| 0 <= j < |table| && table[j] == r;
    }
  }
}
