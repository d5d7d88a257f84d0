/**
 * The batch over the uploaded files: one summary row per file in upload
 * order, and the corrected texts keyed by file name.
 */
module Batch {
  import opened Library
  import opened SpellCheck

  /** An uploaded file, its bytes already decoded to text. */
  datatype Upload = Upload(name: string, text: string)

  /** One row of the summary table. The rate is exact; the table rounds it. */
  datatype SummaryRow = SummaryRow(filename: string, totalWords: nat, errorCount: nat, errorRate: real)

  /** The summary row of one file. */
  function Row(lib: Toolkit, f: Upload): (r: SummaryRow)
    ensures r.filename == f.name
    ensures r.totalWords == |WordPositions(lib, lib.tokenize(f.text))|
    ensures r.errorCount == |ErrorPositions(lib, lib.tokenize(f.text))|
    ensures r.errorCount <= r.totalWords
    ensures 0.0 <= r.errorRate <= 100.0
    ensures r.totalWords == 0 ==> r.errorRate == 0.0
  {
    var ts := lib.tokenize(f.text);
    var total := |AlphaTokens(lib, ts)|;
    var errors := CountErrors(lib, ts);
    WordCountIsWordPositions(lib, ts);
    ErrorCountIsErrorPositions(lib, ts);
    SummaryRow(f.name, total, errors, ErrorRate(errors, total))
  }

  /** The rate in a file's row is the error rate of that row's counts. */
  lemma RowRate(lib: Toolkit, f: Upload)
    ensures Row(lib, f).errorRate == ErrorRate(Row(lib, f).errorCount, Row(lib, f).totalWords)
    ensures Row(lib, f).totalWords > 0 ==>
      Row(lib, f).errorRate * Row(lib, f).totalWords as real == 100.0 * Row(lib, f).errorCount as real
  {
  }

  /** The summary rows, appended in upload order. */
  function Rows(lib: Toolkit, files: seq<Upload>): (rows: seq<SummaryRow>)
    ensures |rows| == |files|
    ensures forall i :: 0 <= i < |files| ==> rows[i] == Row(lib, files[i])
  {
    if files == [] then []
    else Rows(lib, files[..|files| - 1]) + [Row(lib, files[|files| - 1])]
  }

  /** The corrected texts by file name, each file written over any earlier one of the same name. */
  function CorrectedFiles(lib: Toolkit, files: seq<Upload>): (m: map<string, string>)
    ensures m.Keys == set f | f in files :: f.name
  {
    if files == [] then map[]
    else
      var last := files[|files| - 1];
      var pre := files[..|files| - 1];
      assert forall f :: f in files <==> f in pre || f == last;
      CorrectedFiles(lib, pre)[last.name := CorrectedText(lib, last.text)]
  }

  /** The text stored under a name is that of the last file uploaded with that name. */
  lemma {:induction false} LastUploadWins(lib: Toolkit, files: seq<Upload>, i: nat)
    requires i < |files|
    requires forall j :: i < j < |files| ==> files[j].name != files[i].name
    ensures files[i].name in CorrectedFiles(lib, files)
    ensures CorrectedFiles(lib, files)[files[i].name] == CorrectedText(lib, files[i].text)
  {
    var n := |files| - 1;
    if i < n {
      var pre := files[..n];
      LastUploadWins(lib, pre, i);
    }
  }

  /** Two uploads with one name: both rows stay, the later text replaces the earlier. */
  lemma SameNameKeepsBothRows(lib: Toolkit, first: Upload, second: Upload)
    requires first.name == second.name
    ensures Rows(lib, [first, second]) == [Row(lib, first), Row(lib, second)]
    ensures CorrectedFiles(lib, [first, second]) == map[second.name := CorrectedText(lib, second.text)]
  {
  }

  /** The batch loop: process each file, append its row, store its corrected text. */
  method ProcessBatch(lib: Toolkit, files: seq<Upload>) returns (results: seq<SummaryRow>, correctedFiles: map<string, string>)
    ensures results == Rows(lib, files)
    ensures correctedFiles == CorrectedFiles(lib, files)
  {
    results := [];
    correctedFiles := map[];
    for i := 0 to |files|
      invariant results == Rows(lib, files[..i])
      invariant correctedFiles == CorrectedFiles(lib, files[..i])
    {
      var file := files[i];
      var correctedText, errorCnt, totalWords := ProcessText(lib, file.text);
      var errorRate := ErrorRate(errorCnt, totalWords);
      assert SummaryRow(file.name, totalWords, errorCnt, errorRate) == Row(lib, file);
      results := results + [SummaryRow(file.name, totalWords, errorCnt, errorRate)];
      correctedFiles := correctedFiles[file.name := correctedText];
      assert files[..i + 1][..i] == files[..i];
    }
    assert files[..|files|] == files;
  }

  /** Name of the archive entry holding a corrected file. */
  function ArchiveName(fname: string): string
  {
    "corrected_" + fname
  }

  /** Distinct file names give distinct archive entries. */
  lemma ArchiveNamesDistinct()
    ensures forall a, b :: ArchiveName(a) == ArchiveName(b) ==> a == b
  {
    forall a, b | ArchiveName(a) == ArchiveName(b) ensures a == b {
      assert a == ArchiveName(a)[10..];
      assert b == ArchiveName(b)[10..];
    }
  }

  /** The archive: each corrected file stored under its prefixed name. */
  function Archive(correctedFiles: map<string, string>): (z: map<string, string>)
    ensures forall fname :: fname in correctedFiles <==> ArchiveName(fname) in z
    ensures forall fname :: fname in correctedFiles ==> z[ArchiveName(fname)] == correctedFiles[fname]
    ensures z.Keys == set fname | fname in correctedFiles :: ArchiveName(fname)
  {
    ArchiveNamesDistinct();
    map fname | fname in correctedFiles :: ArchiveName(fname) := correctedFiles[fname]
  }
}
