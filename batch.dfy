/** Classification and dispatch of the files found under a traversal root
    (`is_valid_office_file`, the output-path part of `convert_file_to_pdf`
    and `process_folder_recursive`).

    Every path here is relative: input paths to the traversal root, output
    paths to the output base directory.  The directory walk is given as the
    sequence of entries it yields, and the Office converters and the PDF copy
    as one outcome per entry. */
module Batch {
  import opened Wrappers
  import opened PurePaths

  const WordSuffixes: set<string> := {".doc", ".docx"}
  const PowerPointSuffixes: set<string> := {".ppt", ".pptx"}
  const OfficeSuffixes: set<string> := {".doc", ".docx", ".ppt", ".pptx"}
  /** Suffixes of files that are neither converted nor reported as skipped. */
  const QuietSuffixes: set<string> := {".txt", ".md", ".log"}
  /** The staging file the ZIP upload writes beside the extracted tree. */
  const ReservedName := "uploaded.zip"
  const CopiedPdfType := "PDF (copied)"

  /** The suffix of a path's name, lower-cased: what every classification compares. */
  function LowerSuffix(p: Path): string
  {
    Lower(Suffix(Name(p)))
  }

  /** `is_valid_office_file` */
  predicate IsValidOfficeFile(p: Path)
  {
    LowerSuffix(p) in OfficeSuffixes
  }

  datatype Application = Word | PowerPoint

  /** The converter `convert_file_to_pdf` hands a file to, if any. */
  function ConverterFor(p: Path): (r: Option<Application>)
    ensures r == Some(Word) <==> LowerSuffix(p) in WordSuffixes
    ensures r == Some(PowerPoint) <==> LowerSuffix(p) in PowerPointSuffixes
    ensures r.Some? <==> IsValidOfficeFile(p)
  {
    var s := LowerSuffix(p);
    if s == ".doc" || s == ".docx" then Some(Word)
    else if s == ".ppt" || s == ".pptx" then Some(PowerPoint)
    else None
  }

  datatype ConvertError =
    | UnsupportedFileType(suffix: string)
    | ConversionFailed(app: Application)

  /** `convert_file_to_pdf(file, outDir)`: the PDF lands in `outDir` under the
      file's stem with the suffix `.pdf`.  `converts` is whether the external
      converter completes without raising. */
  function ConvertFileToPdf(file: Path, outDir: Path, converts: bool): (r: Result<Path, ConvertError>)
    ensures r.Ok? <==> IsValidOfficeFile(file) && converts
    ensures r.Ok? ==> Parent(r.value) == outDir && |r.value| == |outDir| + 1
    ensures r.Ok? ==> Stem(Name(r.value)) == Stem(Name(file)) && Suffix(Name(r.value)) == ".pdf"
    ensures !IsValidOfficeFile(file) ==> r == Err(UnsupportedFileType(Suffix(Name(file))))
    ensures IsValidOfficeFile(file) && !converts ==> r == Err(ConversionFailed(ConverterFor(file).value))
  {
    match ConverterFor(file)
    case None => Err(UnsupportedFileType(Suffix(Name(file))))
    case Some(app) =>
      if converts then
        StemSuffix(Name(file));
        PdfName(Stem(Name(file)));
        Ok(outDir + [Stem(Name(file)) + ".pdf"])
      else Err(ConversionFailed(app))
  }

  /** Where the output of a file goes: its own directory mirrored under the
      output base, or the output base itself. */
  function OutputDir(rel: Path, preserveStructure: bool): Path
  {
    if preserveStructure then Parent(rel) else []
  }

  /** One item of the directory walk.  `succeeds` is the outcome of the
      conversion or copy the loop would attempt for it. */
  datatype Entry = Entry(rel: Path, isFile: bool, succeeds: bool)

  /** One element of `converted_files`. */
  datatype Record = Record(original: Path, pdf: Path, kind: string)

  /** What the loop does with one entry. */
  datatype Disposition =
    | Converted(record: Record)
    | Skipped(path: Path)
    | Ignored     // a quiet file: neither converted nor reported
    | Excluded    // a directory, or the reserved staging file

  predicate Considered(e: Entry)
  {
    e.isFile && Name(e.rel) != ReservedName
  }

  predicate IsPdf(p: Path)
  {
    LowerSuffix(p) == ".pdf"
  }

  predicate IsQuiet(p: Path)
  {
    StartsWithDot(Name(p)) || LowerSuffix(p) in QuietSuffixes
  }

  /** The specification of one iteration of the loop. */
  function Dispatch(e: Entry, preserveStructure: bool): Disposition
  {
    var outDir := OutputDir(e.rel, preserveStructure);
    if !Considered(e) then Excluded
    else if IsValidOfficeFile(e.rel) then
      match ConvertFileToPdf(e.rel, outDir, e.succeeds)
      case Ok(pdf) => Converted(Record(e.rel, pdf, Upper(Suffix(Name(e.rel)))))
      case Err(_) => Skipped(e.rel)
    else if IsPdf(e.rel) then
      if e.succeeds then Converted(Record(e.rel, outDir + [Name(e.rel)], CopiedPdfType))
      else Skipped(e.rel)
    else if IsQuiet(e.rel) then Ignored
    else Skipped(e.rel)
  }

  /** The two lists the loop returns. */
  datatype Batch = Batch(converted: seq<Record>, skipped: seq<Path>)

  function Apply(b: Batch, d: Disposition): Batch
  {
    match d
    case Converted(r) => Batch(b.converted + [r], b.skipped)
    case Skipped(p) => Batch(b.converted, b.skipped + [p])
    case _ => b
  }

  /** The lists after the loop has seen `es`, in traversal order. */
  function Accumulate(es: seq<Entry>, preserveStructure: bool): Batch
  {
    if es == [] then Batch([], [])
    else Apply(Accumulate(es[..|es| - 1], preserveStructure), Dispatch(es[|es| - 1], preserveStructure))
  }

  datatype FolderError = NotAFolder

  /** `process_folder_recursive` as a function: it raises before recording
      anything when the root is not a directory. */
  function ProcessFolder(rootIsDir: bool, traversal: seq<Entry>, preserveStructure: bool): Result<Batch, FolderError>
  {
    if !rootIsDir then Err(NotAFolder) else Ok(Accumulate(traversal, preserveStructure))
  }

  /** `process_folder_recursive`: the fail-soft loop over the walk, appending
      to `converted_files` and `skipped_files` as it goes. */
  method ProcessFolderRecursive(rootIsDir: bool, traversal: seq<Entry>, preserveStructure: bool)
    returns (r: Result<Batch, FolderError>)
    ensures r == ProcessFolder(rootIsDir, traversal, preserveStructure)
    ensures r.Err? <==> !rootIsDir
  {
    if !rootIsDir {
      return Err(NotAFolder);
    }
    var converted: seq<Record> := [];
    var skipped: seq<Path> := [];
    for i := 0 to |traversal|
      invariant Batch(converted, skipped) == Accumulate(traversal[..i], preserveStructure)
    {
      var e := traversal[i];
      assert traversal[..i + 1][..i] == traversal[..i];
      if e.isFile && Name(e.rel) != ReservedName {
        if IsValidOfficeFile(e.rel) {
          var outDir := if preserveStructure then Parent(e.rel) else [];
          var pdf := ConvertFileToPdf(e.rel, outDir, e.succeeds);
          if pdf.Ok? {
            converted := converted + [Record(e.rel, pdf.value, Upper(Suffix(Name(e.rel))))];
          } else {
            skipped := skipped + [e.rel];
          }
        } else if Lower(Suffix(Name(e.rel))) == ".pdf" {
          if e.succeeds {
            var outDir := if preserveStructure then Parent(e.rel) else [];
            converted := converted + [Record(e.rel, outDir + [Name(e.rel)], CopiedPdfType)];
          } else {
            skipped := skipped + [e.rel];
          }
        } else if !StartsWithDot(Name(e.rel)) && Lower(Suffix(Name(e.rel))) !in QuietSuffixes {
          skipped := skipped + [e.rel];
        }
      }
    }
    assert traversal[..|traversal|] == traversal;
    return Ok(Batch(converted, skipped));
  }

  // ---------------------------------------------------------------------
  // Properties of one entry

  /** The partition of a considered file: converted exactly when it is an
      Office file or a PDF and its conversion or copy succeeds; skipped, under
      its own path, when that fails or when it is of any other non-quiet kind;
      ignored exactly when it is of another kind and quiet. */
  lemma DispatchPartition(e: Entry, preserveStructure: bool)
    ensures Dispatch(e, preserveStructure) == Excluded <==> !Considered(e)
    ensures Dispatch(e, preserveStructure).Converted? <==>
              Considered(e) && (IsValidOfficeFile(e.rel) || IsPdf(e.rel)) && e.succeeds
    ensures Dispatch(e, preserveStructure) == Skipped(e.rel) <==>
              Considered(e) &&
              (if IsValidOfficeFile(e.rel) || IsPdf(e.rel) then !e.succeeds else !IsQuiet(e.rel))
    ensures Dispatch(e, preserveStructure) == Ignored <==>
              Considered(e) && !IsValidOfficeFile(e.rel) && !IsPdf(e.rel) && IsQuiet(e.rel)
    ensures Dispatch(e, preserveStructure).Skipped? ==> Dispatch(e, preserveStructure).path == e.rel
  {
  }

  lemma UpperOfficeSuffix(l: string)
    requires l in OfficeSuffixes
    ensures Upper(l) in {".DOC", ".DOCX", ".PPT", ".PPTX"}
  {
    UpperLiteral(".doc", ".DOC");
    UpperLiteral(".docx", ".DOCX");
    UpperLiteral(".ppt", ".PPT");
    UpperLiteral(".pptx", ".PPTX");
  }

  /** The upper-cased form of a suffix that is an Office suffix in any case
      is one of the four upper-case Office suffixes. */
  lemma OfficeKind(s: string)
    requires Lower(s) in OfficeSuffixes
    ensures Upper(s) in {".DOC", ".DOCX", ".PPT", ".PPTX"}
  {
    UpperOfLower(s);
    UpperOfficeSuffix(Lower(s));
  }

  /** A converted Office file: the record keeps the original path, the PDF
      sits in the output directory under the same stem with suffix `.pdf`,
      and the type is the upper-cased suffix, one of the four Office ones. */
  lemma OfficeRecord(e: Entry, preserveStructure: bool)
    requires Considered(e) && IsValidOfficeFile(e.rel) && e.succeeds
    ensures Dispatch(e, preserveStructure).Converted?
    ensures var r := Dispatch(e, preserveStructure).record;
      && r.original == e.rel
      && Parent(r.pdf) == OutputDir(e.rel, preserveStructure)
      && Stem(Name(r.pdf)) == Stem(Name(e.rel))
      && Suffix(Name(r.pdf)) == ".pdf"
      && r.kind == Upper(Suffix(Name(e.rel)))
      && r.kind in {".DOC", ".DOCX", ".PPT", ".PPTX"}
  {
    var outDir := OutputDir(e.rel, preserveStructure);
    var pdf := ConvertFileToPdf(e.rel, outDir, e.succeeds);
    assert pdf.Ok?;
    assert Dispatch(e, preserveStructure) == Converted(Record(e.rel, pdf.value, Upper(Suffix(Name(e.rel)))));
    OfficeKind(Suffix(Name(e.rel)));
  }

  /** A copied PDF keeps its name and is tagged as copied. */
  lemma PdfRecord(e: Entry, preserveStructure: bool)
    requires Considered(e) && IsPdf(e.rel) && e.succeeds
    ensures Dispatch(e, preserveStructure).Converted?
    ensures var r := Dispatch(e, preserveStructure).record;
      && r.original == e.rel
      && Parent(r.pdf) == OutputDir(e.rel, preserveStructure)
      && Name(r.pdf) == Name(e.rel)
      && r.kind == CopiedPdfType
  {
    assert !IsValidOfficeFile(e.rel);
  }

  /** The produced path of one converted file: mirrored, it repeats the
      original's directory chain; flattened, it is a single segment. */
  lemma ConvertedLocation(e: Entry, preserveStructure: bool)
    requires Dispatch(e, preserveStructure).Converted?
    ensures var r := Dispatch(e, preserveStructure).record;
      && r.original == e.rel
      && (preserveStructure ==> Parent(r.pdf) == Parent(r.original))
      && (!preserveStructure ==> |r.pdf| == 1)
  {
  }

  // ---------------------------------------------------------------------
  // Properties of the whole batch

  function Concat(a: Batch, b: Batch): Batch
  {
    Batch(a.converted + b.converted, a.skipped + b.skipped)
  }

  /** The lists only grow by appending, in traversal order: the batch of a
      walk is the batch of its first part followed by that of the rest. */
  lemma {:induction false} AccumulateAppend(a: seq<Entry>, b: seq<Entry>, preserveStructure: bool)
    ensures Accumulate(a + b, preserveStructure) ==
            Concat(Accumulate(a, preserveStructure), Accumulate(b, preserveStructure))
    decreases |b|
  {
    if b == [] {
      assert a + b == a;
    } else {
      var b' := b[..|b| - 1];
      assert (a + b)[..|a + b| - 1] == a + b';
      assert (a + b)[|a + b| - 1] == b[|b| - 1];
      AccumulateAppend(a, b', preserveStructure);
    }
  }

  /** What the loop has recorded after any prefix of the walk stays, unchanged,
      at the front of both final lists. */
  lemma AppendOnly(es: seq<Entry>, i: nat, preserveStructure: bool)
    requires i <= |es|
    ensures var p, b := Accumulate(es[..i], preserveStructure), Accumulate(es, preserveStructure);
      && |p.converted| <= |b.converted| && b.converted[..|p.converted|] == p.converted
      && |p.skipped| <= |b.skipped| && b.skipped[..|p.skipped|] == p.skipped
  {
    AccumulateAppend(es[..i], es[i..], preserveStructure);
    assert es[..i] + es[i..] == es;
  }

  /** A failing conversion or copy appends exactly that file's path to the
      skipped list and leaves the converted list as it was. */
  lemma FailSoft(es: seq<Entry>, e: Entry, preserveStructure: bool)
    requires Considered(e) && (IsValidOfficeFile(e.rel) || IsPdf(e.rel)) && !e.succeeds
    ensures Accumulate(es + [e], preserveStructure) ==
            Batch(Accumulate(es, preserveStructure).converted,
                  Accumulate(es, preserveStructure).skipped + [e.rel])
  {
    assert (es + [e])[..|es|] == es;
    DispatchPartition(e, preserveStructure);
  }

  function CountConsidered(es: seq<Entry>): nat
  {
    if es == [] then 0
    else CountConsidered(es[..|es| - 1]) + (if Considered(es[|es| - 1]) then 1 else 0)
  }

  function CountIgnored(es: seq<Entry>, preserveStructure: bool): nat
  {
    if es == [] then 0
    else CountIgnored(es[..|es| - 1], preserveStructure)
         + (if Dispatch(es[|es| - 1], preserveStructure) == Ignored then 1 else 0)
  }

  /** Every considered file lands in exactly one of the three outcomes:
      converted, skipped or silently ignored. */
  lemma {:induction false} Partition(es: seq<Entry>, preserveStructure: bool)
    ensures var b := Accumulate(es, preserveStructure);
      |b.converted| + |b.skipped| + CountIgnored(es, preserveStructure) == CountConsidered(es)
  {
    if es != [] {
      Partition(es[..|es| - 1], preserveStructure);
      DispatchPartition(es[|es| - 1], preserveStructure);
    }
  }

  /** Every recorded item comes from an entry of the walk. */
  lemma {:induction false} RecordsHaveSources(es: seq<Entry>, preserveStructure: bool)
    ensures forall r :: r in Accumulate(es, preserveStructure).converted ==>
              exists e :: e in es && Dispatch(e, preserveStructure) == Converted(r)
    ensures forall p :: p in Accumulate(es, preserveStructure).skipped ==>
              exists e :: e in es && Considered(e) && e.rel == p
  {
    if es != [] {
      var init, last := es[..|es| - 1], es[|es| - 1];
      RecordsHaveSources(init, preserveStructure);
      DispatchPartition(last, preserveStructure);
      assert forall e :: e in init ==> e in es;
    }
  }

  /** Flattened, every produced path is a single segment however deeply the
      input was nested. */
  lemma {:induction false} FlattenedDepth(es: seq<Entry>)
    ensures forall r :: r in Accumulate(es, false).converted ==> |r.pdf| == 1
  {
    if es != [] {
      FlattenedDepth(es[..|es| - 1]);
      var last := es[|es| - 1];
      if Dispatch(last, false).Converted? {
        ConvertedLocation(last, false);
      }
    }
  }

  /** Mirrored, every produced path has the directory chain of its original. */
  lemma {:induction false} MirroredStructure(es: seq<Entry>)
    ensures forall r :: r in Accumulate(es, true).converted ==> Parent(r.pdf) == Parent(r.original)
  {
    if es != [] {
      MirroredStructure(es[..|es| - 1]);
      var last := es[|es| - 1];
      if Dispatch(last, true).Converted? {
        ConvertedLocation(last, true);
      }
    }
  }

  /** A worked example: `reports/q1.docx`, mirrored and flattened. */
  lemma ExampleWordFile()
    ensures Dispatch(Entry(["reports", "q1.docx"], true, true), true)
            == Converted(Record(["reports", "q1.docx"], ["reports", "q1.pdf"], ".DOCX"))
    ensures Dispatch(Entry(["reports", "q1.docx"], true, true), false)
            == Converted(Record(["reports", "q1.docx"], ["q1.pdf"], ".DOCX"))
  {
    var e := Entry(["reports", "q1.docx"], true, true);
    LastDotAt("q1.docx", 2);
    assert Suffix(Name(e.rel)) == ".docx" && Stem(Name(e.rel)) == "q1";
    LowerLiteral(".docx", ".docx");
    UpperLiteral(".docx", ".DOCX");
    assert IsValidOfficeFile(e.rel) && ConverterFor(e.rel) == Some(Word);
    assert "q1" + ".pdf" == "q1.pdf";
    assert ["reports"] + ["q1.pdf"] == ["reports", "q1.pdf"];
    assert [] + ["q1.pdf"] == ["q1.pdf"];
    assert OutputDir(e.rel, true) == ["reports"];
  }

  /** A worked example: a `.csv` file is reported as skipped. */
  lemma ExampleCsvSkipped()
    ensures Dispatch(Entry(["data", "t.csv"], true, true), true) == Skipped(["data", "t.csv"])
  {
    LastDotAt("t.csv", 1);
    assert Suffix("t.csv") == ".csv";
    LowerLiteral(".csv", ".csv");
    assert !IsValidOfficeFile(["data", "t.csv"]) && !IsPdf(["data", "t.csv"]);
  }

  /** Worked examples: a `.log` file and a dot-file named `.docx` are
      ignored without being reported. */
  lemma ExampleQuietFiles()
    ensures Dispatch(Entry(["run.log"], true, true), true) == Ignored
    ensures Dispatch(Entry([".docx"], true, true), true) == Ignored
  {
    LastDotAt("run.log", 3);
    assert Suffix("run.log") == ".log";
    LowerLiteral(".log", ".log");
    assert !IsValidOfficeFile(["run.log"]) && !IsPdf(["run.log"]);
    LastDotAt(".docx", 0);
    assert Suffix(".docx") == "" && Lower("") == "";
    assert !IsValidOfficeFile([".docx"]) && !IsPdf([".docx"]);
  }

  /** An upper-case `.PDF` is copied under its own name, and the staging
      archive is passed over. */
  lemma ExamplePdfAndArchive()
    ensures Dispatch(Entry(["a", "B.PDF"], true, true), false)
            == Converted(Record(["a", "B.PDF"], ["B.PDF"], CopiedPdfType))
    ensures Dispatch(Entry(["uploaded.zip"], true, true), true) == Excluded
  {
    LastDotAt("B.PDF", 1);
    assert Suffix("B.PDF") == ".PDF";
    LowerLiteral(".PDF", ".pdf");
  }
}
