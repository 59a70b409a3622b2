/**
 * Concrete paths, drags and drops: upper-case and dotfile names, sibling
 * inputs that share an output, a PDF dropped beside an image, one of two files
 * failing, a text file, and an empty payload.
 */
module Scenarios {
  import opened Wrappers
  import opened Text
  import opened PurePaths
  import opened Extensions
  import opened FileSystems
  import opened Conversion
  import opened DropArea
  import opened DropProperties

  /** `a.b.PDF` becomes `a.b.md`: only the final suffix goes, whatever its case. */
  lemma UpperCaseExtensionExample()
    ensures IsConvertible("a.b.PDF")
    ensures WithMdSuffix("a.b.PDF") == Some("a.b.md")
  {
    assert Lower(".PDF") in ValidExtensions by { assert Lower(".PDF") == ".pdf"; }
    assert "" + "a.b" + ".PDF" == "a.b.PDF" && "" + "a.b" + MdSuffix == "a.b.md";
    assert Separator !in "a.b";
    DroppedFileOutput("", "a.b", ".PDF");
  }

  /** A bare `.pdf` is accepted, and pathlib, seeing no suffix, makes it `.pdf.md`. */
  lemma DotfileExample()
    ensures IsConvertible(".pdf")
    ensures WithMdSuffix(".pdf") == Some(".pdf.md")
  {
    assert Lower(".pdf") in ValidExtensions by { assert Lower(".pdf") == ".pdf"; }
    assert "" + ".pdf" == ".pdf" && "" + ".pdf" + MdSuffix == ".pdf.md";
    DotfileOutput("", ".pdf");
  }

  /** `a.pdf` and `a.docx` share the output `a.md`: nothing keeps two outputs apart. */
  lemma SiblingsShareOutput()
    ensures WithMdSuffix("a.pdf") == WithMdSuffix("a.docx") == Some("a.md")
  {
    assert ".pdf" in ValidExtensions && ".docx" in ValidExtensions && Separator !in "a";
    assert "a.pdf" == "a" + ".pdf" && "a.docx" == "a" + ".docx" && "a.md" == "a" + MdSuffix;
    TopLevelOutput("a.pdf", "a", ".pdf", "a.md");
    TopLevelOutput("a.docx", "a", ".docx", "a.md");
  }

  /** A top-level `p == stem + ext`, with an accepted extension, converts to `out == stem + ".md"`. */
  lemma TopLevelOutput(p: Path, stem: string, ext: string, out: Path)
    requires stem != [] && Separator !in stem && ext in ValidExtensions
    requires p == stem + ext && out == stem + MdSuffix
    ensures IsConvertible(p) && WithMdSuffix(p) == Some(out)
  {
    ValidExtensionsAreLowerCase(ext);
    assert "" + stem + ext == p && "" + stem + MdSuffix == out;
    DroppedFileOutput("", stem, ext);
  }

  lemma ImagePng()
    ensures !IsConvertible("image.png")
  {
    assert Lower("image.png") == "image.png";
  }

  /** Two URLs of which only the first qualifies leave the first alone. */
  lemma FilterKeepsFirstOfTwo(x: Path, y: Path)
    requires IsConvertible(x) && !IsConvertible(y)
    ensures Filter([x, y]) == [x]
  {
    assert [x, y][..1] == [x];
    assert [x][..0] == [];
  }

  /** Two URLs that both qualify are both kept, in order. */
  lemma FilterKeepsBoth(x: Path, y: Path)
    requires IsConvertible(x) && IsConvertible(y)
    ensures Filter([x, y]) == [x, y]
  {
    assert [x, y][..1] == [x];
    assert [x][..0] == [];
  }

  /** A batch of one file that converts: one success, no failure, one new output. */
  lemma BatchOfOneConverted(files: map<Path, Content>, mid: Converter, x: Path, out: Path)
    requires WithMdSuffix(x) == Some(out) && x in files && mid(x, files[x]).Ok?
    ensures RunBatch(files, mid, [x]) == Batch([Converted(x, out)], files[out := mid(x, files[x]).value])
    ensures Successes([Converted(x, out)]) == [(x, out)]
    ensures Failures([Converted(x, out)]) == []
  {
    assert [x][..0] == [];
    assert [Converted(x, out)][..0] == [];
  }

  /** A batch of a converting file then a failing one. */
  lemma BatchConvertedThenFailed(files: map<Path, Content>, mid: Converter, x: Path, out: Path, y: Path, msg: string)
    requires WithMdSuffix(x) == Some(out) && x in files && mid(x, files[x]).Ok?
    requires WithMdSuffix(y).Some? && y in files && y != out && mid(y, files[y]) == Err(msg)
    ensures RunBatch(files, mid, [x, y]) ==
      Batch([Converted(x, out), Failed(y, ConversionFailed(msg))], files[out := mid(x, files[x]).value])
    ensures Successes([Converted(x, out), Failed(y, ConversionFailed(msg))]) == [(x, out)]
    ensures Failures([Converted(x, out), Failed(y, ConversionFailed(msg))]) == [(y, ConversionFailed(msg))]
  {
    var after := files[out := mid(x, files[x]).value];
    assert Convert(files, mid, x) == Step(Ok(out), after);
    assert Convert(after, mid, y) == Step(Err(ConversionFailed(msg)), after) by {
      assert y in after && after[y] == files[y];
      ConverterRaises(after, mid, y, msg);
    }
    BatchOfTwo(files, mid, x, y, Ok(out), after, Err(ConversionFailed(msg)), after);
    ListsOfTwo(Converted(x, out), Failed(y, ConversionFailed(msg)));
  }

  /** A batch of two files: the first converted on the files as given, the second on those the first left. */
  lemma BatchOfTwo(files: map<Path, Content>, mid: Converter, x: Path, y: Path,
                   r1: Result<Path, Error>, after1: map<Path, Content>, r2: Result<Path, Error>, after2: map<Path, Content>)
    requires Convert(files, mid, x) == Step(r1, after1)
    requires Convert(after1, mid, y) == Step(r2, after2)
    ensures RunBatch(files, mid, [x, y]) == Batch([Record(x, r1), Record(y, r2)], after2)
  {
    assert [x, y] == [x] + [y] && [x][..0] == [];
    RunBatchSnoc(files, mid, [x], y);
  }

  /** When the converter raises on an existing file, the conversion fails with its message and writes nothing. */
  lemma ConverterRaises(f: map<Path, Content>, mid: Converter, y: Path, msg: string)
    requires WithMdSuffix(y).Some? && y in f && mid(y, f[y]) == Err(msg)
    ensures Convert(f, mid, y) == Step(Err(ConversionFailed(msg)), f)
  {
  }

  /** The two lists of a success followed by a failure. */
  lemma ListsOfTwo(a: Outcome, b: Outcome)
    requires a.Converted? && b.Failed?
    ensures Successes([a, b]) == [(a.input, a.output)]
    ensures Failures([a, b]) == [(b.input, b.error)]
  {
    assert [a, b] == [a] + [b] && [a][..0] == [];
    SuccessesSnoc([a], b);
    FailuresSnoc([a], b);
  }

  /** Dropping `doc.pdf` with `image.png`: the drag is accepted, only `doc.pdf` is converted, to `doc.md`. */
  lemma PdfBesideImage(files: map<Path, Content>, mid: Converter)
    requires "doc.pdf" in files && mid("doc.pdf", files["doc.pdf"]).Ok?
    ensures DragAccepts(MimeData(true, ["doc.pdf", "image.png"]))
    ensures Drop(files, mid, MimeData(true, ["doc.pdf", "image.png"])) ==
      (DropReport(true, [("doc.pdf", "doc.md")], []),
       files["doc.md" := mid("doc.pdf", files["doc.pdf"]).value])
  {
    TopLevelOutput("doc.pdf", "doc", ".pdf", "doc.md");
    ImagePng();
    FilterKeepsFirstOfTwo("doc.pdf", "image.png");
    BatchOfOneConverted(files, mid, "doc.pdf", "doc.md");
    QualifiesIffConvertible("doc.pdf");
    assert DragQualifies(["doc.pdf", "image.png"][0]);
  }

  /**
   * Dropping `a.docx` and `b.pptx` when the converter fails on `b.pptx` with
   * "corrupt file": `a.md` is written and reported, `b.pptx` is reported with
   * its message, and no `b.md` appears.
   */
  lemma OneOfTwoFails(files: map<Path, Content>, mid: Converter)
    requires "a.docx" in files && mid("a.docx", files["a.docx"]).Ok?
    requires "b.pptx" in files && mid("b.pptx", files["b.pptx"]) == Err("corrupt file")
    requires "b.md" !in files
    ensures Drop(files, mid, MimeData(true, ["a.docx", "b.pptx"])) ==
      (DropReport(true, [("a.docx", "a.md")], [("b.pptx", ConversionFailed("corrupt file"))]),
       files["a.md" := mid("a.docx", files["a.docx"]).value])
    ensures "b.md" !in files["a.md" := mid("a.docx", files["a.docx"]).value]
  {
    assert ".docx" in ValidExtensions && ".pptx" in ValidExtensions && Separator !in "a" && Separator !in "b";
    assert "a.docx" == "a" + ".docx" && "a.md" == "a" + MdSuffix && "b.pptx" == "b" + ".pptx" && "b.md" == "b" + MdSuffix;
    TopLevelOutput("a.docx", "a", ".docx", "a.md");
    TopLevelOutput("b.pptx", "b", ".pptx", "b.md");
    FilterKeepsBoth("a.docx", "b.pptx");
    assert "b.pptx" != "a.md" && "b.md" != "a.md";
    BatchConvertedThenFailed(files, mid, "a.docx", "a.md", "b.pptx", "corrupt file");
  }

  /** Dragging `readme.txt` is refused, and a drop of it would convert nothing. */
  lemma TextFileRefused(files: map<Path, Content>, mid: Converter)
    ensures !DragAccepts(MimeData(true, ["readme.txt"]))
    ensures Drop(files, mid, MimeData(true, ["readme.txt"])) == (DropReport(false, [], []), files)
  {
    assert !IsConvertible("readme.txt") by { assert Lower("readme.txt") == "readme.txt"; }
    assert ["readme.txt"][..0] == [];
    QualifiesIffConvertible("readme.txt");
  }

  /** An empty payload is refused and changes nothing. */
  lemma EmptyPayloadRefused(files: map<Path, Content>, mid: Converter)
    ensures !DragAccepts(MimeData(true, []))
    ensures Drop(files, mid, MimeData(true, [])) == (DropReport(false, [], []), files)
  {
  }
}
