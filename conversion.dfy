/**
 * `DropArea._convert_file`: derive the `.md` path, check the input exists, ask
 * the converter for Markdown text, write it next to the input and return the
 * output path; every failure is passed on to the caller.
 */
module Conversion {
  import opened Wrappers
  import opened Text
  import opened PurePaths
  import opened Extensions
  import opened FileSystems

  /**
   * The MarkItDown converter, an external library: from a path and the file's
   * content, the Markdown text or the message of the exception it raised.
   */
  type Converter = (Path, Content) -> Result<Content, string>

  /** Why one file was not converted. */
  datatype Error =
    | EmptyName(path: Path)             // `with_suffix` raised ValueError
    | NotFound(path: Path)              // `stat` raised FileNotFoundError
    | ConversionFailed(message: string) // the converter raised

  /** One call of `_convert_file`: what it returns or raises, and the files afterwards. */
  datatype Step = Step(result: Result<Path, Error>, files: map<Path, Content>)

  /** The specification of `_convert_file` on a filesystem value. */
  function Convert(files: map<Path, Content>, mid: Converter, input: Path): Step
  {
    match WithMdSuffix(input)
    case None => Step(Err(EmptyName(input)), files)
    case Some(output) =>
      if input !in files then Step(Err(NotFound(input)), files)
      else
        match mid(input, files[input])
        case Err(message) => Step(Err(ConversionFailed(message)), files)
        case Ok(text) => Step(Ok(output), files[output := text])
  }

  /**
   * `_convert_file` itself: the steps in the order the routine takes them. The
   * existence check after the write only chooses between an info and a warning
   * log line; the output path is returned either way.
   */
  method ConvertFile(fs: FileSystem, mid: Converter, input: Path) returns (r: Result<Path, Error>)
    modifies fs
    ensures Step(r, fs.files) == Convert(old(fs.files), mid, input)
  {
    var output := WithMdSuffix(input);
    if output.None? {
      return Err(EmptyName(input));
    }
    var size := fs.Stat(input);
    if size.None? {
      return Err(NotFound(input));
    }
    var converted := mid(input, fs.files[input]);
    if converted.Err? {
      return Err(ConversionFailed(converted.error));
    }
    fs.Write(output.value, converted.value);
    var present := fs.Exists(output.value);
    return Ok(output.value);
  }

  /** A failed conversion writes nothing: the files are exactly as before. */
  lemma FailureWritesNothing(files: map<Path, Content>, mid: Converter, input: Path)
    ensures Convert(files, mid, input).result.Err? ==> Convert(files, mid, input).files == files
  {
  }

  /**
   * How a convertible file fares: it is missing, or the converter fails on it
   * (and its message is what is raised), or its text is written to the derived
   * `.md` path, replacing whatever was there, and that path is returned.
   */
  lemma ConvertOutcomes(files: map<Path, Content>, mid: Converter, input: Path)
    requires IsConvertible(input)
    ensures var s := Convert(files, mid, input);
      && (s.result == Err(NotFound(input)) <==> input !in files)
      && (forall message :: s.result == Err(ConversionFailed(message)) <==>
            input in files && mid(input, files[input]) == Err(message))
      && (s.result.Ok? <==> input in files && mid(input, files[input]).Ok?)
      && (s.result.Err? ==> !s.result.error.EmptyName?)
  {
    OutputDiffersFromInput(input);
  }

  /**
   * A successful conversion returns the `with_suffix(".md")` path: same
   * directory, the input's stem followed by `.md`. That path now holds the
   * converted text; every other path, the input included, is as it was.
   */
  lemma SuccessWritesOutput(files: map<Path, Content>, mid: Converter, input: Path)
    requires IsConvertible(input)
    requires Convert(files, mid, input).result.Ok?
    ensures var s := Convert(files, mid, input);
      var output := s.result.value;
      && WithMdSuffix(input) == Some(output)
      && Directory(output) == Directory(input)
      && Name(output) == Stem(Name(input)) + MdSuffix
      && output != input
      && input in s.files && s.files[input] == files[input]
      && s.files == files[output := mid(input, files[input]).value]
  {
    WithMdSuffixParts(input);
    OutputDiffersFromInput(input);
  }

  /**
   * Converting the same file twice gives the same answer and the same files:
   * the second write replaces the first output, whose presence raises no error.
   */
  lemma ConvertTwiceIsConvertOnce(files: map<Path, Content>, mid: Converter, input: Path)
    requires IsConvertible(input)
    ensures var once := Convert(files, mid, input);
      var twice := Convert(once.files, mid, input);
      twice == once
  {
    OutputDiffersFromInput(input);
    ConvertTwiceWhenOutputIsNew(files, mid, input);
  }

  /** Converting twice is converting once whenever the output path is not the input path. */
  lemma ConvertTwiceWhenOutputIsNew(files: map<Path, Content>, mid: Converter, input: Path)
    requires WithMdSuffix(input).Some? && WithMdSuffix(input).value != input
    ensures var once := Convert(files, mid, input);
      Convert(once.files, mid, input) == once
  {
    var once := Convert(files, mid, input);
    assert input in once.files <==> input in files;
    assert input in files ==> once.files[input] == files[input];
  }
}
