/**
 * `DropArea.dragEnterEvent` and `DropArea.dropEvent`: accept a drag when some
 * dragged path has an accepted extension; on drop, convert every such path in
 * payload order, recording each success and each failure without letting one
 * failure stop the rest.
 */
module DropArea {
  import opened Wrappers
  import opened Text
  import opened PurePaths
  import opened Extensions
  import opened FileSystems
  import opened Conversion

  /** The event's mime data: whether it carries URLs, and their local paths (`toLocalFile()`). */
  datatype MimeData = MimeData(hasUrls: bool, urls: seq<Path>)

  /** `acceptProposedAction()` with the index of the path it logged, or `ignore()`. */
  datatype DragDecision = AcceptProposed(validAt: nat) | Ignore

  /** A drag is accepted when it carries URLs and one of them passes the extension test. */
  predicate DragAccepts(event: MimeData)
  {
    event.hasUrls && exists i :: 0 <= i < |event.urls| && DragQualifies(event.urls[i])
  }

  /** `dragEnterEvent`: scan the URLs and accept at the first that qualifies. */
  method DragEnter(event: MimeData) returns (d: DragDecision)
    ensures d.AcceptProposed? <==> DragAccepts(event)
    ensures d.AcceptProposed? ==> d.validAt < |event.urls| && DragQualifies(event.urls[d.validAt])
    ensures d.AcceptProposed? ==> forall j :: 0 <= j < d.validAt ==> !DragQualifies(event.urls[j])
  {
    if event.hasUrls {
      for i := 0 to |event.urls|
        invariant forall j :: 0 <= j < i ==> !DragQualifies(event.urls[j])
      {
        var filePath := event.urls[i];
        if AnyEndsWith(Lower(filePath), ValidExtensions) {
          return AcceptProposed(i);
        }
      }
    }
    return Ignore;
  }

  /** The first loop of `dropEvent`: `files_to_convert`, built by appending. */
  method CollectFilesToConvert(urls: seq<Path>) returns (filesToConvert: seq<Path>)
    ensures filesToConvert == Filter(urls)
  {
    filesToConvert := [];
    for i := 0 to |urls|
      invariant filesToConvert == Filter(urls[..i])
    {
      var filePath := urls[i];
      assert urls[..i + 1][..i] == urls[..i];
      if EndsWithOneOf(Lower(filePath), ValidExtensions) {
        filesToConvert := filesToConvert + [filePath];
      }
    }
    assert urls[..|urls|] == urls;
  }

  /** How one file of a drop ended. */
  datatype Outcome = Converted(input: Path, output: Path) | Failed(input: Path, error: Error)

  /** The outcome recorded for `input` when `_convert_file` returned or raised `r`. */
  function Record(input: Path, r: Result<Path, Error>): Outcome
  {
    match r
    case Ok(output) => Converted(input, output)
    case Err(e) => Failed(input, e)
  }

  /** The outcomes of a batch, one per input, and the files when it is over. */
  datatype Batch = Batch(outcomes: seq<Outcome>, files: map<Path, Content>)

  /** The second loop of `dropEvent`: convert each input in turn on the files the previous ones left. */
  function RunBatch(files: map<Path, Content>, mid: Converter, inputs: seq<Path>): (b: Batch)
    ensures |b.outcomes| == |inputs|
    decreases |inputs|
  {
    if inputs == [] then Batch([], files)
    else
      var last := inputs[|inputs| - 1];
      var prev := RunBatch(files, mid, inputs[..|inputs| - 1]);
      var step := Convert(prev.files, mid, last);
      Batch(prev.outcomes + [Record(last, step.result)], step.files)
  }

  /** The `successful` list: `(file_path, output_path)` per converted file, in order. */
  function Successes(outcomes: seq<Outcome>): seq<(Path, Path)>
  {
    if outcomes == [] then []
    else
      Successes(outcomes[..|outcomes| - 1]) +
        match outcomes[|outcomes| - 1]
        case Converted(input, output) => [(input, output)]
        case Failed(_, _) => []
  }

  /** The `failed` list: `(file_path, error)` per file that raised, in order. */
  function Failures(outcomes: seq<Outcome>): seq<(Path, Error)>
  {
    if outcomes == [] then []
    else
      Failures(outcomes[..|outcomes| - 1]) +
        match outcomes[|outcomes| - 1]
        case Converted(_, _) => []
        case Failed(input, e) => [(input, e)]
  }

  /** A batch one file longer: the shorter batch, then that file converted on the files it left. */
  lemma RunBatchSnoc(files: map<Path, Content>, mid: Converter, inputs: seq<Path>, x: Path)
    ensures var prev := RunBatch(files, mid, inputs);
      var step := Convert(prev.files, mid, x);
      RunBatch(files, mid, inputs + [x]) == Batch(prev.outcomes + [Record(x, step.result)], step.files)
  {
    assert (inputs + [x])[..|inputs|] == inputs;
  }

  /** One more outcome adds its pair to `successful` when it converted, and nothing otherwise. */
  lemma SuccessesSnoc(outcomes: seq<Outcome>, o: Outcome)
    ensures o.Converted? ==> Successes(outcomes + [o]) == Successes(outcomes) + [(o.input, o.output)]
    ensures o.Failed? ==> Successes(outcomes + [o]) == Successes(outcomes)
  {
    assert (outcomes + [o])[..|outcomes|] == outcomes;
  }

  /** One more outcome adds its pair to `failed` when it failed, and nothing otherwise. */
  lemma FailuresSnoc(outcomes: seq<Outcome>, o: Outcome)
    ensures o.Converted? ==> Failures(outcomes + [o]) == Failures(outcomes)
    ensures o.Failed? ==> Failures(outcomes + [o]) == Failures(outcomes) + [(o.input, o.error)]
  {
    assert (outcomes + [o])[..|outcomes|] == outcomes;
  }

  /** The summary of one drop: whether it was accepted, and the two lists. */
  datatype DropReport = DropReport(accepted: bool, successful: seq<(Path, Path)>, failed: seq<(Path, Error)>)

  /** The specification of `dropEvent` on a filesystem value. */
  function Drop(files: map<Path, Content>, mid: Converter, event: MimeData): (DropReport, map<Path, Content>)
  {
    if !event.hasUrls then (DropReport(false, [], []), files)
    else
      var toConvert := Filter(event.urls);
      if toConvert == [] then (DropReport(false, [], []), files)
      else
        var b := RunBatch(files, mid, toConvert);
        (DropReport(true, Successes(b.outcomes), Failures(b.outcomes)), b.files)
  }

  /** `dropEvent`: filter, then, when some file qualified, convert them all and accept the drop. */
  method DropEvent(fs: FileSystem, mid: Converter, event: MimeData) returns (report: DropReport)
    modifies fs
    ensures (report, fs.files) == Drop(old(fs.files), mid, event)
  {
    report := DropReport(false, [], []);
    if event.hasUrls {
      var filesToConvert := CollectFilesToConvert(event.urls);
      if filesToConvert != [] {
        var successful, failed := ConvertAll(fs, mid, filesToConvert);
        report := DropReport(true, successful, failed);
      }
    }
  }

  /** The second loop of `dropEvent`: each file's conversion in its own `try`, a failure caught and recorded. */
  method ConvertAll(fs: FileSystem, mid: Converter, filesToConvert: seq<Path>)
    returns (successful: seq<(Path, Path)>, failed: seq<(Path, Error)>)
    modifies fs
    ensures var b := RunBatch(old(fs.files), mid, filesToConvert);
      successful == Successes(b.outcomes) && failed == Failures(b.outcomes) && fs.files == b.files
  {
    successful, failed := [], [];
    for i := 0 to |filesToConvert|
      invariant var b := RunBatch(old(fs.files), mid, filesToConvert[..i]);
        successful == Successes(b.outcomes) && failed == Failures(b.outcomes) && fs.files == b.files
    {
      successful, failed := ConvertAndRecord(fs, mid, filesToConvert, i, successful, failed, old(fs.files));
    }
    assert filesToConvert[..|filesToConvert|] == filesToConvert;
  }

  /**
   * One pass of that loop: `_convert_file` on the next file, its output path
   * appended to `successful`, or the error it raised appended to `failed`.
   */
  method ConvertAndRecord(fs: FileSystem, mid: Converter, filesToConvert: seq<Path>, i: nat,
                          successful: seq<(Path, Path)>, failed: seq<(Path, Error)>,
                          ghost files: map<Path, Content>)
    returns (successful': seq<(Path, Path)>, failed': seq<(Path, Error)>)
    requires i < |filesToConvert|
    requires var b := RunBatch(files, mid, filesToConvert[..i]);
      successful == Successes(b.outcomes) && failed == Failures(b.outcomes) && fs.files == b.files
    modifies fs
    ensures var b := RunBatch(files, mid, filesToConvert[..i + 1]);
      successful' == Successes(b.outcomes) && failed' == Failures(b.outcomes) && fs.files == b.files
  {
    var filePath := filesToConvert[i];
    ghost var done := filesToConvert[..i];
    assert filesToConvert[..i + 1] == done + [filePath];
    ghost var prev := RunBatch(files, mid, done);
    var r := ConvertFile(fs, mid, filePath);
    ghost var o := Record(filePath, r);
    RunBatchSnoc(files, mid, done, filePath);
    SuccessesSnoc(prev.outcomes, o);
    FailuresSnoc(prev.outcomes, o);
    successful', failed' := successful, failed;
    match r {
      case Ok(outputPath) =>
        successful' := successful + [(filePath, outputPath)];
      case Err(e) =>
        failed' := failed + [(filePath, e)];
    }
  }
}
