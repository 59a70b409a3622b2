/**
 * What a drop guarantees: every accepted file is tried once, in order; each
 * file's outcome depends only on that file (a failure never affects the files
 * after it); only `.md` outputs are written, the last write to a path wins;
 * and a drop is taken exactly when the drag would have been accepted.
 */
module DropProperties {
  import opened Wrappers
  import opened Text
  import opened PurePaths
  import opened Extensions
  import opened FileSystems
  import opened Conversion
  import opened DropArea

  /** Two filesystems agree on one path: both lack it, or both hold the same text there. */
  predicate SameAt(f: map<Path, Content>, g: map<Path, Content>, q: Path)
  {
    (q in f <==> q in g) && (q in f ==> f[q] == g[q])
  }

  /** The outcome `_convert_file` would have on `input` alone, against the files as they were before the drop. */
  function Attempt(files: map<Path, Content>, mid: Converter, input: Path): Outcome
  {
    Record(input, Convert(files, mid, input).result)
  }

  /** Each input converted on its own against the same files. */
  function Attempts(files: map<Path, Content>, mid: Converter, inputs: seq<Path>): seq<Outcome>
  {
    seq(|inputs|, i requires 0 <= i < |inputs| => Attempt(files, mid, inputs[i]))
  }

  /** No later success in `outcomes` writes the output of the success at `j`. */
  predicate LastWriter(outcomes: seq<Outcome>, j: int)
    requires 0 <= j < |outcomes| && outcomes[j].Converted?
  {
    forall k :: j < k < |outcomes| && outcomes[k].Converted? ==> outcomes[k].output != outcomes[j].output
  }

  // ---- The two lists ----

  /** Every outcome lands in exactly one list: `len(successful) + len(failed)` is the number of files. */
  lemma {:induction false} EveryFileClassified(outcomes: seq<Outcome>)
    ensures |Successes(outcomes)| + |Failures(outcomes)| == |outcomes|
  {
    if outcomes != [] {
      EveryFileClassified(outcomes[..|outcomes| - 1]);
    }
  }

  /** `successful` holds exactly the converted files with their outputs. */
  lemma {:induction false} SuccessesAreConverted(outcomes: seq<Outcome>, input: Path, output: Path)
    ensures (input, output) in Successes(outcomes) <==> Converted(input, output) in outcomes
  {
    if outcomes != [] {
      var init := outcomes[..|outcomes| - 1];
      SuccessesAreConverted(init, input, output);
      assert outcomes == init + [outcomes[|outcomes| - 1]];
    }
  }

  /** `failed` holds exactly the files that raised, with what they raised. */
  lemma {:induction false} FailuresAreFailed(outcomes: seq<Outcome>, input: Path, e: Error)
    ensures (input, e) in Failures(outcomes) <==> Failed(input, e) in outcomes
  {
    if outcomes != [] {
      var init := outcomes[..|outcomes| - 1];
      FailuresAreFailed(init, input, e);
      assert outcomes == init + [outcomes[|outcomes| - 1]];
    }
  }

  /** With one failure among the outcomes, `failed` is that one entry and `successful` has all the others. */
  lemma {:induction false} SingleFailureLists(outcomes: seq<Outcome>, k: nat)
    requires k < |outcomes| && outcomes[k].Failed?
    requires forall i :: 0 <= i < |outcomes| && i != k ==> outcomes[i].Converted?
    ensures Failures(outcomes) == [(outcomes[k].input, outcomes[k].error)]
    ensures |Successes(outcomes)| == |outcomes| - 1
  {
    var init := outcomes[..|outcomes| - 1];
    if k == |outcomes| - 1 {
      NoFailures(init);
    } else {
      SingleFailureLists(init, k);
    }
    EveryFileClassified(outcomes);
  }

  /** Without a failure, `failed` is empty. */
  lemma {:induction false} NoFailures(outcomes: seq<Outcome>)
    requires forall i :: 0 <= i < |outcomes| ==> outcomes[i].Converted?
    ensures Failures(outcomes) == []
  {
    if outcomes != [] {
      NoFailures(outcomes[..|outcomes| - 1]);
    }
  }

  // ---- The batch ----

  /** The batch writes only `.md` paths: every other path ends the batch as it began. */
  lemma {:induction false} BatchKeepsOtherPaths(files: map<Path, Content>, mid: Converter, inputs: seq<Path>)
    ensures forall q :: !EndsWith(q, MdSuffix) ==> SameAt(RunBatch(files, mid, inputs).files, files, q)
  {
    if inputs != [] {
      var last := inputs[|inputs| - 1];
      BatchKeepsOtherPaths(files, mid, inputs[..|inputs| - 1]);
      WithMdSuffixParts(last);
    }
  }

  /** `_convert_file` answers the same on two filesystems that agree on its input. */
  lemma ConvertDependsOnInputOnly(f: map<Path, Content>, g: map<Path, Content>, mid: Converter, input: Path)
    requires SameAt(f, g, input)
    ensures Convert(f, mid, input).result == Convert(g, mid, input).result
  {
  }

  /**
   * Fail isolation: the outcome of every file of the batch is the outcome it
   * would have had alone, whatever the files before it did or raised.
   */
  lemma BatchIsolation(files: map<Path, Content>, mid: Converter, inputs: seq<Path>)
    requires forall i :: 0 <= i < |inputs| ==> IsConvertible(inputs[i])
    ensures RunBatch(files, mid, inputs).outcomes == Attempts(files, mid, inputs)
  {
    forall i | 0 <= i < |inputs| ensures !EndsWith(inputs[i], MdSuffix) {
      ConvertibleIsNotMd(inputs[i]);
    }
    IsolationWithoutMdInputs(files, mid, inputs);
  }

  /** Fail isolation holds for any batch of inputs that no conversion can overwrite. */
  lemma {:induction false} IsolationWithoutMdInputs(files: map<Path, Content>, mid: Converter, inputs: seq<Path>)
    requires forall i :: 0 <= i < |inputs| ==> !EndsWith(inputs[i], MdSuffix)
    ensures RunBatch(files, mid, inputs).outcomes == Attempts(files, mid, inputs)
  {
    if inputs != [] {
      var init, last := inputs[..|inputs| - 1], inputs[|inputs| - 1];
      IsolationWithoutMdInputs(files, mid, init);
      BatchKeepsOtherPaths(files, mid, init);
      ConvertDependsOnInputOnly(RunBatch(files, mid, init).files, files, mid, last);
      AttemptsSnoc(files, mid, inputs);
    }
  }

  /** The attempts of a batch are those of all but its last file, then that file's. */
  lemma AttemptsSnoc(files: map<Path, Content>, mid: Converter, inputs: seq<Path>)
    requires inputs != []
    ensures Attempts(files, mid, inputs) ==
      Attempts(files, mid, inputs[..|inputs| - 1]) + [Attempt(files, mid, inputs[|inputs| - 1])]
  {
  }

  /** The files after a batch: a path that no success wrote is as it was before. */
  lemma {:induction false} BatchWritesOnlyOutputs(files: map<Path, Content>, mid: Converter, inputs: seq<Path>, q: Path)
    requires forall j :: 0 <= j < |inputs| && RunBatch(files, mid, inputs).outcomes[j].Converted? ==>
      RunBatch(files, mid, inputs).outcomes[j].output != q
    ensures SameAt(RunBatch(files, mid, inputs).files, files, q)
  {
    if inputs != [] {
      var init, last := inputs[..|inputs| - 1], inputs[|inputs| - 1];
      var prev := RunBatch(files, mid, init);
      var b := RunBatch(files, mid, inputs);
      assert forall j :: 0 <= j < |init| ==> prev.outcomes[j] == b.outcomes[j];
      BatchWritesOnlyOutputs(files, mid, init, q);
      assert b.outcomes[|inputs| - 1] == Record(last, Convert(prev.files, mid, last).result);
    }
  }

  /** The files after a batch: the output of the last success to write a path holds that file's converted text. */
  lemma BatchLastWriteWins(files: map<Path, Content>, mid: Converter, inputs: seq<Path>, j: nat)
    requires forall i :: 0 <= i < |inputs| ==> IsConvertible(inputs[i])
    requires j < |inputs| && RunBatch(files, mid, inputs).outcomes[j].Converted?
    requires LastWriter(RunBatch(files, mid, inputs).outcomes, j)
    ensures inputs[j] in files && mid(inputs[j], files[inputs[j]]).Ok?
    ensures var b := RunBatch(files, mid, inputs);
      b.outcomes[j].output in b.files && b.files[b.outcomes[j].output] == mid(inputs[j], files[inputs[j]]).value
  {
    forall i | 0 <= i < |inputs| ensures !EndsWith(inputs[i], MdSuffix) {
      ConvertibleIsNotMd(inputs[i]);
    }
    LastWriteWinsWithoutMdInputs(files, mid, inputs, j);
  }

  /** The last write wins in any batch of inputs that no conversion can overwrite. */
  lemma {:induction false} LastWriteWinsWithoutMdInputs(files: map<Path, Content>, mid: Converter, inputs: seq<Path>, j: nat)
    requires forall i :: 0 <= i < |inputs| ==> !EndsWith(inputs[i], MdSuffix)
    requires j < |inputs| && RunBatch(files, mid, inputs).outcomes[j].Converted?
    requires LastWriter(RunBatch(files, mid, inputs).outcomes, j)
    ensures inputs[j] in files && mid(inputs[j], files[inputs[j]]).Ok?
    ensures var b := RunBatch(files, mid, inputs);
      b.outcomes[j].output in b.files && b.files[b.outcomes[j].output] == mid(inputs[j], files[inputs[j]]).value
  {
    var init, last := inputs[..|inputs| - 1], inputs[|inputs| - 1];
    var prev := RunBatch(files, mid, init);
    var b := RunBatch(files, mid, inputs);
    var step := Convert(prev.files, mid, last);
    assert b.outcomes == prev.outcomes + [Record(last, step.result)] && b.files == step.files;
    if j == |inputs| - 1 {
      BatchKeepsOtherPaths(files, mid, init);
      StepWritesOwnOutput(prev.files, files, mid, last);
    } else {
      assert forall k :: 0 <= k < |init| ==> prev.outcomes[k] == b.outcomes[k];
      LastWriteWinsWithoutMdInputs(files, mid, init, j);
      assert b.outcomes[|inputs| - 1] == Record(last, step.result);
      StepKeepsOtherPaths(prev.files, mid, last, b.outcomes[j].output);
    }
  }

  /** A conversion that succeeds, on files that agree with `files` at its input, writes that input's text to its output. */
  lemma StepWritesOwnOutput(f: map<Path, Content>, files: map<Path, Content>, mid: Converter, input: Path)
    requires SameAt(f, files, input) && Convert(f, mid, input).result.Ok?
    ensures input in files && mid(input, files[input]).Ok?
    ensures var s := Convert(f, mid, input);
      s.result.value in s.files && s.files[s.result.value] == mid(input, files[input]).value
  {
  }

  /** A conversion leaves every path alone but the output it reports. */
  lemma StepKeepsOtherPaths(f: map<Path, Content>, mid: Converter, input: Path, q: Path)
    requires !(Convert(f, mid, input).result.Ok? && Convert(f, mid, input).result.value == q)
    ensures SameAt(Convert(f, mid, input).files, f, q)
  {
  }

  /** With exactly one failing file, the batch reports `len(files) - 1` successes and that one failure. */
  lemma OneFailingFile(files: map<Path, Content>, mid: Converter, inputs: seq<Path>, k: nat)
    requires forall i :: 0 <= i < |inputs| ==> IsConvertible(inputs[i])
    requires k < |inputs| && Attempt(files, mid, inputs[k]).Failed?
    requires forall i :: 0 <= i < |inputs| && i != k ==> Attempt(files, mid, inputs[i]).Converted?
    ensures var b := RunBatch(files, mid, inputs);
      && |Successes(b.outcomes)| == |inputs| - 1
      && Failures(b.outcomes) == [(inputs[k], Attempt(files, mid, inputs[k]).error)]
  {
    BatchIsolation(files, mid, inputs);
    SingleFailureLists(RunBatch(files, mid, inputs).outcomes, k);
  }

  // ---- The drop ----

  /** A drop is taken exactly when a drag of the same payload is accepted: the two tests agree. */
  lemma DropAcceptedIffDragAccepted(files: map<Path, Content>, mid: Converter, event: MimeData)
    ensures Drop(files, mid, event).0.accepted <==> DragAccepts(event)
  {
    FilterEmptyIff(event.urls);
    forall i | 0 <= i < |event.urls|
      ensures DragQualifies(event.urls[i]) <==> IsConvertible(event.urls[i])
    {
      QualifiesIffConvertible(event.urls[i]);
    }
  }

  /** Every file to convert is tried once: the two lists have one entry per filtered path. */
  lemma DropClassifiesEveryFile(files: map<Path, Content>, mid: Converter, event: MimeData)
    ensures var r := Drop(files, mid, event).0;
      |r.successful| + |r.failed| == if event.hasUrls then |Filter(event.urls)| else 0
  {
    if event.hasUrls && Filter(event.urls) != [] {
      EveryFileClassified(RunBatch(files, mid, Filter(event.urls)).outcomes);
    }
  }

  /** The lists of a drop are those of each filtered file converted on its own: no failure stops or changes another. */
  lemma DropIsFailIsolated(files: map<Path, Content>, mid: Converter, event: MimeData)
    requires event.hasUrls
    ensures var r := Drop(files, mid, event).0;
      var attempts := Attempts(files, mid, Filter(event.urls));
      r.successful == Successes(attempts) && r.failed == Failures(attempts)
  {
    BatchIsolation(files, mid, Filter(event.urls));
  }

  /**
   * Each `successful` entry pairs a dropped file with its `with_suffix(".md")`
   * path: same directory, same stem, `.md` in place of the extension.
   */
  lemma DropSuccessfulEntries(files: map<Path, Content>, mid: Converter, event: MimeData)
    ensures forall x :: x in Drop(files, mid, event).0.successful ==>
      && x.0 in event.urls && IsConvertible(x.0)
      && WithMdSuffix(x.0) == Some(x.1)
      && Directory(x.1) == Directory(x.0)
      && Name(x.1) == Stem(Name(x.0)) + MdSuffix
  {
    if event.hasUrls && Filter(event.urls) != [] {
      var inputs := Filter(event.urls);
      var b := RunBatch(files, mid, inputs);
      BatchIsolation(files, mid, inputs);
      forall x | x in Drop(files, mid, event).0.successful
        ensures x.0 in event.urls && IsConvertible(x.0)
        ensures WithMdSuffix(x.0) == Some(x.1)
        ensures Directory(x.1) == Directory(x.0)
        ensures Name(x.1) == Stem(Name(x.0)) + MdSuffix
      {
        SuccessesAreConverted(b.outcomes, x.0, x.1);
        AttemptedOutcome(files, mid, inputs, Converted(x.0, x.1));
        FilterMembership(event.urls, x.0);
        SuccessWritesOutput(files, mid, x.0);
      }
    }
  }

  /**
   * Each `failed` entry is a dropped file that was missing (stat raised), or
   * on which the converter raised, with the converter's own message.
   */
  lemma DropFailedEntries(files: map<Path, Content>, mid: Converter, event: MimeData)
    ensures forall x :: x in Drop(files, mid, event).0.failed ==>
      && x.0 in event.urls && IsConvertible(x.0)
      && (x.0 !in files ==> x.1 == NotFound(x.0))
      && (x.0 in files ==> x.1.ConversionFailed? && mid(x.0, files[x.0]) == Err(x.1.message))
  {
    if event.hasUrls && Filter(event.urls) != [] {
      var inputs := Filter(event.urls);
      var b := RunBatch(files, mid, inputs);
      BatchIsolation(files, mid, inputs);
      forall x | x in Drop(files, mid, event).0.failed
        ensures x.0 in event.urls && IsConvertible(x.0)
        ensures x.0 !in files ==> x.1 == NotFound(x.0)
        ensures x.0 in files ==> x.1.ConversionFailed? && mid(x.0, files[x.0]) == Err(x.1.message)
      {
        FailuresAreFailed(b.outcomes, x.0, x.1);
        AttemptedOutcome(files, mid, inputs, Failed(x.0, x.1));
        FilterMembership(event.urls, x.0);
        ConvertOutcomes(files, mid, x.0);
      }
    }
  }

  /** An outcome among the attempts is that of one of the inputs, converted alone. */
  lemma AttemptedOutcome(files: map<Path, Content>, mid: Converter, inputs: seq<Path>, o: Outcome)
    requires o in Attempts(files, mid, inputs)
    ensures o.input in inputs && Attempt(files, mid, o.input) == o
  {
    var i :| 0 <= i < |inputs| && Attempts(files, mid, inputs)[i] == o;
  }
}
