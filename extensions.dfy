/**
 * Which dragged paths the drop area will convert: those whose lower-cased text
 * ends with `.pdf`, `.docx` or `.pptx`. `dragEnterEvent` writes the test as
 * `any(...)` over a list, `dropEvent` as `endswith` with a tuple; both are here,
 * with the proof that they agree, and with the drop filter.
 */
module Extensions {
  import opened Wrappers
  import opened Text
  import opened PurePaths

  const ValidExtensions: seq<string> := [".pdf", ".docx", ".pptx"]

  /** `any(lowered.endswith(ext) for ext in exts)`: the extensions in order, stopping at the first hit. */
  function AnyEndsWith(lowered: string, exts: seq<string>): bool
  {
    if exts == [] then false
    else EndsWith(lowered, exts[0]) || AnyEndsWith(lowered, exts[1..])
  }

  /** `lowered.endswith(tuple(exts))`: some member of the tuple is a suffix. */
  predicate EndsWithOneOf(lowered: string, exts: seq<string>)
  {
    exists i :: 0 <= i < |exts| && EndsWith(lowered, exts[i])
  }

  /** The generator form and the tuple form of the test agree on every string and every list. */
  lemma {:induction false} AnyIffEndsWithOneOf(lowered: string, exts: seq<string>)
    ensures AnyEndsWith(lowered, exts) <==> EndsWithOneOf(lowered, exts)
  {
    if exts != [] {
      AnyIffEndsWithOneOf(lowered, exts[1..]);
      if EndsWithOneOf(lowered, exts) && !EndsWith(lowered, exts[0]) {
        var i :| 0 <= i < |exts| && EndsWith(lowered, exts[i]);
        assert exts[1..][i - 1] == exts[i];
      }
      if EndsWithOneOf(lowered, exts[1..]) {
        var i :| 0 <= i < |exts[1..]| && EndsWith(lowered, exts[1..][i]);
        assert exts[i + 1] == exts[1..][i];
      }
    }
  }

  /** The test `dragEnterEvent` applies to one path. */
  predicate DragQualifies(p: Path)
  {
    AnyEndsWith(Lower(p), ValidExtensions)
  }

  /** The test `dropEvent` applies to one path: a file it will convert. */
  predicate IsConvertible(p: Path)
  {
    EndsWithOneOf(Lower(p), ValidExtensions)
  }

  /** Drag-enter and drop judge every path alike. */
  lemma QualifiesIffConvertible(p: Path)
    ensures DragQualifies(p) <==> IsConvertible(p)
  {
    AnyIffEndsWithOneOf(Lower(p), ValidExtensions);
  }

  /** `files_to_convert`: the convertible payload paths, in payload order. */
  function Filter(paths: seq<Path>): (r: seq<Path>)
    ensures |r| <= |paths|
    ensures forall i :: 0 <= i < |r| ==> IsConvertible(r[i])
  {
    if paths == [] then []
    else
      var last := paths[|paths| - 1];
      Filter(paths[..|paths| - 1]) + (if IsConvertible(last) then [last] else [])
  }

  /** Filtering a concatenation filters each part: the filter keeps payload order. */
  lemma {:induction false} FilterConcat(a: seq<Path>, b: seq<Path>)
    ensures Filter(a + b) == Filter(a) + Filter(b)
  {
    if b != [] {
      var b' := b[..|b| - 1];
      assert (a + b)[..|a + b| - 1] == a + b';
      FilterConcat(a, b');
    } else {
      assert a + b == a;
    }
  }

  /** A path is kept exactly as many times as it occurs, when it is convertible, and never otherwise. */
  lemma {:induction false} FilterCounts(paths: seq<Path>, x: Path)
    ensures multiset(Filter(paths))[x] == if IsConvertible(x) then multiset(paths)[x] else 0
  {
    if paths != [] {
      var init := paths[..|paths| - 1];
      FilterCounts(init, x);
      assert paths == init + [paths[|paths| - 1]];
    }
  }

  /** Membership in the filter: in the payload and convertible. */
  lemma FilterMembership(paths: seq<Path>, x: Path)
    ensures x in Filter(paths) <==> x in paths && IsConvertible(x)
  {
    FilterCounts(paths, x);
    assert x in Filter(paths) <==> x in multiset(Filter(paths));
    assert x in paths <==> x in multiset(paths);
  }

  /** The filter is empty exactly when no payload path is convertible. */
  lemma {:induction false} FilterEmptyIff(paths: seq<Path>)
    ensures Filter(paths) == [] <==> forall i :: 0 <= i < |paths| ==> !IsConvertible(paths[i])
  {
    if paths != [] {
      var init := paths[..|paths| - 1];
      FilterEmptyIff(init);
      assert forall i :: 0 <= i < |init| ==> init[i] == paths[i];
    }
  }

  /** Filtering the filtered list changes nothing. */
  lemma {:induction false} FilterIdempotent(paths: seq<Path>)
    ensures Filter(Filter(paths)) == Filter(paths)
  {
    if paths != [] {
      var init := paths[..|paths| - 1];
      var last := paths[|paths| - 1];
      FilterIdempotent(init);
      FilterConcat(Filter(init), if IsConvertible(last) then [last] else []);
      if IsConvertible(last) {
        assert [last][..0] == [];
      }
    }
  }

  /** An extension as pathlib sees it: a dot followed by characters that are neither dots nor separators. */
  predicate PlainExtension(ext: string)
  {
    2 <= |ext| && ext[0] == '.' && forall j :: 1 <= j < |ext| ==> ext[j] != '.' && ext[j] != Separator
  }

  /** Every accepted extension is plain. */
  lemma ValidExtensionsArePlain(ext: string)
    requires ext in ValidExtensions
    ensures PlainExtension(ext)
  {
  }

  /** Every accepted extension is already lower case, so a lower-cased path can end with it. */
  lemma ValidExtensionsAreLowerCase(ext: string)
    requires ext in ValidExtensions
    ensures Lower(ext) == ext
  {
  }

  /** The characters of `p` under a matched extension: a dot, then no dot and no separator. */
  lemma ExtensionCharacters(p: Path, ext: string)
    requires PlainExtension(ext) && EndsWith(Lower(p), ext)
    ensures p[|p| - |ext|] == '.'
    ensures forall j :: |p| - |ext| < j < |p| ==> p[j] != '.'
    ensures forall j :: |p| - |ext| <= j < |p| ==> p[j] != Separator
  {
    var k := |p| - |ext|;
    var l := Lower(p);
    assert l[k..] == ext;
    forall j | k <= j < |p|
      ensures LowerChar(p[j]) == ext[j - k]
    {
      assert l[k..][j - k] == l[j];
    }
    forall j | k <= j < |p|
      ensures p[j] == '.' <==> j == k
      ensures p[j] != Separator
    {
      LowerCharKeepsPunctuation(p[j]);
    }
  }

  /**
   * The output path of a convertible file: its matched extension, in whatever
   * case, replaced by `.md`; a bare dotfile such as `.PDF` has no suffix for
   * pathlib and gets `.md` appended instead.
   */
  lemma ConvertibleOutputPath(p: Path, ext: string)
    requires PlainExtension(ext) && EndsWith(Lower(p), ext)
    ensures |ext| <= |Name(p)|
    ensures |Name(p)| > |ext| ==> WithMdSuffix(p) == Some(p[..|p| - |ext|] + MdSuffix)
    ensures |Name(p)| == |ext| ==> WithMdSuffix(p) == Some(p + MdSuffix)
  {
    ExtensionEndsName(p, ext);
    WithMdSuffixAtLastDot(p, |ext|);
  }

  /** A matched extension lies inside the name, and its dot is the last dot of the name. */
  lemma ExtensionEndsName(p: Path, ext: string)
    requires PlainExtension(ext) && EndsWith(Lower(p), ext)
    ensures |ext| <= |Name(p)|
    ensures RFind(Name(p), '.') == |Name(p)| - |ext|
  {
    var k := |ext|;
    ExtensionCharacters(p, ext);
    NameKeepsTail(p, k);
    var n := Name(p);
    RFindIsLast(n, '.');
    assert n[|n| - k] == '.';
    assert forall j :: |n| - k < j < |n| ==> n[j] != '.';
  }

  /** When the last `k` characters of a path hold no separator, they all belong to its name. */
  lemma NameKeepsTail(p: Path, k: nat)
    requires k <= |p|
    requires forall j :: |p| - k <= j < |p| ==> p[j] != Separator
    ensures k <= |Name(p)|
    ensures forall j :: |Name(p)| - k <= j < |Name(p)| ==> Name(p)[j] == p[|p| - |Name(p)| + j]
  {
  }

  /** A convertible path never ends with `.md`: no output ever overwrites an input. */
  lemma ConvertibleIsNotMd(p: Path)
    requires IsConvertible(p)
    ensures !EndsWith(p, MdSuffix)
  {
    var lowered := Lower(p);
    AcceptedEndsInFOrX(lowered);
    assert lowered[|p| - 1] == LowerChar(p[|p| - 1]);
    if EndsWith(p, MdSuffix) {
      LastOfSuffix(p, MdSuffix);
    }
  }

  /** A string that ends with an accepted extension ends in `f` (`.pdf`) or `x` (`.docx`, `.pptx`). */
  lemma AcceptedEndsInFOrX(lowered: string)
    requires EndsWithOneOf(lowered, ValidExtensions)
    ensures lowered != [] && (lowered[|lowered| - 1] == 'f' || lowered[|lowered| - 1] == 'x')
  {
    var i :| 0 <= i < |ValidExtensions| && EndsWith(lowered, ValidExtensions[i]);
    var ext := ValidExtensions[i];
    LastOfSuffix(lowered, ext);
    assert ext[|ext| - 1] == 'f' || ext[|ext| - 1] == 'x';
  }

  /** A string that ends with a non-empty suffix ends with the suffix's last character. */
  lemma LastOfSuffix(s: string, suffix: string)
    requires suffix != [] && EndsWith(s, suffix)
    ensures s[|s| - 1] == suffix[|suffix| - 1]
  {
    assert s[|s| - |suffix|..][|suffix| - 1] == s[|s| - 1];
  }

  /** The output path of a convertible path is never the path itself. */
  lemma OutputDiffersFromInput(p: Path)
    requires IsConvertible(p)
    ensures WithMdSuffix(p).Some? && WithMdSuffix(p).value != p
  {
    var i :| 0 <= i < |ValidExtensions| && EndsWith(Lower(p), ValidExtensions[i]);
    ValidExtensionsArePlain(ValidExtensions[i]);
    ConvertibleOutputPath(p, ValidExtensions[i]);
    ConvertibleIsNotMd(p);
  }

  /**
   * A file `dir + stem + ext` with a non-empty stem, whose extension is
   * accepted in any case, is convertible and its output is `dir + stem + ".md"`.
   */
  lemma DroppedFileOutput(dir: string, stem: string, ext: string)
    requires dir == [] || dir[|dir| - 1] == Separator
    requires stem != [] && Separator !in stem
    requires Lower(ext) in ValidExtensions
    ensures IsConvertible(dir + stem + ext)
    ensures WithMdSuffix(dir + stem + ext) == Some(dir + stem + MdSuffix)
  {
    MatchedExtension(dir + stem, ext);
    var p := dir + stem + ext;
    assert |Name(p)| > |ext| by {
      ValidExtensionsArePlain(Lower(ext));
      ExtensionHasNoSeparator(ext);
      NameOfJoin(dir, stem, ext);
    }
    OutputFromMatchedExtension(p, dir + stem, ext, Lower(ext));
  }

  /** A path ending in any case of an accepted extension is convertible and ends, lower-cased, with that extension in lower case. */
  lemma MatchedExtension(s: string, ext: string)
    requires Lower(ext) in ValidExtensions
    ensures IsConvertible(s + ext)
    ensures PlainExtension(Lower(ext)) && EndsWith(Lower(s + ext), Lower(ext))
  {
    ValidExtensionsArePlain(Lower(ext));
    LowerKeepsTail(s, ext);
    AcceptedExtensionConvertible(s + ext, Lower(ext));
  }

  /** The name of `dir + stem + ext` is `stem + ext` when neither holds a separator. */
  lemma NameOfJoin(dir: string, stem: string, ext: string)
    requires dir == [] || dir[|dir| - 1] == Separator
    requires Separator !in stem && Separator !in ext
    ensures Name(dir + stem + ext) == stem + ext
  {
    var n := stem + ext;
    NoSeparatorInConcat(stem, ext);
    SplitJoin(dir, n);
    assert dir + stem + ext == dir + n;
  }

  /**
   * A bare dotfile `dir + ext` (the name is only the extension, such as
   * `.PDF`) is convertible, but pathlib sees no suffix in it: its output is
   * the whole path followed by `.md`.
   */
  lemma DotfileOutput(dir: string, ext: string)
    requires dir == [] || dir[|dir| - 1] == Separator
    requires Lower(ext) in ValidExtensions
    ensures IsConvertible(dir + ext)
    ensures WithMdSuffix(dir + ext) == Some(dir + ext + MdSuffix)
  {
    var p := dir + ext;
    ValidExtensionsArePlain(Lower(ext));
    LowerKeepsTail(dir, ext);
    AcceptedExtensionConvertible(p, Lower(ext));
    ExtensionHasNoSeparator(ext);
    SplitJoin(dir, ext);
    ConvertibleOutputPath(p, Lower(ext));
  }

  /** The output of `s + ext` once `ext` is known to match an accepted extension, by the length of the name. */
  lemma OutputFromMatchedExtension(p: Path, s: string, ext: string, lext: string)
    requires p == s + ext && |lext| == |ext|
    requires PlainExtension(lext) && EndsWith(Lower(p), lext)
    ensures |Name(p)| > |lext| ==> WithMdSuffix(p) == Some(s + MdSuffix)
    ensures |Name(p)| == |lext| ==> WithMdSuffix(p) == Some(p + MdSuffix)
  {
    ConvertibleOutputPath(p, lext);
    assert p[..|p| - |lext|] == s;
  }

  /** An extension whose lower-case form is plain holds no separator. */
  lemma ExtensionHasNoSeparator(ext: string)
    requires PlainExtension(Lower(ext))
    ensures Separator !in ext
  {
    forall j | 0 <= j < |ext| ensures ext[j] != Separator {
      LowerCharKeepsPunctuation(ext[j]);
    }
  }

  /** Lower-casing a path lower-cases its final characters. */
  lemma LowerKeepsTail(s: string, ext: string)
    ensures EndsWith(Lower(s + ext), Lower(ext))
  {
    var p := s + ext;
    forall j | 0 <= j < |ext| ensures Lower(p)[|s| + j] == Lower(ext)[j] {
      assert p[|s| + j] == ext[j];
    }
    assert Lower(p)[|s|..] == Lower(ext);
  }

  /** A path whose lower-cased form ends with one accepted extension is convertible. */
  lemma AcceptedExtensionConvertible(p: Path, ext: string)
    requires ext in ValidExtensions && EndsWith(Lower(p), ext)
    ensures IsConvertible(p)
  {
    var i :| 0 <= i < |ValidExtensions| && ValidExtensions[i] == ext;
  }
}
