/**
 * The part of `pathlib.PurePath` that `_convert_file` uses: the final component
 * (`name`), its `suffix` and `stem`, and `with_suffix(".md")`. Paths are strings
 * with `/` as the only separator.
 */
module PurePaths {
  import opened Wrappers
  import opened Text

  type Path = string

  const Separator: char := '/'
  const MdSuffix: string := ".md"

  /** Everything up to and including the last separator (empty when there is none). */
  function Directory(p: Path): string
  {
    p[..RFind(p, Separator) + 1]
  }

  /** `PurePath.name`: the final component, after the last separator. */
  function Name(p: Path): string
  {
    p[RFind(p, Separator) + 1..]
  }

  /** A path is its directory followed by its name; the name holds no separator. */
  lemma DirectoryAndName(p: Path)
    ensures Directory(p) + Name(p) == p
    ensures Separator !in Name(p)
    ensures Directory(p) == [] || Directory(p)[|Directory(p)| - 1] == Separator
  {
    var i := RFind(p, Separator);
    assert Directory(p) + Name(p) == p by {
      assert p[..i + 1] + p[i + 1..] == p;
    }
    NameHasNoSeparator(p);
  }

  /** The final component holds no separator: the last one ends the directory part. */
  lemma NameHasNoSeparator(p: Path)
    ensures Separator !in Name(p)
  {
    var i := RFind(p, Separator);
    var n := p[i + 1..];
    RFindIsLast(p, Separator);
    forall j | 0 <= j < |n| ensures n[j] != Separator {
      assert n[j] == p[i + 1 + j];
    }
  }

  /** Appending a separator-free name to a directory gives back that directory and that name. */
  lemma {:induction false} SplitJoin(d: string, n: string)
    requires d == [] || d[|d| - 1] == Separator
    requires Separator !in n
    ensures Directory(d + n) == d
    ensures Name(d + n) == n
  {
    var s := d + n;
    var i := RFind(s, Separator);
    RFindIsLast(s, Separator);
    assert forall j :: |d| <= j < |s| ==> s[j] == n[j - |d|];
    assert i < |d|;
    assert d != [] ==> s[|d| - 1] == Separator;
    assert i == |d| - 1;
    assert s[..|d|] == d;
    assert s[|d|..] == n;
  }

  /** `PurePath.suffix`: from the last dot of the name, unless that dot leads or ends the name. */
  function Suffix(name: string): (r: string)
    ensures |r| < |name| || r == []
  {
    var i := RFind(name, '.');
    if 0 < i < |name| - 1 then name[i..] else ""
  }

  /**
   * The shape of a suffix: there is none when the name has no dot, or its last
   * dot leads or ends it; otherwise it is a dot and at least one more character,
   * ends the name, is shorter than it, and holds no further dot.
   */
  lemma SuffixShape(name: string)
    ensures '.' !in name ==> Suffix(name) == []
    ensures Suffix(name) == [] <==> RFind(name, '.') <= 0 || RFind(name, '.') == |name| - 1
    ensures var r := Suffix(name);
      r != [] ==> 2 <= |r| < |name| && r[0] == '.' && EndsWith(name, r) && '.' !in r[1..]
  {
    var i := RFind(name, '.');
    RFindIsLast(name, '.');
    if 0 < i < |name| - 1 {
      var r := name[i..];
      forall j | 1 <= j < |r| ensures r[j] != '.' {
        assert r[j] == name[i + j];
      }
      assert '.' !in r[1..];
    }
  }

  /** `PurePath.stem`: the name without its suffix. */
  function Stem(name: string): string
  {
    name[..|name| - |Suffix(name)|]
  }

  /**
   * `PurePath.with_suffix(".md")`: None where pathlib raises ValueError (an
   * empty name); otherwise the same directory and the stem followed by `.md`.
   */
  function WithMdSuffix(p: Path): Option<Path>
  {
    if Name(p) == [] then None else Some(Directory(p) + (Stem(Name(p)) + MdSuffix))
  }

  /** `with_suffix` keeps the directory and the stem, and the new name ends with `.md`. */
  lemma WithMdSuffixParts(p: Path)
    ensures WithMdSuffix(p).Some? <==> Name(p) != []
    ensures WithMdSuffix(p).Some? ==> Directory(WithMdSuffix(p).value) == Directory(p)
    ensures WithMdSuffix(p).Some? ==> Name(WithMdSuffix(p).value) == Stem(Name(p)) + MdSuffix
    ensures WithMdSuffix(p).Some? ==> EndsWith(WithMdSuffix(p).value, MdSuffix)
  {
    if Name(p) != [] {
      var d, m := Directory(p), Stem(Name(p)) + MdSuffix;
      assert WithMdSuffix(p).value == d + m;
      assert d == [] || d[|d| - 1] == Separator by { DirectoryAndName(p); }
      assert Separator !in m by { NewNameHasNoSeparator(p); }
      SplitJoin(d, m);
      assert (d + m)[|d + m| - |MdSuffix|..] == MdSuffix by {
        assert (d + m)[|d + m| - |MdSuffix|..] == m[|m| - |MdSuffix|..];
      }
    }
  }

  /** The name `with_suffix(".md")` produces holds no separator. */
  lemma NewNameHasNoSeparator(p: Path)
    ensures Separator !in Stem(Name(p)) + MdSuffix
  {
    assert Separator !in Name(p) by { DirectoryAndName(p); }
    StemHasNoSeparator(Name(p));
    assert Separator !in MdSuffix;
    NoSeparatorInConcat(Stem(Name(p)), MdSuffix);
  }

  /** A stem is a prefix of its name, so it holds no separator when the name holds none. */
  lemma StemHasNoSeparator(n: string)
    requires Separator !in n
    ensures Separator !in Stem(n)
  {
    forall k | 0 <= k < |Stem(n)| ensures Stem(n)[k] != Separator {
      assert Stem(n)[k] == n[k];
    }
  }

  /** Two separator-free strings joined hold no separator. */
  lemma NoSeparatorInConcat(a: string, b: string)
    requires Separator !in a && Separator !in b
    ensures Separator !in a + b
  {
    forall j | 0 <= j < |a + b| ensures (a + b)[j] != Separator {
      if j < |a| { assert (a + b)[j] == a[j]; } else { assert (a + b)[j] == b[j - |a|]; }
    }
  }

  /** When the last dot of a name starts its final `k` characters, those characters are its suffix, unless the dot leads the name. */
  lemma SuffixFromLastDot(name: string, k: nat)
    requires 2 <= k <= |name|
    requires RFind(name, '.') == |name| - k
    ensures Suffix(name) == if |name| > k then name[|name| - k..] else []
  {
  }

  /** With a suffix of `k` characters, `with_suffix(".md")` swaps the final `k` characters of the path for `.md`. */
  lemma WithMdSuffixReplacesTail(p: Path, k: nat)
    requires 2 <= k < |Name(p)|
    requires Suffix(Name(p)) == Name(p)[|Name(p)| - k..]
    ensures WithMdSuffix(p) == Some(p[..|p| - k] + MdSuffix)
  {
    assert Stem(Name(p)) == Name(p)[..|Name(p)| - k];
    DirectoryAndName(p);
    JoinDroppingTail(Directory(p), Name(p), Stem(Name(p)), k);
  }

  /** Without a suffix (a bare dotfile such as `.pdf`), `with_suffix(".md")` appends `.md` to the path. */
  lemma WithMdSuffixAppends(p: Path)
    requires Name(p) != []
    requires Suffix(Name(p)) == []
    ensures WithMdSuffix(p) == Some(p + MdSuffix)
  {
    var d, n := Directory(p), Name(p);
    assert Stem(n) == n;
    assert d + n == p by { DirectoryAndName(p); }
    assert d + (n + MdSuffix) == (d + n) + MdSuffix;
  }

  lemma JoinDroppingTail(d: string, n: string, s: string, k: nat)
    requires k <= |n| && s == n[..|n| - k]
    ensures d + (s + MdSuffix) == (d + n)[..|d + n| - k] + MdSuffix
  {
    assert d + (s + MdSuffix) == (d + s) + MdSuffix;
  }

  /**
   * When the last dot of the name starts its final `k` characters, `with_suffix(".md")`
   * replaces those characters by `.md`, unless the dot leads the name, when it appends `.md`.
   */
  lemma WithMdSuffixAtLastDot(p: Path, k: nat)
    requires 2 <= k <= |Name(p)|
    requires RFind(Name(p), '.') == |Name(p)| - k
    ensures |Name(p)| > k ==> WithMdSuffix(p) == Some(p[..|p| - k] + MdSuffix)
    ensures |Name(p)| == k ==> WithMdSuffix(p) == Some(p + MdSuffix)
  {
    SuffixFromLastDot(Name(p), k);
    if |Name(p)| > k {
      WithMdSuffixReplacesTail(p, k);
    } else {
      WithMdSuffixAppends(p);
    }
  }
}
