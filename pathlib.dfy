/**
 * The parts of `pathlib.PurePosixPath` the pipeline relies on. A path is kept as
 * its text; `Name` is the text after the last `/`, which is what `.name` returns
 * for every path the pipeline builds: a directory joined with a name ending in `.csv`.
 */
module PathLib {

  type Path = string

  /** `str.rfind(c)`: the last index holding `c`, or -1. */
  function LastIndexOf(s: string, c: char): (i: int)
    ensures -1 <= i < |s|
    ensures i >= 0 ==> s[i] == c
    ensures forall k :: i < k < |s| ==> s[k] != c
    decreases |s|
  {
    if s == [] then -1
    else if s[|s| - 1] == c then |s| - 1
    else LastIndexOf(s[..|s| - 1], c)
  }

  lemma AfterLastIndex(s: string, c: char, i: int)
    requires i == LastIndexOf(s, c)
    ensures c !in s[i + 1..]
  {
    var t := s[i + 1..];
    forall k | 0 <= k < |t| ensures t[k] != c {
      assert t[k] == s[i + 1 + k];
    }
  }

  /**
   * `dir / s` on the text of the path: an absolute `s` replaces the directory. A name
   * that is neither empty nor `.` and holds no `/` is the `.name` of the result.
   */
  function Join(dir: Path, s: string): (p: Path)
    ensures '/' !in s && s != [] && s != "." ==> Name(p) == s
  {
    if s != [] && s[0] == '/' then s
    else
      var p := dir + "/" + s;
      assert '/' !in s ==> LastIndexOf(p, '/') == |dir| by {
        assert p[|dir|] == '/';
        assert forall k :: |dir| < k < |p| ==> p[k] == s[k - |dir| - 1];
      }
      assert p[|dir| + 1..] == s;
      p
  }

  /** `p.name`: the final piece of the text, after its last `/`. */
  function Name(p: Path): (n: string)
    ensures '/' !in n
  {
    var i := LastIndexOf(p, '/');
    AfterLastIndex(p, '/', i);
    p[i + 1..]
  }

  /**
   * Where the name splits into stem and suffix: at its last `.`, unless that dot
   * leads or ends the name, in which case there is no suffix.
   */
  function DotSplit(n: string): (i: nat)
    ensures i <= |n|
    ensures i == |n| || (0 < i < |n| - 1 && n[i] == '.' && '.' !in n[i + 1..])
  {
    var j := LastIndexOf(n, '.');
    AfterLastIndex(n, '.', j);
    if 0 < j < |n| - 1 then j else |n|
  }

  /**
   * `p.stem`: the final component without its last suffix; a leading or trailing dot
   * is no suffix.
   */
  function Stem(p: Path): (st: string)
  {
    var n := Name(p);
    n[..DotSplit(n)]
  }

  /**
   * `p.suffix`: the last suffix of the final component, dot included, or `""`. The
   * stem and the suffix together make up the name.
   */
  function Suffix(p: Path): (x: string)
    ensures Stem(p) + x == Name(p)
  {
    var n := Name(p);
    var i := DotSplit(n);
    assert n[..i] + n[i..] == n;
    n[i..]
  }

  /** The text after the last `.`, for a text that ends in `.csv`. */
  lemma LastDotOfCsv(t: string)
    ensures LastIndexOf(t + ".csv", '.') == |t|
  {
    var n := t + ".csv";
    assert n[|t|] == '.' && n[|t| + 1] == 'c' && n[|t| + 2] == 's' && n[|t| + 3] == 'v';
  }

  /** A stem never holds a `/`. */
  lemma StemHasNoSlash(p: Path)
    ensures '/' !in Stem(p)
  {
    var n := Name(p);
    var st := Stem(p);
    forall k | 0 <= k < |st| ensures st[k] != '/' {
      assert st[k] == n[k];
    }
  }

  lemma CsvNameHasNoSlash(t: string)
    requires '/' !in t
    ensures '/' !in t + ".csv"
  {
    var n := t + ".csv";
    forall k | 0 <= k < |n| ensures n[k] != '/' {
      if k < |t| {
        assert n[k] == t[k];
      } else {
        assert n[k] == ".csv"[k - |t|];
      }
    }
  }

  /**
   * For `dir / (t + ".csv")` the stem gives `t` back exactly when `t` is a non-empty
   * text without `/`; the suffix is then `.csv`.
   */
  lemma StemOfCsvFile(dir: Path, t: string)
    ensures Stem(Join(dir, t + ".csv")) == t <==> t != [] && '/' !in t
    ensures t != [] && '/' !in t ==> Suffix(Join(dir, t + ".csv")) == ".csv"
  {
    var n := t + ".csv";
    if '/' !in t {
      CsvNameHasNoSlash(t);
      LastDotOfCsv(t);
      assert n[..|t|] == t;
      assert n[|t|..] == ".csv";
    } else {
      StemHasNoSlash(Join(dir, n));
    }
  }

  /** An empty title gives the file `.csv`, whose stem is `.csv` and whose suffix is empty. */
  lemma EmptyTitleFile(dir: Path)
    ensures Stem(Join(dir, ".csv")) == ".csv"
    ensures Suffix(Join(dir, ".csv")) == ""
  {
    var n := ".csv";
    assert "" + n == n;
    CsvNameHasNoSlash("");
    assert Name(Join(dir, n)) == n;
    LastDotOfCsv("");
    assert DotSplit(n) == |n|;
    assert n[..|n|] == n && n[|n|..] == "";
  }
}
