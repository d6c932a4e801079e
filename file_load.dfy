/** The load stage: reading a CSV file back and replacing a table of the hospital store. */
module FileLoad {
  import opened Wrappers
  import opened PyStr
  import opened PathLib
  import opened Environment

  /**
   * The first five calls of the chain: lower-case, then drop every `:`, `-`, `(` and `)`.
   * Only deletions follow the lowering, so the result is never longer than the name.
   */
  function StripPunctuation(name: string): (r: string)
    ensures |r| <= |name|
  {
    Replace(Replace(Replace(Replace(Lower(name), ":", ""), "-", ""), "(", ""), ")", "")
  }

  /**
   * The table name `write_to_sqlite` derives from a file stem: the whole `str` method
   * chain. No call's replacement is longer than its pattern, so the name never grows.
   */
  function SanitizeTableName(name: string): (r: string)
    ensures |r| <= |name|
  {
    Replace(Replace(Replace(StripPunctuation(name), " - ", " "), " ", "_"), "__", "_")
  }

  /**
   * `read_csv`: on success the stem of the path with the parsed table; a path that
   * does not exist or does not parse gives `None`.
   */
  function ReadCsv(files: Files, path: Path, parse: seq<byte> -> Option<Table>): (r: Option<(string, Table)>)
    ensures r.Some? <==> path in files && parse(files[path]).Some?
    ensures r.Some? ==> r.value.0 == Stem(path) && Some(r.value.1) == parse(files[path])
  {
    if path !in files then None
    else match parse(files[path])
      case None => None
      case Some(df) => Some((Stem(path), df))
  }

  /** The hospital store: one table of rows per name. */
  class HospitalDb {
    var tables: map<string, Table>

    constructor(initial: map<string, Table>)
      ensures tables == initial
    {
      tables := initial;
    }

    /** `df.to_sql(name, conn, if_exists="replace")`: the table under `name` is dropped and written anew. */
    method ToSqlReplace(name: string, df: Table)
      modifies this
      ensures tables == old(tables)[name := df]
    {
      tables := tables[name := df];
    }
  }

  /** `write_to_sqlite`: the whole table under the sanitised name becomes `df`; no other table changes. */
  method WriteToSqlite(tableName: string, df: Table, conn: HospitalDb)
    modifies conn
    ensures conn.tables == old(conn.tables)[SanitizeTableName(tableName) := df]
    ensures forall n :: n in old(conn.tables) && n != SanitizeTableName(tableName) ==>
      n in conn.tables && conn.tables[n] == old(conn.tables)[n]
  {
    var name := SanitizeTableName(tableName);
    conn.ToSqlReplace(name, df);
  }

  // ---- properties of the sanitisation ----

  /** After the first five calls no `:`, `-`, `(`, `)` or capital letter is left. */
  lemma StripPunctuationChars(name: string)
    ensures forall c :: c in StripPunctuation(name) ==> c != ':' && c != '-' && c != '(' && c != ')' && !IsAsciiUpper(c)
  {
    var l := Lower(name);
    var s1 := Replace(l, ":", "");
    var s2 := Replace(s1, "-", "");
    var s3 := Replace(s2, "(", "");
    var s4 := Replace(s3, ")", "");
    assert ":" == [':'] && "-" == ['-'] && "(" == ['('] && ")" == [')'];
    LowerHasNoUpper(name);
    ReplaceChars(l, ":", "");
    ReplaceChars(s1, "-", "");
    ReplaceChars(s2, "(", "");
    ReplaceChars(s3, ")", "");
    ReplaceRemovesChar(l, ':', "");
    ReplaceRemovesChar(s1, '-', "");
    ReplaceRemovesChar(s2, '(', "");
    ReplaceRemovesChar(s3, ')', "");
  }

  /** A character the first five calls leave alone. */
  predicate IsPlainChar(c: char) {
    c != ':' && c != '-' && c != '(' && c != ')' && !IsAsciiUpper(c)
  }

  /** A text of plain characters passes the first five calls unchanged. */
  lemma StripPunctuationKeepsPlain(name: string)
    requires forall i :: 0 <= i < |name| ==> IsPlainChar(name[i])
    ensures StripPunctuation(name) == name
  {
    LowerOfLower(name);
    ReplaceWithoutChar(name, ":", "", ':');
    ReplaceWithoutChar(name, "-", "", '-');
    ReplaceWithoutChar(name, "(", "", '(');
    ReplaceWithoutChar(name, ")", "", ')');
  }

  /** The `" - "` to `" "` call never fires: every `-` is gone one call earlier. */
  lemma DashSpaceStepIsNoop(name: string)
    ensures Replace(StripPunctuation(name), " - ", " ") == StripPunctuation(name)
  {
    StripPunctuationChars(name);
    ReplaceWithoutChar(StripPunctuation(name), " - ", " ", '-');
  }

  /** A sanitised name holds no `:`, `-`, `(`, `)`, blank or capital letter. */
  lemma SanitizedCharset(name: string)
    ensures var r := SanitizeTableName(name);
      forall c :: c in r ==> c != ':' && c != '-' && c != '(' && c != ')' && c != ' ' && !IsAsciiUpper(c)
  {
    var sp := StripPunctuation(name);
    var t1 := Replace(sp, " - ", " ");
    var t2 := Replace(t1, " ", "_");
    var r := Replace(t2, "__", "_");
    StripPunctuationChars(name);
    DashSpaceStepIsNoop(name);
    assert " " == [' '];
    ReplaceChars(t1, " ", "_");
    ReplaceRemovesChar(t1, ' ', "_");
    ReplaceChars(t2, "__", "_");
  }

  /** `k` underscores in a row. */
  function Underscores(k: nat): (r: string)
    ensures |r| == k && forall i :: 0 <= i < k ==> r[i] == '_'
  {
    seq(k, _ => '_')
  }

  lemma UnderscoresCons(m: nat)
    ensures Underscores(m + 1) == "_" + Underscores(m)
  {
  }

  /** A single `_` before a character other than `_` is kept. */
  lemma CollapseSingle(rest: string)
    requires rest == [] || rest[0] != '_'
    ensures Replace(Underscores(1) + rest, "__", "_") == Underscores(1) + Replace(rest, "__", "_")
  {
    var s := Underscores(1) + rest;
    assert Underscores(1) == "_";
    if rest != [] {
      assert s[..2] != "__" by {
        assert s[..2][1] == rest[0];
      }
      assert s[1..] == rest;
    } else {
      assert s == "_";
    }
  }

  /** A run of at least two underscores starts with a `"__"` match. */
  lemma LeadingPair(k: nat, rest: string)
    requires k >= 2
    ensures Replace(Underscores(k) + rest, "__", "_") == "_" + Replace(Underscores(k - 2) + rest, "__", "_")
  {
    var s := Underscores(k) + rest;
    assert s[..2] == "__";
    assert s[2..] == Underscores(k - 2) + rest;
  }

  /** A leading `"__"` of a run becomes one `_`: the run of `k` collapses one pair further than the run of `k - 2`. */
  lemma CollapsePair(k: nat, h: nat, rest: string)
    requires k >= 2
    requires Replace(Underscores(k - 2) + rest, "__", "_") == Underscores(h) + Replace(rest, "__", "_")
    ensures Replace(Underscores(k) + rest, "__", "_") == Underscores(h + 1) + Replace(rest, "__", "_")
  {
    LeadingPair(k, rest);
    UnderscoresCons(h);
    PrefixRegroup(Replace(Underscores(k) + rest, "__", "_"), Replace(Underscores(k - 2) + rest, "__", "_"),
      Underscores(h), Underscores(h + 1), Replace(rest, "__", "_"));
  }

  /** Regrouping `"_" + (u + t)` as `("_" + u) + t`. */
  lemma PrefixRegroup(a: string, b: string, u: string, v: string, t: string)
    requires a == "_" + b && b == u + t && v == "_" + u
    ensures a == v + t
  {
  }

  /**
   * The single `"__"` to `"_"` pass turns a maximal run of `k` underscores into
   * `ceil(k / 2)` of them, so that a run of three or more still holds `"__"`.
   */
  lemma {:induction false} CollapseRun(k: nat, rest: string)
    requires rest == [] || rest[0] != '_'
    ensures Replace(Underscores(k) + rest, "__", "_") == Underscores((k + 1) / 2) + Replace(rest, "__", "_")
    decreases k
  {
    if k == 0 {
      assert Underscores(k) + rest == rest;
    } else if k == 1 {
      CollapseSingle(rest);
    } else {
      CollapseRun(k - 2, rest);
      assert (k + 1) / 2 == (k - 1) / 2 + 1;
      CollapsePair(k, (k - 1) / 2, rest);
    }
  }

  /** The passes past the first five change nothing in a text without blanks and without `"__"`. */
  lemma NoDoubleUnderscoreUnchanged(s: string)
    requires forall i :: 0 <= i < |s| - 1 ==> !(s[i] == '_' && s[i + 1] == '_')
    ensures Replace(s, "__", "_") == s
  {
    forall i ensures !OccursAt(s, "__", i) {
      if 0 <= i && i + 2 <= |s| {
        var w := s[i..i + 2];
        assert w[0] == s[i] && w[1] == s[i + 1];
      }
    }
    ReplaceWithoutMatch(s, "__", "_");
  }

  predicate IsCleanTableChar(c: char) {
    'a' <= c <= 'z' || '0' <= c <= '9' || c == '_'
  }

  /** A name of lower-case letters, digits and non-adjacent single underscores is its own table name. */
  lemma SanitizeKeepsCleanNames(name: string)
    requires forall i :: 0 <= i < |name| ==> IsCleanTableChar(name[i])
    requires forall i :: 0 <= i < |name| - 1 ==> !(name[i] == '_' && name[i + 1] == '_')
    ensures SanitizeTableName(name) == name
  {
    StripPunctuationKeepsPlain(name);
    assert '-' !in name && ' ' !in name;
    ReplaceWithoutChar(name, " - ", " ", '-');
    ReplaceWithoutChar(name, " ", "_", ' ');
    NoDoubleUnderscoreUnchanged(name);
  }

  /** A file read back is named by its stem, so a raw file `t.csv` loads under the name `t`. */
  lemma ReadRawFileName(files: Files, rawDir: Path, title: string, parse: seq<byte> -> Option<Table>)
    requires title != [] && '/' !in title
    ensures var r := ReadCsv(files, Join(rawDir, title + ".csv"), parse);
      r.Some? ==> r.value.0 == title
  {
    StemOfCsvFile(rawDir, title);
  }

  // ---- worked examples, one call of the chain at a time ----

  lemma BlankRunStrip()
    ensures StripPunctuation("a   b") == "a   b"
  {
    StripPunctuationKeepsPlain("a   b");
  }

  lemma BlankRunToUnderscores() ensures Replace("a   b", " ", "_") == "a___b" { }
  lemma BlankRunCollapse()
    ensures Replace("a___b", "__", "_") == "a__b"
  {
    assert "a___b"[..2][0] == 'a';
    assert "a___b"[1..] == Underscores(3) + "b";
    CollapseRun(3, "b");
    assert Underscores(2) == "__";
    assert Replace("b", "__", "_") == "b";
  }

  /** Three blanks become three underscores, and the single pass leaves two of them. */
  lemma BlankRunExample()
    ensures SanitizeTableName("a   b") == "a__b"
  {
    BlankRunStrip();
    ReplaceWithoutChar("a   b", " - ", " ", '-');
    BlankRunToUnderscores();
    BlankRunCollapse();
  }

  lemma DashLower() ensures Lower("A - B") == "a - b" { }
  lemma DashRemove() ensures Replace("a - b", "-", "") == "a  b" { }
  lemma DashToUnderscores() ensures Replace("a  b", " ", "_") == "a__b" { }
  lemma DashCollapse() ensures Replace("a__b", "__", "_") == "a_b" { }

  lemma DashNoColon()
    ensures Replace("a - b", ":", "") == "a - b"
  {
    ReplaceWithoutChar("a - b", ":", "", ':');
  }

  lemma DashNoParens()
    ensures Replace(Replace("a  b", "(", ""), ")", "") == "a  b"
  {
    ReplaceWithoutChar("a  b", "(", "", '(');
    ReplaceWithoutChar("a  b", ")", "", ')');
  }

  lemma DashStrip()
    ensures StripPunctuation("A - B") == "a  b"
  {
    DashLower();
    DashNoColon();
    DashRemove();
    DashNoParens();
  }

  /** A `" - "` between two words ends as one underscore: the `-` goes, the two blanks collapse. */
  lemma DashExample()
    ensures SanitizeTableName("A - B") == "a_b"
  {
    DashStrip();
    ReplaceWithoutChar("a  b", " - ", " ", '-');
    DashToUnderscores();
    DashCollapse();
  }
}
