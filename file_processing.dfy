/** The transform stage: header normalisation of one raw CSV file. */
module FileProcessing {
  import opened Wrappers
  import opened Seqs
  import opened PyStr
  import opened PathLib
  import opened Environment

  /** The valid character set: ASCII letters, digits and `_`. */
  predicate IsValidColumnChar(c: char) {
    'a' <= c <= 'z' || 'A' <= c <= 'Z' || '0' <= c <= '9' || c == '_'
  }

  /** `"".join(filter(lambda char: char in valid_char_set, s))`. */
  function KeepValid(s: string): (r: string)
    ensures forall i :: 0 <= i < |r| ==> IsValidColumnChar(r[i])
    decreases |s|
  {
    if s == [] then []
    else if IsValidColumnChar(s[0]) then [s[0]] + KeepValid(s[1..])
    else KeepValid(s[1..])
  }

  /** The new name of column `col`: lower-cased, each space turned into `_`, other characters outside the valid set dropped. */
  function NormalizeColumn(col: string): (r: string)
    ensures forall i :: 0 <= i < |r| ==> IsValidColumnChar(r[i])
  {
    KeepValid(Replace(Lower(col), " ", "_"))
  }

  /** The `column_mapping` dict comprehension over `df.columns`. */
  function ColumnMapping(columns: seq<string>): (m: map<string, string>)
    ensures forall c :: c in m <==> c in columns
    ensures forall c :: c in columns ==> m[c] == NormalizeColumn(c)
  {
    map c | c in columns :: NormalizeColumn(c)
  }

  /** `df.rename(mapping)`: columns named in the mapping get their new name, in place. */
  function RenameColumns(df: Table, mapping: map<string, string>): (r: Table)
    ensures |r.header| == |df.header| && r.rows == df.rows
  {
    Table(seq(|df.header|, i requires 0 <= i < |df.header| =>
            if df.header[i] in mapping then mapping[df.header[i]] else df.header[i]), df.rows)
  }

  /** The frame after `df.rename(column_mapping)`. */
  function RenamedFrame(df: Table): Table {
    RenameColumns(df, ColumnMapping(df.header))
  }

  /** `transformed_directory / file_path.name`. */
  function TransformedPath(transformedDir: Path, filePath: Path): Path {
    Join(transformedDir, Name(filePath))
  }

  /**
   * `process_and_write_file` on a file system: read the raw file (a read that raises
   * is `TransformFailed`), rename its columns (two columns given the same new name
   * make polars raise `DuplicateError`), write the transformed file, and return the
   * raw path it was given.
   */
  function Transformed(files: Files, filePath: Path, transformedDir: Path, codec: CsvCodec): (Files, Result<Path, EtlError>) {
    if filePath !in files then (files, Failure(TransformFailed(filePath)))
    else match codec.parse(files[filePath])
      case None => (files, Failure(TransformFailed(filePath)))
      case Some(df) =>
        var renamed := RenamedFrame(df);
        if !Distinct(renamed.header) then (files, Failure(DuplicateColumns(filePath)))
        else (files[TransformedPath(transformedDir, filePath) := codec.render(renamed)], Success(filePath))
  }

  method ProcessAndWriteFile(disk: LocalDisk, filePath: Path, transformedDir: Path, codec: CsvCodec)
    returns (r: Result<Path, EtlError>)
    modifies disk
    ensures (disk.files, r) == Transformed(old(disk.files), filePath, transformedDir, codec)
  {
    if filePath !in disk.files {
      return Failure(TransformFailed(filePath));
    }
    var parsed := codec.parse(disk.files[filePath]);
    if parsed.None? {
      return Failure(TransformFailed(filePath));
    }
    var df := parsed.value;
    var columnMapping := ColumnMapping(df.header);
    df := RenameColumns(df, columnMapping);
    if !Distinct(df.header) {
      return Failure(DuplicateColumns(filePath));
    }
    var transformedPath := TransformedPath(transformedDir, filePath);
    disk.WriteFile(transformedPath, codec.render(df));
    return Success(filePath);
  }

  // ---- properties of the normalisation ----

  lemma {:induction false} KeepValidSubsequence(s: string)
    ensures IsSubsequence(KeepValid(s), s)
    decreases |s|
  {
    if s != [] {
      KeepValidSubsequence(s[1..]);
      if IsValidColumnChar(s[0]) {
        assert ([s[0]] + KeepValid(s[1..]))[1..] == KeepValid(s[1..]);
      }
    }
  }

  lemma KeepValidChars(s: string, c: char)
    requires c in KeepValid(s)
    ensures c in s
  {
    KeepValidSubsequence(s);
    SubsequenceMembers(KeepValid(s), s, c);
  }

  /** Normalised names hold no blank and no capital letter. */
  lemma NormalizedHasNoSpaceOrCapital(col: string)
    ensures ' ' !in NormalizeColumn(col)
    ensures forall i :: 0 <= i < |NormalizeColumn(col)| ==> !IsAsciiUpper(NormalizeColumn(col)[i])
  {
    var lowered := Lower(col);
    var replaced := Replace(lowered, " ", "_");
    forall i | 0 <= i < |NormalizeColumn(col)| ensures !IsAsciiUpper(NormalizeColumn(col)[i]) {
      var c := NormalizeColumn(col)[i];
      KeepValidChars(replaced, c);
      ReplaceChars(lowered, " ", "_");
      assert c in lowered || c in "_";
    }
  }

  lemma {:induction false} KeepValidCountsUnderscores(s: string)
    ensures Count(KeepValid(s), '_') == Count(s, '_')
    decreases |s|
  {
    if s != [] {
      KeepValidCountsUnderscores(s[1..]);
      if IsValidColumnChar(s[0]) {
        CountConcat([s[0]], KeepValid(s[1..]), '_');
      }
    }
  }

  /** Every blank becomes an underscore rather than being dropped: `_` count = blanks + underscores of the input. */
  lemma SpacesBecomeUnderscores(col: string)
    ensures Count(NormalizeColumn(col), '_') == Count(col, ' ') + Count(col, '_')
  {
    var lowered := Lower(col);
    LowerKeepsCount(col, ' ');
    LowerKeepsCount(col, '_');
    ReplaceCharCount(lowered, ' ', '_');
    assert " " == [' '] && "_" == ['_'];
    KeepValidCountsUnderscores(Replace(lowered, " ", "_"));
  }

  /** The name is what is left of the lowered, blank-to-underscore input after deletions only. */
  lemma NormalizedIsSubsequence(col: string)
    ensures IsSubsequence(NormalizeColumn(col), Replace(Lower(col), " ", "_"))
    ensures |NormalizeColumn(col)| <= |col|
  {
    var replaced := Replace(Lower(col), " ", "_");
    KeepValidSubsequence(replaced);
    SubsequenceLength(NormalizeColumn(col), replaced);
  }

  lemma {:induction false} KeepValidConcat(a: string, b: string)
    ensures KeepValid(a + b) == KeepValid(a) + KeepValid(b)
    decreases |a|
  {
    if a == [] {
      assert a + b == b;
    } else {
      assert (a + b)[1..] == a[1..] + b;
      KeepValidConcat(a[1..], b);
    }
  }

  lemma {:induction false} KeepValidOfValid(s: string)
    requires forall i :: 0 <= i < |s| ==> IsValidColumnChar(s[i])
    ensures KeepValid(s) == s
    decreases |s|
  {
    if s != [] {
      KeepValidOfValid(s[1..]);
      assert [s[0]] + s[1..] == s;
    }
  }

  /** Normalising a normalised name changes nothing. */
  lemma NormalizeIdempotent(col: string)
    ensures NormalizeColumn(NormalizeColumn(col)) == NormalizeColumn(col)
  {
    var n := NormalizeColumn(col);
    NormalizedHasNoSpaceOrCapital(col);
    LowerOfLower(n);
    ReplaceWithoutChar(n, " ", "_", ' ');
    KeepValidOfValid(n);
  }

  /** One key per input column: distinct column names give a mapping of exactly that size. */
  lemma MappingHasOneKeyPerColumn(columns: seq<string>)
    requires Distinct(columns)
    ensures ColumnMapping(columns).Keys == set c | c in columns
    ensures |ColumnMapping(columns)| == |columns|
  {
    DistinctCardinality(columns);
  }

  /** The transformed header is the raw header with every name normalised, position by position. */
  lemma RenamedHeader(df: Table)
    ensures var h := RenameColumns(df, ColumnMapping(df.header)).header;
      |h| == |df.header| && forall i :: 0 <= i < |h| ==> h[i] == NormalizeColumn(df.header[i])
  {
  }

  /**
   * A transform gets through exactly when the raw file exists, polars parses it and
   * the normalised names are pairwise different; it then writes the rendered, renamed
   * frame to the transformed path and nothing else. A failure leaves the disk as it was.
   */
  lemma TransformedSpec(files: Files, filePath: Path, transformedDir: Path, codec: CsvCodec)
    ensures Transformed(files, filePath, transformedDir, codec).1.Success? <==>
      (filePath in files && codec.parse(files[filePath]).Some? &&
       Distinct(RenamedFrame(codec.parse(files[filePath]).value).header))
    ensures Transformed(files, filePath, transformedDir, codec).1.Success? ==>
      Transformed(files, filePath, transformedDir, codec).0 ==
        files[TransformedPath(transformedDir, filePath) := codec.render(RenamedFrame(codec.parse(files[filePath]).value))]
    ensures Transformed(files, filePath, transformedDir, codec).1.Failure? ==>
      Transformed(files, filePath, transformedDir, codec).0 == files
  {
  }

  /**
   * `"A B"` and `"a_b"` both normalise to `a_b`, so a file with those two columns
   * makes the rename raise and nothing is written.
   */
  lemma CollidingHeaderFails(files: Files, filePath: Path, transformedDir: Path, codec: CsvCodec, rows: seq<seq<string>>)
    requires filePath in files && codec.parse(files[filePath]) == Some(Table(["A B", "a_b"], rows))
    ensures Transformed(files, filePath, transformedDir, codec) == (files, Failure(DuplicateColumns(filePath)))
  {
    var df := Table(["A B", "a_b"], rows);
    var h := RenamedFrame(df).header;
    ABNormalized();
    ABUnderscoreNormalized();
    assert h[0] == "a_b" && h[1] == "a_b";
  }

  /** A transform that gets through returns the raw path it was given. */
  lemma TransformReturnsInput(files: Files, filePath: Path, transformedDir: Path, codec: CsvCodec)
    ensures Transformed(files, filePath, transformedDir, codec).1.Success? ==>
      Transformed(files, filePath, transformedDir, codec).1.value == filePath
  {
  }

  /** The transformed file keeps the raw file's base name. */
  lemma TransformKeepsName(filePath: Path, transformedDir: Path)
    ensures Name(filePath) != [] && Name(filePath) != "." ==>
      Name(TransformedPath(transformedDir, filePath)) == Name(filePath)
  {
  }

  /** Normalisation works character by character, so it distributes over concatenation. */
  lemma NormalizeConcat(a: string, b: string)
    ensures NormalizeColumn(a + b) == NormalizeColumn(a) + NormalizeColumn(b)
  {
    LowerConcat(a, b);
    assert " " == [' '] && "_" == ['_'];
    ReplaceCharConcat(Lower(a), Lower(b), ' ', "_");
    KeepValidConcat(Replace(Lower(a), " ", "_"), Replace(Lower(b), " ", "_"));
  }

  /** A trailing blank is kept, as a trailing underscore. */
  lemma TrailingBlankKept(col: string)
    ensures NormalizeColumn(col + " ") == NormalizeColumn(col) + "_"
  {
    NormalizeConcat(col, " ");
    BlankPiece();
  }

  /** Three pieces normalised one by one give the normalisation of the whole. */
  lemma NormalizeThree(a: string, b: string, c: string, na: string, nb: string, nc: string)
    requires NormalizeColumn(a) == na && NormalizeColumn(b) == nb && NormalizeColumn(c) == nc
    ensures NormalizeColumn(a + b + c) == na + nb + nc
  {
    NormalizeConcat(a, b);
    NormalizeConcat(a + b, c);
  }

  // ---- worked examples, assembled from short pieces ----

  lemma UpperAPiece() ensures NormalizeColumn("A") == "a" { }
  lemma LowerAPiece() ensures NormalizeColumn("a") == "a" { }
  lemma UnderscorePiece() ensures NormalizeColumn("_") == "_" { }
  lemma UpperBPiece() ensures NormalizeColumn("B") == "b" { }
  lemma LowerBPiece() ensures NormalizeColumn("b") == "b" { }

  lemma ABNormalized()
    ensures NormalizeColumn("A B") == "a_b"
  {
    UpperAPiece();
    BlankPiece();
    UpperBPiece();
    assert "A" + " " + "B" == "A B" && "a" + "_" + "b" == "a_b";
    NormalizeThree("A", " ", "B", "a", "_", "b");
  }

  lemma ABUnderscoreNormalized()
    ensures NormalizeColumn("a_b") == "a_b"
  {
    LowerAPiece();
    UnderscorePiece();
    LowerBPiece();
    assert "a" + "_" + "b" == "a_b";
    NormalizeThree("a", "_", "b", "a", "_", "b");
  }

  lemma FaciPiece() ensures NormalizeColumn("Faci") == "faci" { }
  lemma LityPiece() ensures NormalizeColumn("lity") == "lity" { }
  lemma BlankPiece() ensures NormalizeColumn(" ") == "_" { }
  lemma IdLetters() ensures NormalizeColumn("ID") == "id" { }
  lemma IdPiece()
    ensures NormalizeColumn(" ID ") == "_id_"
  {
    BlankPiece();
    IdLetters();
    assert " " + "ID" + " " == " ID " && "_" + "id" + "_" == "_id_";
    NormalizeThree(" ", "ID", " ", "_", "id", "_");
  }
  lemma FacilityIdPieces()
    ensures "Faci" + "lity" + " ID " == "Facility ID "
    ensures "faci" + "lity" + "_id_" == "facility_id_"
  {
  }

  /** A trailing blank becomes a trailing underscore: `"Facility ID "` gives `"facility_id_"`. */
  lemma FacilityIdExample()
    ensures NormalizeColumn("Facility ID ") == "facility_id_"
  {
    FaciPiece();
    LityPiece();
    IdPiece();
    FacilityIdPieces();
    NormalizeThree("Faci", "lity", " ID ", "faci", "lity", "_id_");
  }

  lemma HospPiece() ensures NormalizeColumn("Hosp") == "hosp" { }
  lemma ItalPiece() ensures NormalizeColumn("ital") == "ital" { }
  lemma OveLetters() ensures NormalizeColumn("Ove") == "ove" { }
  lemma OvePiece()
    ensures NormalizeColumn(" Ove") == "_ove"
  {
    BlankPiece();
    OveLetters();
    assert " " + "Ove" == " Ove" && "_" + "ove" == "_ove";
    NormalizeConcat(" ", "Ove");
  }
  lemma RallPiece() ensures NormalizeColumn("rall") == "rall" { }
  lemma RatLetters() ensures NormalizeColumn("Rat") == "rat" { }
  lemma RatPiece()
    ensures NormalizeColumn(" Rat") == "_rat"
  {
    BlankPiece();
    RatLetters();
    assert " " + "Rat" == " Rat" && "_" + "rat" == "_rat";
    NormalizeConcat(" ", "Rat");
  }
  lemma IngPiece() ensures NormalizeColumn("ing!") == "ing" { }
  lemma OverallRatingPieces()
    ensures "Hosp" + "ital" + " Ove" == "Hospital Ove"
    ensures "rall" + " Rat" + "ing!" == "rall Rating!"
    ensures "Hospital Ove" + "rall Rating!" == "Hospital Overall Rating!"
    ensures "hosp" + "ital" + "_ove" == "hospital_ove"
    ensures "rall" + "_rat" + "ing" == "rall_rating"
    ensures "hospital_ove" + "rall_rating" == "hospital_overall_rating"
  {
  }

  /** Blanks become underscores and the `!` outside the valid set is dropped. */
  lemma OverallRatingExample()
    ensures NormalizeColumn("Hospital Overall Rating!") == "hospital_overall_rating"
  {
    HospPiece();
    ItalPiece();
    OvePiece();
    RallPiece();
    RatPiece();
    IngPiece();
    OverallRatingPieces();
    NormalizeThree("Hosp", "ital", " Ove", "hosp", "ital", "_ove");
    NormalizeThree("rall", " Rat", "ing!", "rall", "_rat", "ing");
    NormalizeConcat("Hospital Ove", "rall Rating!");
  }
}
