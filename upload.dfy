/** The upload middleware's own logic: the file filter that admits PDF
    documents only, the temporary file name, and the configured limits. The
    extension is Node's `path.extname`: the part of the last path segment from
    its last ".", empty when there is no dot, when the segment's last "." is
    its first character, or when the segment is "..". */
module Upload {
  import opened Results
  import opened Strings

  const PdfExtension := ".pdf"
  const InvalidFileType := "Invalid file type. Only PDF files are allowed."
  /** Where temporary files are written. */
  const Destination := "uploads/"
  /** `limits.fileSize`: 25 MiB per file. */
  const MaxFileSize: nat := 25 * 1024 * 1024
  /** The one accepted field and its `maxCount`. */
  const FieldName := "files"
  const MaxCount: nat := 20

  /** The index of the last `c` in `s`, or None when `c` does not occur. */
  function LastIndex(s: string, c: char): (r: Option<nat>)
    ensures r.None? <==> c !in s
    ensures r.Some? ==> r.value < |s| && s[r.value] == c && c !in s[r.value + 1..]
  {
    if |s| == 0 then None
    else if s[|s| - 1] == c then Some(|s| - 1)
    else
      var r := LastIndex(s[..|s| - 1], c);
      assert s == s[..|s| - 1] + [s[|s| - 1]];
      if r.Some? then assert s[r.value + 1..] == s[..|s| - 1][r.value + 1..] + [s[|s| - 1]]; r
      else r
  }

  /** The path without its trailing "/" characters. */
  function TrimSlashes(path: string): (r: string)
    ensures IsPrefix(r, path) && (r == "" || r[|r| - 1] != '/')
  {
    if path != [] && path[|path| - 1] == '/' then TrimSlashes(path[..|path| - 1]) else path
  }

  /** The last segment of a path, trailing slashes ignored. */
  function BaseName(path: string): (b: string)
    ensures '/' !in b
  {
    var t := TrimSlashes(path);
    match LastIndex(t, '/')
    case None => t
    case Some(i) => t[i + 1..]
  }

  /** `path.extname`: the last segment from its last "." on; empty when the
      segment has no ".", when its last "." is its first character, or when it
      is "..". */
  function ExtName(path: string): (ext: string)
    ensures var b := BaseName(path);
      var dot := LastIndex(b, '.');
      && (ext == "" <==> dot.None? || dot == Some(0) || b == "..")
      && (ext != "" ==> ext == b[dot.value..])
    ensures ext == "" || (ext[0] == '.' && '.' !in ext[1..] && '/' !in ext)
  {
    var b := BaseName(path);
    match LastIndex(b, '.')
    case None => ""
    case Some(i) =>
      if i == 0 || b == ".." then ""
      else
        assert b[i..][1..] == b[i + 1..];
        b[i..]
  }

  /** What the filter reports to its callback. */
  datatype Verdict = Accept | Reject(error: string)

  /** `fileFilter`: admit the file exactly when its lower-cased extension is
      ".pdf"; otherwise reject it with the invalid-type error. */
  function FileFilter(originalname: string): (v: Verdict)
    ensures v.Accept? <==> Lower(ExtName(originalname)) == PdfExtension
    ensures v.Reject? ==> v.error == InvalidFileType
  {
    var extension := Lower(ExtName(originalname));
    if extension in [PdfExtension] then Accept else Reject(InvalidFileType)
  }

  /** The filter judges the name's last segment alone: it is admitted exactly
      when that segment is longer than four characters and ends, ignoring
      ASCII case, in ".pdf". So only the last extension counts, and a name that
      is nothing but ".pdf" is turned away. */
  lemma FilterAcceptsPdfNames(originalname: string)
    ensures var b := BaseName(originalname);
      FileFilter(originalname).Accept? <==> |b| > 4 && Lower(b[|b| - 4..]) == PdfExtension
  {
    var b := BaseName(originalname);
    var ext := ExtName(originalname);
    if Lower(ext) == PdfExtension {
      var i := LastIndex(b, '.').value;
      assert ext == b[i..];
      assert |ext| == 4;
      assert b[|b| - 4..] == ext;
    }
    if |b| > 4 && Lower(b[|b| - 4..]) == PdfExtension {
      var tail := b[|b| - 4..];
      assert LowerChar(tail[0]) == '.' && tail[0] == b[|b| - 4];
      assert forall k :: |b| - 3 <= k < |b| ==> LowerChar(b[k]) == PdfExtension[k - |b| + 4];
      assert '.' !in b[|b| - 3..];
      assert LastIndex(b, '.') == Some(|b| - 4) by {
        LastDotAt(b, |b| - 4);
      }
      assert ext == tail;
    }
  }

  /** The last "." of a string is at `i` when `s[i]` is one and none follows. */
  lemma {:induction false} LastDotAt(s: string, i: nat)
    requires i < |s| && s[i] == '.' && '.' !in s[i + 1..]
    ensures LastIndex(s, '.') == Some(i)
    decreases |s|
  {
    if i < |s| - 1 {
      assert s[|s| - 1] == s[i + 1..][|s| - 1 - (i + 1)];
      assert s[..|s| - 1][i + 1..] == s[i + 1..|s| - 1];
      LastDotAt(s[..|s| - 1], i);
    }
  }

  /** The extension of a "/"-free name whose last "." is at `i > 0`. */
  lemma ExtensionAt(name: string, i: nat)
    requires '/' !in name && name != ".." && 0 < i < |name| && name[i] == '.' && '.' !in name[i + 1..]
    ensures ExtName(name) == name[i..]
  {
    NoSlashBase(name);
    LastDotAt(name, i);
  }

  /** Case does not matter and only the last extension counts: a name that
      ends in ".pdf" or ".PDF" is admitted whatever precedes it, so
      "Report.PDF" and "a.txt.pdf" are. */
  lemma FilterAcceptsPdfSuffix(stem: string)
    requires stem != "" && '/' !in stem
    ensures FileFilter(stem + ".pdf") == Accept
    ensures FileFilter(stem + ".PDF") == Accept
  {
    PdfSpellings();
    AcceptedSuffix(stem, ".pdf");
    AcceptedSuffix(stem, ".PDF");
  }

  /** Both spellings lower-case to the accepted extension. */
  lemma PdfSpellings()
    ensures Lower(".pdf") == PdfExtension && Lower(".PDF") == PdfExtension
  {
    var l := Lower(".pdf");
    assert l[0] == '.' && l[1] == 'p' && l[2] == 'd' && l[3] == 'f';
    var u := Lower(".PDF");
    assert u[0] == '.' && u[1] == 'p' && u[2] == 'd' && u[3] == 'f';
  }

  /** A four-character suffix that lower-cases to ".pdf" admits any non-empty
      "/"-free stem. */
  lemma AcceptedSuffix(stem: string, ext: string)
    requires stem != "" && '/' !in stem && |ext| == 4 && '/' !in ext && Lower(ext) == PdfExtension
    ensures FileFilter(stem + ext) == Accept
  {
    SuffixOfName(stem, ext);
    FilterAcceptsPdfNames(stem + ext);
  }

  /** A name whose last extension is another one is turned away even when
      ".pdf" comes earlier, as in "a.pdf.txt". */
  lemma FilterRejectsTxtSuffix(stem: string)
    requires '/' !in stem
    ensures FileFilter(stem + ".txt") == Reject(InvalidFileType)
  {
    assert Lower(".txt")[1] == 't';
    SuffixOfName(stem, ".txt");
  }

  /** Names of at most four characters are turned away: "pdf" has no
      extension and the dot-file ".pdf" has none either. */
  lemma FilterRejectsShortNames(name: string)
    requires '/' !in name && |name| <= 4
    ensures FileFilter(name) == Reject(InvalidFileType)
  {
    NoSlashBase(name);
    FilterAcceptsPdfNames(name);
  }

  /** The last four characters of a "/"-free name `stem + ext` are `ext`, and
      the name is its own last segment. */
  lemma SuffixOfName(stem: string, ext: string)
    requires '/' !in stem && |ext| == 4 && '/' !in ext
    ensures var b := BaseName(stem + ext);
      b == stem + ext && b[|b| - 4..] == ext
  {
    var name := stem + ext;
    assert '/' !in name by {
      assert forall k :: 0 <= k < |name| ==> name[k] == if k < |stem| then stem[k] else ext[k - |stem|];
    }
    NoSlashBase(name);
    FilterAcceptsPdfNames(name);
    assert name[|name| - 4..] == ext;
  }

  /** The `filename` callback: field name, "-", the upload time in
      milliseconds, and the original extension. */
  function TempFilename(fieldname: string, now: nat, originalname: string): (r: string)
    ensures var ext := ExtName(originalname);
      && IsPrefix(fieldname + "-", r)
      && |r| > |fieldname| + 1 + |ext|
      && r[|r| - |ext|..] == ext
      && r[|fieldname| + 1..|r| - |ext|] == Decimal(now)
      && DigitsValue(r[|fieldname| + 1..|r| - |ext|]) == now
      && forall i :: |fieldname| + 1 <= i < |r| - |ext| ==> IsDigit(r[i])
  {
    var digits := Decimal(now);
    var ext := ExtName(originalname);
    ThreeParts(fieldname + "-", digits, ext);
    DecimalValue(now);
    var r := fieldname + "-" + digits + ext;
    assert r[|fieldname| + 1..|r| - |ext|] == digits;
    r
  }

  /** Uploads of the same file under the same field at two different times get
      different temporary names. */
  lemma TempFilenameDistinct(fieldname: string, now1: nat, now2: nat, originalname: string)
    requires now1 != now2
    ensures TempFilename(fieldname, now1, originalname) != TempFilename(fieldname, now2, originalname)
  {
    DecimalInjective(now1, now2);
  }

  /** Where the three parts of a concatenation sit in it. */
  lemma ThreeParts(a: string, b: string, c: string)
    ensures var r := a + b + c;
      && IsPrefix(a, r)
      && r[|r| - |c|..] == c
      && forall i :: |a| <= i < |r| - |c| ==> r[i] == b[i - |a|]
  {
    var r := a + b + c;
    assert r[..|a|] == a;
    assert r[|r| - |c|..] == c;
  }

  /** The temporary name keeps the original extension, so the temporary copy of
      an admitted file is itself a PDF name. */
  lemma {:induction false} TempFilenameKeepsExtension(fieldname: string, now: nat, originalname: string)
    requires '/' !in fieldname && ExtName(originalname) != ""
    ensures ExtName(TempFilename(fieldname, now, originalname)) == ExtName(originalname)
  {
    var stem := fieldname + "-" + Decimal(now);
    StemAvoids(fieldname, now, '/');
    assert stem[|fieldname|] == '-';
    ExtensionAfterStem(stem, ExtName(originalname));
  }

  /** An extension appended to a non-empty "/"-free stem is the extension of the result. */
  lemma ExtensionAfterStem(stem: string, ext: string)
    requires stem != "" && stem != "." && '/' !in stem
    requires ext != "" && ext[0] == '.' && '.' !in ext[1..] && '/' !in ext
    ensures ExtName(stem + ext) == ext
  {
    var name := stem + ext;
    assert '/' !in name by {
      assert forall k :: 0 <= k < |name| ==> name[k] == if k < |stem| then stem[k] else ext[k - |stem|];
    }
    assert name[|stem| + 1..] == ext[1..];
    assert name[..|stem|] == stem;
    assert |name| == 2 ==> name[..1] == stem;
    ExtensionAt(name, |stem|);
    assert name[|stem|..] == ext;
  }

  /** A field name without "." adds no extension of its own: a name without
      extension gives a temporary name without one. */
  lemma {:induction false} TempFilenameAddsNoExtension(fieldname: string, now: nat, originalname: string)
    requires '/' !in fieldname && '.' !in fieldname && ExtName(originalname) == ""
    ensures ExtName(TempFilename(fieldname, now, originalname)) == ""
  {
    var stem := fieldname + "-" + Decimal(now);
    assert TempFilename(fieldname, now, originalname) == stem;
    StemAvoids(fieldname, now, '/');
    StemAvoids(fieldname, now, '.');
    NoSlashBase(stem);
  }

  /** A character that is neither "-" nor a digit is in the stem of a
      temporary name only when it is in the field name. */
  lemma StemAvoids(fieldname: string, now: nat, c: char)
    requires c !in fieldname && c != '-' && !IsDigit(c)
    ensures c !in fieldname + "-" + Decimal(now)
  {
    var digits := Decimal(now);
    assert forall k :: 0 <= k < |digits| ==> digits[k] != c;
  }

  /** A name without "/" is its own last segment. */
  lemma NoSlashBase(name: string)
    requires '/' !in name
    ensures BaseName(name) == name
  {
    assert name == [] || name[|name| - 1] in name;
  }
}
