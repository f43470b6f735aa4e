/** The extension classifier: a fixed, ordered table of categories and the
    extensions each one claims, and `get_category`, which lower-cases a
    name's last suffix and returns the first category whose list holds it,
    or "Other" when none does. */
module Categories {
  import opened PathNames

  /** One row of the table: a category name and its extensions (lower case, leading dot). */
  datatype Rule = Rule(category: string, extensions: seq<string>)

  /** The fallback category; it is not a row of the table. */
  const Other: string := "Other"

  /** `FILE_CATEGORIES`, in its declaration order (a Python dict keeps insertion order). */
  function FileCategories(): seq<Rule> {
    [
      Rule("3D_Models", ModelExtensions()),
      Rule("Images", ImageExtensions()),
      Rule("Documents", DocumentExtensions()),
      Rule("Spreadsheets", SpreadsheetExtensions()),
      Rule("Archives", ArchiveExtensions()),
      Rule("Videos", VideoExtensions()),
      Rule("Audio", AudioExtensions()),
      Rule("Code", CodeExtensions()),
      Rule("Installers", InstallerExtensions())
    ]
  }

  function ModelExtensions(): seq<string> {
    [".stl", ".obj", ".3mf", ".amf", ".gcode"]
  }

  function ImageExtensions(): seq<string> {
    [".jpg", ".jpeg", ".png", ".gif", ".bmp", ".svg", ".webp", ".ico"]
  }

  function DocumentExtensions(): seq<string> {
    [".pdf", ".doc", ".docx", ".txt", ".odt", ".rtf", ".md"]
  }

  function SpreadsheetExtensions(): seq<string> {
    [".xls", ".xlsx", ".csv", ".ods"]
  }

  function ArchiveExtensions(): seq<string> {
    [".zip", ".tar", ".gz", ".bz2", ".7z", ".rar", ".xz"]
  }

  function VideoExtensions(): seq<string> {
    [".mp4", ".avi", ".mkv", ".mov", ".wmv", ".flv", ".webm"]
  }

  function AudioExtensions(): seq<string> {
    [".mp3", ".wav", ".flac", ".aac", ".ogg", ".m4a"]
  }

  function CodeExtensions(): seq<string> {
    [".py", ".js", ".html", ".css", ".java", ".cpp", ".c", ".sh", ".json", ".xml"]
  }

  function InstallerExtensions(): seq<string> {
    [".exe", ".dmg", ".deb", ".rpm", ".appimage", ".msi"]
  }

  /** `str.lower()` on one character, for the characters whose lower case
      is an ASCII character: the letters A-Z and the KELVIN SIGN (U+212A),
      which lowers to 'k'. Every other character is kept as it is. */
  function LowerChar(c: char): char {
    if 'A' <= c <= 'Z' then (c as int + 32) as char
    else if c == '\U{212A}' then 'k'
    else c
  }

  /** `str.lower()`, character by character. */
  function Lower(s: string): (r: string)
    ensures |r| == |s|
    ensures forall i :: 0 <= i < |s| ==> r[i] == LowerChar(s[i])
  {
    if s == [] then [] else [LowerChar(s[0])] + Lower(s[1..])
  }

  /** The loop of `get_category`: the first row, in table order, whose
      extension list holds `ext`; "Other" when no row does. */
  function Classify(table: seq<Rule>, ext: string): string {
    if table == [] then Other
    else if ext in table[0].extensions then table[0].category
    else Classify(table[1..], ext)
  }

  /** `get_category(file_path)`. */
  function GetCategory(name: string): string {
    Classify(FileCategories(), Lower(Suffix(name)))
  }

  /** A name `main` accepts for `--categories`: a table key or "Other". */
  predicate IsCategoryName(c: string) {
    c == Other || exists i :: 0 <= i < |FileCategories()| && FileCategories()[i].category == c
  }

  /** First match wins: when row i is the first row listing `ext`,
      classification returns row i's category, whatever later rows say. */
  lemma {:induction false} ClassifyFirstMatch(table: seq<Rule>, ext: string, i: nat)
    requires i < |table| && ext in table[i].extensions
    requires forall j :: 0 <= j < i ==> ext !in table[j].extensions
    ensures Classify(table, ext) == table[i].category
  {
    if i > 0 {
      ClassifyFirstMatch(table[1..], ext, i - 1);
    }
  }

  /** When no row lists `ext`, the result is the fallback. */
  lemma {:induction false} ClassifyNoMatch(table: seq<Rule>, ext: string)
    requires forall j :: 0 <= j < |table| ==> ext !in table[j].extensions
    ensures Classify(table, ext) == Other
  {
    if table != [] {
      ClassifyNoMatch(table[1..], ext);
    }
  }

  /** Classification is total: it always yields a row's category or the fallback,
      and when the fallback is not itself a row's name, it yields the fallback
      exactly when no row lists `ext`. */
  lemma {:induction false} ClassifyTotal(table: seq<Rule>, ext: string)
    ensures Classify(table, ext) == Other
         || exists i :: 0 <= i < |table| && ext in table[i].extensions && Classify(table, ext) == table[i].category
    ensures (forall j :: 0 <= j < |table| ==> table[j].category != Other) ==>
              (Classify(table, ext) == Other <==> forall j :: 0 <= j < |table| ==> ext !in table[j].extensions)
  {
    if table != [] && ext !in table[0].extensions {
      ClassifyTotal(table[1..], ext);
      var c := Classify(table[1..], ext);
      if c != Other {
        var i :| 0 <= i < |table[1..]| && ext in table[1..][i].extensions && c == table[1..][i].category;
        assert ext in table[i + 1].extensions && c == table[i + 1].category;
      }
      assert forall j :: 1 <= j < |table| ==> table[j] == table[1..][j - 1];
    }
  }

  /** "Other" is not a row of the table. */
  lemma OtherIsNoRow()
    ensures forall i :: 0 <= i < |FileCategories()| ==> FileCategories()[i].category != Other
  {
  }

  /** No row lists the empty suffix. */
  lemma NoEmptyExtension()
    ensures forall i :: 0 <= i < |FileCategories()| ==> "" !in FileCategories()[i].extensions
  {
  }

  /* No extension is listed by two rows. Each lemma below compares one
     row's list with the lists of the rows before it; `ListedOnce` then
     carries the result over to the table. */
  lemma ImageUnshared(e: string)
    requires e in ImageExtensions()
    ensures e !in ModelExtensions()
  {
  }

  lemma DocumentUnshared(e: string)
    requires e in DocumentExtensions()
    ensures e !in ModelExtensions()
    ensures e !in ImageExtensions()
  {
  }

  lemma SpreadsheetUnshared(e: string)
    requires e in SpreadsheetExtensions()
    ensures e !in ModelExtensions()
    ensures e !in ImageExtensions()
    ensures e !in DocumentExtensions()
  {
  }

  lemma ArchiveUnshared(e: string)
    requires e in ArchiveExtensions()
    ensures e !in ModelExtensions()
    ensures e !in ImageExtensions()
    ensures e !in DocumentExtensions()
    ensures e !in SpreadsheetExtensions()
  {
  }

  lemma VideoUnsharedEarly(e: string)
    requires e in VideoExtensions()
    ensures e !in ModelExtensions()
    ensures e !in ImageExtensions()
    ensures e !in DocumentExtensions()
    ensures e !in SpreadsheetExtensions()
  {
  }

  lemma VideoUnsharedLate(e: string)
    requires e in VideoExtensions()
    ensures e !in ArchiveExtensions()
  {
  }

  lemma AudioUnsharedEarly(e: string)
    requires e in AudioExtensions()
    ensures e !in ModelExtensions()
    ensures e !in ImageExtensions()
    ensures e !in DocumentExtensions()
    ensures e !in SpreadsheetExtensions()
  {
  }

  lemma AudioUnsharedLate(e: string)
    requires e in AudioExtensions()
    ensures e !in ArchiveExtensions()
    ensures e !in VideoExtensions()
  {
  }

  lemma CodeUnsharedEarly(e: string)
    requires e in CodeExtensions()
    ensures e !in ModelExtensions()
    ensures e !in ImageExtensions()
    ensures e !in DocumentExtensions()
    ensures e !in SpreadsheetExtensions()
  {
  }

  lemma CodeUnsharedLate(e: string)
    requires e in CodeExtensions()
    ensures e !in ArchiveExtensions()
    ensures e !in VideoExtensions()
    ensures e !in AudioExtensions()
  {
  }

  lemma InstallerUnsharedEarly(e: string)
    requires e in InstallerExtensions()
    ensures e !in ModelExtensions()
    ensures e !in ImageExtensions()
    ensures e !in DocumentExtensions()
    ensures e !in SpreadsheetExtensions()
  {
  }

  lemma InstallerUnsharedLate(e: string)
    requires e in InstallerExtensions()
    ensures e !in ArchiveExtensions()
    ensures e !in VideoExtensions()
    ensures e !in AudioExtensions()
    ensures e !in CodeExtensions()
  {
  }

  /** A listed extension is listed by no earlier row. */
  lemma ListedOnce(j: nat, e: string)
    requires j < |FileCategories()| && e in FileCategories()[j].extensions
    ensures forall i :: 0 <= i < j ==> e !in FileCategories()[i].extensions
  {
    if j == 1 {
      ImageUnshared(e);
    } else if j == 2 {
      DocumentUnshared(e);
    } else if j == 3 {
      SpreadsheetUnshared(e);
    } else if j == 4 {
      ArchiveUnshared(e);
    } else if j == 5 {
      VideoUnsharedEarly(e);
      VideoUnsharedLate(e);
    } else if j == 6 {
      AudioUnsharedEarly(e);
      AudioUnsharedLate(e);
    } else if j == 7 {
      CodeUnsharedEarly(e);
      CodeUnsharedLate(e);
    } else if j == 8 {
      InstallerUnsharedEarly(e);
      InstallerUnsharedLate(e);
    }
  }

  /** Every supported extension, in any letter case, is classified into the
      one row that lists it. */
  lemma ListedSuffixClassified(name: string, j: nat)
    requires j < |FileCategories()| && Lower(Suffix(name)) in FileCategories()[j].extensions
    ensures GetCategory(name) == FileCategories()[j].category
  {
    ListedOnce(j, Lower(Suffix(name)));
    ClassifyFirstMatch(FileCategories(), Lower(Suffix(name)), j);
  }

  /** `get_category` returns a name that `main` accepts as a category,
      and "Other" exactly when no row lists the lower-cased suffix. */
  lemma GetCategoryTotal(name: string)
    ensures IsCategoryName(GetCategory(name))
    ensures GetCategory(name) == Other <==>
              forall j :: 0 <= j < |FileCategories()| ==> Lower(Suffix(name)) !in FileCategories()[j].extensions
  {
    OtherIsNoRow();
    ClassifyTotal(FileCategories(), Lower(Suffix(name)));
  }

  /** A name without a suffix (no dot, a leading dot only, or a trailing dot) is "Other". */
  lemma NoSuffixIsOther(name: string)
    requires !HasSuffix(name)
    ensures GetCategory(name) == Other
  {
    NoEmptyExtension();
    ClassifyNoMatch(FileCategories(), Lower(Suffix(name)));
  }

  /** Only the case-folded last suffix matters: two names with the same stem
      whose extensions differ only in letter case get the same category. */
  lemma SuffixCaseIgnored(stem: string, ext1: string, ext2: string)
    requires |stem| > 0 && IsExtension(ext1) && IsExtension(ext2)
    requires Lower(ext1) == Lower(ext2)
    ensures GetCategory(stem + ext1) == GetCategory(stem + ext2)
  {
    SuffixOfJoin(stem, ext1);
    SuffixOfJoin(stem, ext2);
  }

  /** No row lists an extension whose second character is '_'. */
  lemma NoUnderscoreExtension(x: string)
    requires |x| >= 2 && x[1] == '_'
    ensures forall i :: 0 <= i < |FileCategories()| ==> x !in FileCategories()[i].extensions
  {
  }

  /** A name renamed to dodge a collision keeps its category. A name with a
      suffix keeps that suffix; a name without one stays "Other", even a
      name with a trailing dot, which gains the suffix `._<k>`. */
  lemma CandidateKeepsCategory(name: string, k: nat)
    ensures GetCategory(Candidate(name, k)) == GetCategory(name)
  {
    if HasSuffix(name) {
      CandidateKeepsSuffix(name, k);
    } else {
      NoSuffixIsOther(name);
      CandidateWithoutSuffix(name, k);
      if HasSuffix(Candidate(name, k)) {
        var x := Lower(Suffix(Candidate(name, k)));
        assert x[1] == '_';
        NoUnderscoreExtension(x);
        ClassifyNoMatch(FileCategories(), x);
      } else {
        NoSuffixIsOther(Candidate(name, k));
      }
    }
  }

  /** The KELVIN SIGN folds to 'k': "clip.m\U{212A}v" is a video. */
  lemma KelvinSignFolds()
    ensures GetCategory("clip.m\U{212A}v") == "Videos"
  {
    SuffixOfJoin("clip", ".m\U{212A}v");
    assert "clip" + ".m\U{212A}v" == "clip.m\U{212A}v";
    assert Lower(".m\U{212A}v") == ".mkv";
    assert ".mkv" in FileCategories()[5].extensions;
    ListedSuffixClassified("clip.m\U{212A}v", 5);
  }
}
