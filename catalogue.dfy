/**
 * The catalogue exporter (markexcel.py). It lists the working directory,
 * keeps the numbered Markdown notes, and writes one spreadsheet row per note:
 * the note's title (its name without a leading `<digits>-` and the final ".md") and
 * the note's address in the GitHub repository, under a fixed header row.
 *
 * The sheet is a `Sheet` object whose `rows` grow by `Append`, as the
 * worksheet does under `ws.append`; saving it to md_links.xlsx is not part of
 * this model.
 */
module Catalogue {
  import opened Text
  import Renamer

  // ---------------------------------------------------------------------------
  // Selection: is_target_md_file
  // ---------------------------------------------------------------------------

  /** `re.search(r'[a-zA-Z]', s)` finds a match. */
  predicate HasAsciiLetter(s: string) {
    exists i :: 0 <= i < |s| && IsAsciiLetter(s[i])
  }

  /**
   * `is_target_md_file`: the name ends in ".md", starts with a digit and holds
   * an ASCII letter. The letter test never rejects anything ("md" supplies the
   * letters), so the exporter selects exactly the notes the renamer works on.
   */
  function IsTargetMdFile(f: string): (r: bool)
    ensures r <==> Renamer.IsNumberedNote(f)
  {
    var r := EndsWith(f, ".md") && f != [] && IsDigit(f[0]) && HasAsciiLetter(f);
    assert EndsWith(f, ".md") ==> HasAsciiLetter(f) by {
      if EndsWith(f, ".md") {
        assert f[|f| - 3..][2] == 'd';
        assert IsAsciiLetter(f[|f| - 1]);
      }
    }
    r
  }

  // ---------------------------------------------------------------------------
  // The title column: extract_title_without_prefix
  // ---------------------------------------------------------------------------

  /** When the first `k` characters are digits and the next is not, they are the whole digit run. */
  lemma DigitRunAt(f: string, k: nat)
    requires k < |f| && AllDigits(f[..k]) && !IsDigit(f[k])
    ensures LeadingDigits(f) == f[..k]
  {
    assert f == f[..k] + f[k..];
    LeadingDigitsOfPrefixed(f[..k], f[k..]);
  }

  /**
   * `re.sub(r'^\d+-', '', f)`: removes a leading run of digits together with
   * the hyphen right after it. What it removes is digits and one hyphen;
   * when it removes nothing, the name has no such prefix at all.
   */
  function StripDigitDash(f: string): (r: string)
    ensures |r| <= |f| && r == f[|f| - |r|..]
    ensures |r| < |f| ==> 2 <= |f| - |r| && AllDigits(f[..|f| - |r| - 1]) && f[|f| - |r| - 1] == '-'
    ensures |r| == |f| ==> forall k :: 1 <= k < |f| && AllDigits(f[..k]) ==> f[k] != '-'
  {
    var d := LeadingDigits(f);
    if d != [] && |d| < |f| && f[|d|] == '-' then
      assert f[..|d|] == d;
      f[|d| + 1..]
    else
      assert forall k :: 1 <= k < |f| && AllDigits(f[..k]) ==> f[k] != '-' by {
        forall k | 1 <= k < |f| && AllDigits(f[..k]) && f[k] == '-'
          ensures false
        {
          DigitRunAt(f, k);
        }
      }
      f
  }

  /** `extract_title_without_prefix`: drop the digit prefix, then everything from the last ".md". */
  function ExtractTitle(f: string): (r: string)
    ensures |r| <= |f|
  {
    BeforeLastMd(StripDigitDash(f))
  }

  /** The title column undoes the renamer's naming: `<digits>-<title>.md` yields `<title>`. */
  lemma ExtractTitleOfNoteName(prefix: string, title: string)
    requires prefix != [] && AllDigits(prefix)
    ensures ExtractTitle(Renamer.NoteName(prefix, title)) == title
  {
    var f := Renamer.NoteName(prefix, title);
    assert f == prefix + ("-" + (title + ".md"));
    assert f[|prefix|] == '-';
    assert StripDigitDash(f) == f[|prefix| + 1..];
    assert f[|prefix| + 1..] == title + ".md";
    BeforeLastMdOfSuffixed(title);
  }

  /**
   * A Markdown name that does not start with digits and a hyphen keeps its
   * whole stem: only the final ".md" goes.
   */
  lemma ExtractTitleOfUnprefixed(s: string)
    requires forall k :: 1 <= k < |s + ".md"| && AllDigits((s + ".md")[..k]) ==> (s + ".md")[k] != '-'
    ensures ExtractTitle(s + ".md") == s
  {
    assert StripDigitDash(s + ".md") == s + ".md";
    BeforeLastMdOfSuffixed(s);
  }

  /**
   * After the renamer has moved a note, the catalogue shows the note's
   * sanitised first line, with the `_k` the renamer appended when the plain
   * name was taken.
   */
  lemma RenamedNoteTitle(d: Renamer.Entries, name: string, n: string)
    requires Renamer.NewName(d, name) == Some(n)
    ensures name in d
    ensures ExtractTitle(n) == Renamer.Suffixed(
      Renamer.FormatTitle(Renamer.FirstNonBlank(d[name])),
      Renamer.FirstFree(d.Keys, Renamer.TargetName(name, d[name]), 0))
  {
    var prefix := LeadingDigits(name);
    var title := Renamer.FormatTitle(Renamer.FirstNonBlank(d[name]));
    var k := Renamer.FirstFree(d.Keys, Renamer.TargetName(name, d[name]), 0);
    assert prefix != [] by {
      assert IsDigit(name[0]);
    }
    Renamer.CandidateOfNoteName(prefix, title, k);
    ExtractTitleOfNoteName(prefix, Renamer.Suffixed(title, k));
  }

  // ---------------------------------------------------------------------------
  // The link column
  // ---------------------------------------------------------------------------

  /** `GITHUB_PREFIX`: where the notes live in the published repository. */
  const GithubPrefix: string := "https://github.com/same4869/HarmonyNext-/blob/main/"

  /** `GITHUB_PREFIX + filename` */
  function Link(f: string): (r: string)
    ensures |r| == |GithubPrefix| + |f|
    ensures r[..|GithubPrefix|] == GithubPrefix
  {
    GithubPrefix + f
  }

  /** The file a link points at is read back from the part after the prefix. */
  lemma LinkNamesFile(f: string)
    ensures Link(f)[|GithubPrefix|..] == f
  {
  }

  /** Different files get different links. */
  lemma LinkInjective(a: string, b: string)
    requires Link(a) == Link(b)
    ensures a == b
  {
    LinkNamesFile(a);
    LinkNamesFile(b);
  }

  // ---------------------------------------------------------------------------
  // The sheet
  // ---------------------------------------------------------------------------

  /** One spreadsheet row: `[title, link]`. */
  datatype Row = Row(title: string, link: string)

  /** The header row `["Title", "GitHub Link"]`. */
  const Header: Row := Row("Title", "GitHub Link")

  /** The row main appends for the selected file `f`. */
  function RowFor(f: string): Row {
    Row(ExtractTitle(f), Link(f))
  }

  /** The files of `listing` that main's loop selects, in listing order. */
  function Targets(listing: seq<string>): (r: seq<string>)
    ensures |r| <= |listing|
    ensures forall f :: f in r <==> f in listing && IsTargetMdFile(f)
    decreases |listing|
  {
    if listing == [] then []
    else
      var init := listing[..|listing| - 1];
      var last := listing[|listing| - 1];
      assert listing == init + [last];
      Targets(init) + (if IsTargetMdFile(last) then [last] else [])
  }

  /** Selection works piece by piece and keeps the listing's order. */
  lemma {:induction false} TargetsAppend(a: seq<string>, b: seq<string>)
    ensures Targets(a + b) == Targets(a) + Targets(b)
    decreases |b|
  {
    if b == [] {
      assert a + b == a;
    } else {
      var b' := b[..|b| - 1];
      assert (a + b)[..|a + b| - 1] == a + b';
      TargetsAppend(a, b');
    }
  }

  /** The rows for the selected files, one per file, in the same order. */
  function RowsFor(files: seq<string>): (r: seq<Row>)
    ensures |r| == |files|
  {
    seq(|files|, i requires 0 <= i < |files| => RowFor(files[i]))
  }

  /** The whole sheet main builds: the header, then one row per selected file. */
  function SheetRows(listing: seq<string>): (r: seq<Row>)
    ensures |r| == |Targets(listing)| + 1 && r[0] == Header
  {
    [Header] + RowsFor(Targets(listing))
  }

  /** Row `i` of the rows for `files` is the row for file `i`. */
  lemma RowsForAt(files: seq<string>, i: nat)
    requires i < |files|
    ensures RowsFor(files)[i] == RowFor(files[i])
  {
  }

  /** Adding a file adds its row at the end. */
  lemma RowsForSnoc(files: seq<string>, f: string)
    ensures RowsFor(files + [f]) == RowsFor(files) + [RowFor(f)]
  {
    var r := RowsFor(files + [f]);
    forall i | 0 <= i < |r| ensures r[i] == (RowsFor(files) + [RowFor(f)])[i] {
      RowsForAt(files + [f], i);
      if i < |files| {
        RowsForAt(files, i);
      }
    }
  }

  /** Indexing past the head of `[h] + t` indexes `t`. */
  lemma AfterHead<T>(h: T, t: seq<T>, i: nat)
    requires 1 <= i <= |t|
    ensures ([h] + t)[i] == t[i - 1]
  {
  }

  /** Adding at the end commutes with putting a head in front. */
  lemma HeadSnoc<T>(h: T, t: seq<T>, u: seq<T>)
    ensures [h] + (t + u) == ([h] + t) + u
  {
  }

  /** Row `i` under the header is row `i - 1` of the rows for the selected files. */
  lemma SheetRowAt(listing: seq<string>, i: nat)
    requires 1 <= i < |SheetRows(listing)|
    ensures SheetRows(listing)[i] == RowsFor(Targets(listing))[i - 1]
  {
    AfterHead(Header, RowsFor(Targets(listing)), i);
  }

  /**
   * One more listed file adds its row to the sheet when it is selected and
   * leaves the sheet as it was otherwise.
   */
  lemma SheetRowsSnoc(listing: seq<string>, f: string)
    ensures SheetRows(listing + [f])
      == SheetRows(listing) + (if IsTargetMdFile(f) then [RowFor(f)] else [])
  {
    TargetsAppend(listing, [f]);
    assert [f][..0] == [];
    assert Targets([f]) == (if IsTargetMdFile(f) then [f] else []);
    if IsTargetMdFile(f) {
      RowsForSnoc(Targets(listing), f);
    } else {
      assert Targets(listing) + [] == Targets(listing);
    }
    HeadSnoc(Header, RowsFor(Targets(listing)), if IsTargetMdFile(f) then [RowFor(f)] else []);
  }

  /**
   * Every row under the header stands for a selected file: its link is the
   * prefix followed by that file's name, and its title is the file's title.
   */
  lemma CatalogueSound(listing: seq<string>, i: nat)
    requires 1 <= i < |SheetRows(listing)|
    ensures SheetRows(listing)[i].link[..|GithubPrefix|] == GithubPrefix
    ensures var f := SheetRows(listing)[i].link[|GithubPrefix|..];
      f in listing && IsTargetMdFile(f) && SheetRows(listing)[i].title == ExtractTitle(f)
  {
    var files := Targets(listing);
    var f := files[i - 1];
    SheetRowAt(listing, i);
    RowsForAt(files, i - 1);
    LinkNamesFile(f);
    assert f in files;
  }

  /** Every selected file of the listing has its row in the sheet. */
  lemma CatalogueComplete(listing: seq<string>, f: string)
    requires f in listing && IsTargetMdFile(f)
    ensures RowFor(f) in SheetRows(listing)
  {
    var files := Targets(listing);
    assert f in files;
    var j :| 0 <= j < |files| && files[j] == f;
    SheetRowAt(listing, j + 1);
    RowsForAt(files, j);
  }

  /** The name main gives the sheet. */
  const SheetTitle: string := "Markdown Files"

  /** The sheet `wb.active`, with the rows appended so far. */
  class Sheet {
    var title: string
    var rows: seq<Row>

    constructor (title: string)
      ensures this.title == title && rows == []
    {
      this.title := title;
      rows := [];
    }

    /** `ws.append(row)` */
    method Append(row: Row)
      modifies this
      ensures rows == old(rows) + [row] && title == old(title)
    {
      rows := rows + [row];
    }
  }

  /**
   * main: name the sheet, write the header, then go through the listing and
   * append a row for every selected file.
   */
  method Export(listing: seq<string>) returns (sheet: Sheet)
    ensures fresh(sheet)
    ensures sheet.title == SheetTitle
    ensures sheet.rows == SheetRows(listing)
  {
    sheet := new Sheet(SheetTitle);
    sheet.Append(Header);
    assert sheet.rows == SheetRows(listing[..0]);
    for i := 0 to |listing|
      invariant sheet.title == SheetTitle
      invariant sheet.rows == SheetRows(listing[..i])
    {
      var filename := listing[i];
      assert listing[..i + 1] == listing[..i] + [filename];
      SheetRowsSnoc(listing[..i], filename);
      if IsTargetMdFile(filename) {
        var title := ExtractTitle(filename);
        var link := GithubPrefix + filename;
        sheet.Append(Row(title, link));
      }
    }
    assert listing[..|listing|] == listing;
  }
}
