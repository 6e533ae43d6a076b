/**
 * The note renamer (changehmname.py). Every Markdown note whose name starts
 * with digits is renamed to `<digits>-<title>.md`, where the title is the
 * note's first non-blank line made safe for a file name. When that name is
 * already taken, the pass tries `<digits>-<title>_1.md`, `_2.md`, ... and
 * takes the first free one, so no existing file is ever replaced.
 *
 * The working directory is a `Directory` object whose `entries` map each
 * file name to the lines of text the file holds; `os.rename` updates it in
 * place and `os.path.exists` is membership in its names.
 */
module Renamer {
  import opened Text

  // ---------------------------------------------------------------------------
  // Title sanitising: format_title_to_filename
  // ---------------------------------------------------------------------------

  /** `s.lstrip('#')`: drops the leading run of '#' characters. */
  function LStripHash(s: string): (r: string)
    ensures |r| <= |s| && r == s[|s| - |r|..]
    ensures forall i :: 0 <= i < |s| - |r| ==> s[i] == '#'
    ensures r != [] ==> r[0] != '#'
  {
    if s != [] && s[0] == '#' then LStripHash(s[1..]) else s
  }

  /** `s.replace(' ', '-')` */
  function SpacesToHyphens(s: string): (r: string)
    ensures |r| == |s|
  {
    if s == [] then [] else [if s[0] == ' ' then '-' else s[0]] + SpacesToHyphens(s[1..])
  }

  /** Every space becomes a hyphen and every other character stays where it was. */
  lemma {:induction false} SpacesToHyphensAt(s: string)
    ensures forall i :: 0 <= i < |s| ==> SpacesToHyphens(s)[i] == (if s[i] == ' ' then '-' else s[i])
  {
    if s != [] {
      SpacesToHyphensAt(s[1..]);
      assert forall i :: 1 <= i < |s| ==> SpacesToHyphens(s)[i] == SpacesToHyphens(s[1..])[i - 1];
    }
  }

  /** Replacing works piece by piece. */
  lemma {:induction false} SpacesToHyphensAppend(a: string, b: string)
    ensures SpacesToHyphens(a + b) == SpacesToHyphens(a) + SpacesToHyphens(b)
  {
    if a != [] {
      assert (a + b)[1..] == a[1..] + b;
      SpacesToHyphensAppend(a[1..], b);
    } else {
      assert a + b == b;
    }
  }

  /** A string without spaces is left as it is. */
  lemma SpacesToHyphensKeeps(s: string)
    requires ' ' !in s
    ensures SpacesToHyphens(s) == s
  {
    SpacesToHyphensAt(s);
    forall i | 0 <= i < |s| ensures SpacesToHyphens(s)[i] == s[i] {
      assert s[i] in s;
    }
  }

  /** After `replace(' ', '-')` no space is left, and every character is an old one or a hyphen. */
  lemma HyphenChars(s: string)
    ensures forall c :: c in SpacesToHyphens(s) ==> c != ' ' && (c in s || c == '-')
  {
    var r := SpacesToHyphens(s);
    SpacesToHyphensAt(s);
    forall c | c in r ensures c != ' ' && (c in s || c == '-') {
      var i :| 0 <= i < |r| && r[i] == c;
      assert s[i] in s;
    }
  }

  /** The characters Windows forbids in a file name: `\ / : * ? " < > |`. */
  predicate IsIllegal(c: char) {
    c == '\\' || c == '/' || c == ':' || c == '*' || c == '?' || c == '"' || c == '<' || c == '>' || c == '|'
  }

  /** `re.sub(r'[\\/:*?"<>|]', '', s)` */
  function DropIllegal(s: string): (r: string)
    ensures |r| <= |s|
  {
    if s == [] then [] else (if IsIllegal(s[0]) then [] else [s[0]]) + DropIllegal(s[1..])
  }

  /** Deleting keeps exactly the characters that are not forbidden. */
  lemma {:induction false} DropIllegalChars(s: string)
    ensures forall c :: c in DropIllegal(s) <==> c in s && !IsIllegal(c)
  {
    if s != [] {
      DropIllegalChars(s[1..]);
      assert s == [s[0]] + s[1..];
    }
  }

  /** A string with nothing to delete comes back unchanged. */
  lemma {:induction false} DropIllegalKeepsClean(s: string)
    requires forall c :: c in s ==> !IsIllegal(c)
    ensures DropIllegal(s) == s
  {
    if s != [] {
      assert s[0] in s;
      forall c | c in s[1..] ensures !IsIllegal(c) {
        assert c in s;
      }
      DropIllegalKeepsClean(s[1..]);
      assert [s[0]] + s[1..] == s;
    }
  }

  /** Deleting works piece by piece. */
  lemma {:induction false} DropIllegalAppend(a: string, b: string)
    ensures DropIllegal(a + b) == DropIllegal(a) + DropIllegal(b)
  {
    if a != [] {
      assert (a + b)[1..] == a[1..] + b;
      DropIllegalAppend(a[1..], b);
    } else {
      assert a + b == b;
    }
  }

  /** Every character of a slice is a character of the whole. */
  lemma SliceChars(s: string, k: nat, e: nat)
    requires k <= e <= |s|
    ensures forall c :: c in s[k..e] ==> c in s
  {
    forall c | c in s[k..e] ensures c in s {
      var i :| 0 <= i < e - k && s[k..e][i] == c;
      assert s[k + i] == c;
    }
  }

  /** Stripping marks and whitespace only removes characters. */
  lemma StrippedChars(title: string)
    ensures forall c :: c in Strip(LStripHash(title)) ==> c in title
  {
    var h := LStripHash(title);
    var l := LStripSpace(h);
    SliceChars(title, |title| - |h|, |title|);
    SliceChars(h, |h| - |l|, |h|);
    SliceChars(l, 0, |RStripSpace(l)|);
  }

  /**
   * `format_title_to_filename`: strip the heading marks and the surrounding
   * whitespace, turn spaces into hyphens, then delete the forbidden characters.
   * The result holds no forbidden character and no space, is never longer than
   * the title, and every character in it comes from the title or is a hyphen.
   */
  function FormatTitle(title: string): (r: string)
    ensures forall c :: c in r ==> !IsIllegal(c) && c != ' '
    ensures forall c :: c in r ==> c in title || c == '-'
    ensures |r| <= |title|
  {
    var stripped := Strip(LStripHash(title));
    StrippedChars(title);
    HyphenChars(stripped);
    DropIllegalChars(SpacesToHyphens(stripped));
    DropIllegal(SpacesToHyphens(stripped))
  }

  /** A word with no whitespace and nothing forbidden in it. */
  predicate PlainWord(w: string) {
    forall i :: 0 <= i < |w| ==> !IsSpace(w[i]) && !IsIllegal(w[i])
  }

  /** Neither replacing nor deleting changes a plain word. */
  lemma PlainWordKept(w: string)
    requires PlainWord(w)
    ensures SpacesToHyphens(w) == w && DropIllegal(w) == w
  {
    forall i | 0 <= i < |w| ensures w[i] != ' ' {
      assert !IsSpace(w[i]);
    }
    SpacesToHyphensKeeps(w);
    forall ch | ch in w ensures !IsIllegal(ch) {
      var i :| 0 <= i < |w| && w[i] == ch;
    }
    DropIllegalKeepsClean(w);
  }

  /** `lstrip('#')` then `strip()` on "# x" leaves x, when x starts and ends with a visible character. */
  lemma HeadingStripped(x: string)
    requires x != [] && !IsSpace(x[0]) && x[0] != '#'
    requires !IsSpace(x[|x| - 1])
    ensures Strip(LStripHash("#" + (" " + x))) == x
  {
    var t := "#" + (" " + x);
    assert t[1..] == " " + x;
    assert LStripHash(t) == " " + x;
    assert (" " + x)[1..] == x;
    assert LStripSpace(" " + x) == x;
  }

  /** The two spaces of "a b: c" become hyphens. */
  lemma HeadingHyphens(a: string, b: string, c: string)
    requires PlainWord(a) && PlainWord(b) && PlainWord(c)
    ensures SpacesToHyphens(a + (" " + (b + (": " + c)))) == a + ("-" + (b + (":-" + c)))
  {
    PlainWordKept(a);
    PlainWordKept(b);
    PlainWordKept(c);
    SpacesToHyphensAppend(": ", c);
    assert SpacesToHyphens(": ") == ":-";
    SpacesToHyphensAppend(b, ": " + c);
    SpacesToHyphensAppend(" ", b + (": " + c));
    assert SpacesToHyphens(" ") == "-";
    SpacesToHyphensAppend(a, " " + (b + (": " + c)));
  }

  /** The colon of "a-b:-c" is deleted. */
  lemma HeadingDropped(a: string, b: string, c: string)
    requires PlainWord(a) && PlainWord(b) && PlainWord(c)
    ensures DropIllegal(a + ("-" + (b + (":-" + c)))) == a + ("-" + (b + ("-" + c)))
  {
    PlainWordKept(a);
    PlainWordKept(b);
    PlainWordKept(c);
    DropIllegalAppend(":-", c);
    assert DropIllegal(":-") == "-";
    DropIllegalAppend(b, ":-" + c);
    DropIllegalAppend("-", b + (":-" + c));
    assert DropIllegal("-") == "-";
    DropIllegalAppend(a, "-" + (b + (":-" + c)));
  }

  /** A heading "# a b: c" of plain words becomes the stem "a-b-c". */
  lemma FormatHeading(a: string, b: string, c: string)
    requires PlainWord(a) && PlainWord(b) && PlainWord(c) && a != [] && c != [] && a[0] != '#'
    ensures FormatTitle("#" + (" " + (a + (" " + (b + (": " + c)))))) == a + ("-" + (b + ("-" + c)))
  {
    var x := a + (" " + (b + (": " + c)));
    assert x[0] == a[0];
    assert !IsSpace(a[0]);
    assert x[|x| - 1] == c[|c| - 1];
    HeadingStripped(x);
    HeadingHyphens(a, b, c);
    HeadingDropped(a, b, c);
  }

  /** The example heading and stem, cut into the pieces FormatHeading names. */
  lemma ExamplePieces()
    ensures "#" + (" " + ("HarmonyOS" + (" " + ("Next" + (": " + "Basics"))))) == "# HarmonyOS Next: Basics"
    ensures "HarmonyOS" + ("-" + ("Next" + ("-" + "Basics"))) == "HarmonyOS-Next-Basics"
  {
  }

  /** The heading "# HarmonyOS Next: Basics" becomes the stem "HarmonyOS-Next-Basics". */
  lemma FormatTitleExample()
    ensures FormatTitle("# HarmonyOS Next: Basics") == "HarmonyOS-Next-Basics"
  {
    FormatHeading("HarmonyOS", "Next", "Basics");
    ExamplePieces();
  }

  // ---------------------------------------------------------------------------
  // Title line: get_first_non_empty_line
  // ---------------------------------------------------------------------------

  /** `if line:` after `line.strip()` fails: the line is empty or whitespace only. */
  predicate IsBlank(line: string) {
    Strip(line) == []
  }

  /** Every one of the first `k` lines is blank. */
  predicate BlankBefore(lines: seq<string>, k: nat)
    requires k <= |lines|
  {
    forall j :: 0 <= j < k ==> IsBlank(lines[j])
  }

  /**
   * The stripped form of the first line that is not blank, or "untitled"
   * when every line is blank. The result is never empty.
   */
  function FirstNonBlank(lines: seq<string>): (r: string)
    ensures r != []
    ensures BlankBefore(lines, |lines|) ==> r == "untitled"
    ensures forall i :: 0 <= i < |lines| && !IsBlank(lines[i]) && BlankBefore(lines, i) ==> r == Strip(lines[i])
  {
    if lines == [] then "untitled"
    else if !IsBlank(lines[0]) then Strip(lines[0])
    else
      var rest := lines[1..];
      var r := FirstNonBlank(rest);
      assert BlankBefore(lines, |lines|) ==> BlankBefore(rest, |rest|) by {
        if BlankBefore(lines, |lines|) {
          forall j | 0 <= j < |rest| ensures IsBlank(rest[j]) {
            assert rest[j] == lines[j + 1];
          }
        }
      }
      assert forall i :: 0 <= i < |lines| && !IsBlank(lines[i]) && BlankBefore(lines, i) ==> r == Strip(lines[i]) by {
        forall i | 0 <= i < |lines| && !IsBlank(lines[i]) && BlankBefore(lines, i) ensures r == Strip(lines[i]) {
          assert i != 0;
          assert rest[i - 1] == lines[i];
          forall j | 0 <= j < i - 1 ensures IsBlank(rest[j]) {
            assert rest[j] == lines[j + 1];
          }
          assert BlankBefore(rest, i - 1);
        }
      }
      r
  }

  /** `get_first_non_empty_line`: reads the lines in order and returns at the first non-blank one. */
  method ReadFirstLine(lines: seq<string>) returns (title: string)
    ensures title == FirstNonBlank(lines)
  {
    for i := 0 to |lines|
      invariant FirstNonBlank(lines[i..]) == FirstNonBlank(lines)
    {
      var line := Strip(lines[i]);
      if line != [] {
        return line;
      }
      assert lines[i..][1..] == lines[i + 1..];
    }
    assert lines[|lines|..] == [];
    return "untitled";
  }

  // ---------------------------------------------------------------------------
  // Selection and the target name
  // ---------------------------------------------------------------------------

  /** `filename.endswith('.md') and re.match(r'^\d+', filename)` */
  predicate IsNumberedNote(name: string) {
    EndsWith(name, ".md") && name != [] && IsDigit(name[0])
  }

  /**
   * `f"{prefix}-{title}.md"`. When the prefix is a digit run, it is exactly the
   * digit run of the result, and the result is itself a numbered note.
   */
  function NoteName(prefix: string, title: string): (r: string)
    ensures AllDigits(prefix) ==> LeadingDigits(r) == prefix
    ensures prefix != [] && IsDigit(prefix[0]) ==> IsNumberedNote(r)
  {
    var r := prefix + "-" + title + ".md";
    assert r == prefix + ("-" + title + ".md");
    assert AllDigits(prefix) ==> LeadingDigits(r) == prefix by {
      if AllDigits(prefix) {
        LeadingDigitsOfPrefixed(prefix, "-" + title + ".md");
      }
    }
    assert r[|r| - 3..] == ".md";
    assert prefix != [] ==> r[0] == prefix[0];
    r
  }

  /** The name main builds for a numbered note: its own digit prefix, a hyphen, the sanitised title. */
  function TargetName(name: string, lines: seq<string>): (r: string)
    requires IsNumberedNote(name)
    ensures LeadingDigits(r) == LeadingDigits(name)
    ensures IsNumberedNote(r)
  {
    NoteName(LeadingDigits(name), FormatTitle(FirstNonBlank(lines)))
  }

  // ---------------------------------------------------------------------------
  // Collision avoidance: the `while os.path.exists(new_filename)` loop
  // ---------------------------------------------------------------------------

  /** The title with the collision suffix the loop may add: `title` itself, or `title_k`. */
  function Suffixed(title: string, k: nat): string {
    if k == 0 then title else title + "_" + DecimalString(k)
  }

  /**
   * The name the collision loop tries when its counter has moved `k` times:
   * the target itself, then `<target without its last ".md">_k.md`.
   */
  function Candidate(base: string, k: nat): string {
    if k == 0 then base else BeforeLastMd(base) + "_" + DecimalString(k) + ".md"
  }

  /** For a name of the renamer's own shape, the k-th candidate only suffixes the title. */
  lemma CandidateOfNoteName(prefix: string, title: string, k: nat)
    ensures Candidate(NoteName(prefix, title), k) == NoteName(prefix, Suffixed(title, k))
  {
    if k > 0 {
      var stem := prefix + "-" + title;
      BeforeLastMdOfSuffixed(stem);
      assert NoteName(prefix, title) == stem + ".md";
      assert NoteName(prefix, Suffixed(title, k)) == stem + "_" + DecimalString(k) + ".md";
    }
  }

  /** The loop never tries the same name twice. */
  lemma CandidateInjective(base: string, a: nat, b: nat)
    requires Candidate(base, a) == Candidate(base, b)
    ensures a == b
  {
    if a == 0 && b > 0 {
      CandidateNotBase(base, b);
    } else if b == 0 && a > 0 {
      CandidateNotBase(base, a);
    } else if a > 0 && b > 0 {
      var x := BeforeLastMd(base) + "_";
      var da, db := DecimalString(a), DecimalString(b);
      assert x + da + ".md" == x + db + ".md";
      assert |da| == |db|;
      assert (x + da + ".md")[|x|..|x| + |da|] == da;
      assert (x + db + ".md")[|x|..|x| + |db|] == db;
      DecimalStringInjective(a, b);
    }
  }

  /** A suffixed candidate differs from the target: '_' stands where the target's last ".md" starts. */
  lemma CandidateNotBase(base: string, k: nat)
    requires k > 0
    ensures Candidate(base, k) != base
  {
    var c := Candidate(base, k);
    match LastMdAt(base, |base|)
    case None =>
      assert |c| > |base|;
    case Some(p) =>
      assert base[p] == base[p..p + 3][0] == '.';
      assert c[p] == '_';
  }

  /** When the first `k` candidates all exist, the directory has at least `k` names. */
  lemma {:induction false} CandidatesBound(names: set<string>, base: string, k: nat)
    requires forall j :: 0 <= j < k ==> Candidate(base, j) in names
    ensures k <= |names|
  {
    if k > 0 {
      var c := Candidate(base, k - 1);
      var rest := names - {c};
      forall j | 0 <= j < k - 1 ensures Candidate(base, j) in rest {
        if Candidate(base, j) == c {
          CandidateInjective(base, j, k - 1);
        }
      }
      CandidatesBound(rest, base, k - 1);
    }
  }

  /**
   * The least `r >= k` whose candidate is not taken, given that the ones below
   * `k` are. It exists because the directory is finite and no candidate repeats.
   */
  function FirstFree(names: set<string>, base: string, k: nat): (r: nat)
    requires forall j :: 0 <= j < k ==> Candidate(base, j) in names
    ensures k <= r && Candidate(base, r) !in names
    ensures forall j :: 0 <= j < r ==> Candidate(base, j) in names
    decreases |names| - k
  {
    if Candidate(base, k) !in names then k
    else
      CandidatesBound(names, base, k + 1);
      FirstFree(names, base, k + 1)
  }

  /** Any `k` whose candidate is the first free one is what FirstFree finds. */
  lemma {:induction false} FirstFreeIsLeast(names: set<string>, base: string, m: nat, k: nat)
    requires m <= k
    requires forall j :: 0 <= j < k ==> Candidate(base, j) in names
    requires Candidate(base, k) !in names
    ensures FirstFree(names, base, m) == k
    decreases k - m
  {
    if m < k {
      CandidatesBound(names, base, m + 1);
      FirstFreeIsLeast(names, base, m + 1, k);
    }
  }

  /**
   * The collision loop: starting from `base`, keeps trying `<stem>_<counter>.md`
   * while the name exists. Returns the first name not in `names` and how many
   * times the counter moved.
   */
  method ChooseFreeName(names: set<string>, base: string) returns (chosen: string, suffix: nat)
    ensures chosen == Candidate(base, suffix) && chosen !in names
    ensures forall j :: 0 <= j < suffix ==> Candidate(base, j) in names
    ensures suffix == FirstFree(names, base, 0)
  {
    chosen := base;
    var counter: nat := 1;
    while chosen in names
      invariant counter >= 1 && chosen == Candidate(base, counter - 1)
      invariant forall j :: 0 <= j < counter - 1 ==> Candidate(base, j) in names
      decreases |names| - counter
    {
      CandidatesBound(names, base, counter);
      chosen := BeforeLastMd(base) + "_" + DecimalString(counter) + ".md";
      counter := counter + 1;
    }
    suffix := counter - 1;
    FirstFreeIsLeast(names, base, 0, suffix);
  }

  // ---------------------------------------------------------------------------
  // The directory and the rename pass: main
  // ---------------------------------------------------------------------------

  type Entries = map<string, seq<string>>

  /**
   * The directory after `os.rename(src, dst)`: the file moves to `dst`, replacing
   * whatever was called `dst` (POSIX behaviour); renaming to itself changes nothing.
   */
  function Moved(d: Entries, src: string, dst: string): (r: Entries)
    requires src in d
    ensures dst in r && r[dst] == d[src]
    ensures src != dst ==> src !in r
    ensures forall n :: n != src && n != dst ==> (n in r <==> n in d)
    ensures forall n :: n in r && n != src && n != dst ==> r[n] == d[n]
  {
    if src == dst then d else d - {src} + map[dst := d[src]]
  }

  /** The working directory: file names and the lines each file holds. */
  class Directory {
    var entries: Entries

    constructor (initial: Entries)
      ensures entries == initial
    {
      entries := initial;
    }

    /** `os.rename(src, dst)` */
    method Rename(src: string, dst: string)
      requires src in entries
      modifies this
      ensures entries == Moved(old(entries), src, dst)
    {
      entries := Moved(entries, src, dst);
    }
  }

  /**
   * The name the pass gives to the listed `name` in directory `d`, or None when
   * it leaves the file where it is. A new name is always a numbered note with
   * the same digit prefix, and it names no file in `d`: nothing is overwritten.
   */
  function NewName(d: Entries, name: string): (r: Option<string>)
    ensures r.Some? ==> name in d && IsNumberedNote(name) && r.value != name
    ensures r.Some? ==> r.value !in d
    ensures r.Some? ==> IsNumberedNote(r.value) && LeadingDigits(r.value) == LeadingDigits(name)
    ensures r.None? ==> name !in d || !IsNumberedNote(name) || TargetName(name, d[name]) == name
    ensures name in d && IsNumberedNote(name) && TargetName(name, d[name]) == name ==> r.None?
  {
    if name !in d || !IsNumberedNote(name) then None
    else
      var target := TargetName(name, d[name]);
      if target == name then None
      else
        var k := FirstFree(d.Keys, target, 0);
        CandidateOfNoteName(LeadingDigits(name), FormatTitle(FirstNonBlank(d[name])), k);
        Some(Candidate(target, k))
  }

  /**
   * One turn of main's loop for the listed `name`. A name that is no longer in
   * the directory is left alone; RenameNotes shows that this never happens to
   * a name from the listing.
   */
  function Step(d: Entries, name: string): Entries {
    match NewName(d, name)
    case None => d
    case Some(n) => Moved(d, name, n)
  }

  /** The directory after main's loop has visited `listing` in order. */
  function Pass(d: Entries, listing: seq<string>): Entries
    decreases |listing|
  {
    if listing == [] then d
    else Step(Pass(d, listing[..|listing| - 1]), listing[|listing| - 1])
  }

  /** The names `os.listdir` returns: each at most once, each a file of the directory. */
  predicate IsListing(listing: seq<string>, d: Entries) {
    && (forall i, j :: 0 <= i < j < |listing| ==> listing[i] != listing[j])
    && (forall i :: 0 <= i < |listing| ==> listing[i] in d)
  }

  /** Moving a note whose target differs from its name to the first free candidate is one turn of the loop. */
  lemma MovesToChosen(d: Entries, name: string, chosen: string)
    requires name in d && IsNumberedNote(name) && TargetName(name, d[name]) != name
    requires chosen == Candidate(TargetName(name, d[name]), FirstFree(d.Keys, TargetName(name, d[name]), 0))
    ensures Step(d, name) == Moved(d, name, chosen)
  {
  }

  /**
   * One turn of main's loop for the listed `filename`: when it is a numbered
   * note, read its first non-blank line, build the target, and unless the note
   * already has that name, move it to the first free candidate.
   */
  method RenameNote(dir: Directory, filename: string)
    requires filename in dir.entries
    modifies dir
    ensures dir.entries == Step(old(dir.entries), filename)
  {
    if EndsWith(filename, ".md") && filename != [] && IsDigit(filename[0]) {
      var firstLine := ReadFirstLine(dir.entries[filename]);
      var newNamePart := FormatTitle(firstLine);
      var prefix := LeadingDigits(filename);
      var newFilename := prefix + "-" + newNamePart + ".md";
      assert newFilename == TargetName(filename, dir.entries[filename]);
      if newFilename != filename {
        var chosen, _ := ChooseFreeName(dir.entries.Keys, newFilename);
        MovesToChosen(dir.entries, filename, chosen);
        dir.Rename(filename, chosen);
      }
    }
  }

  /** `main`: one turn of the loop for each name of the listing, in order. */
  method RenameNotes(dir: Directory, listing: seq<string>)
    requires IsListing(listing, dir.entries)
    modifies dir
    ensures dir.entries == Pass(old(dir.entries), listing)
  {
    for i := 0 to |listing|
      invariant dir.entries == Pass(old(dir.entries), listing[..i])
      invariant forall j :: i <= j < |listing| ==>
                  listing[j] in dir.entries && dir.entries[listing[j]] == old(dir.entries)[listing[j]]
    {
      var filename := listing[i];
      ghost var before := dir.entries;
      assert listing[..i + 1] == listing[..i] + [filename];
      RenameNote(dir, filename);
      StepFrame(before, filename);
      forall j | i < j < |listing|
        ensures listing[j] in dir.entries && dir.entries[listing[j]] == old(dir.entries)[listing[j]]
      {
        assert listing[j] != filename;
      }
    }
    assert listing[..|listing|] == listing;
  }

  // ---------------------------------------------------------------------------
  // What a pass keeps
  // ---------------------------------------------------------------------------

  /** One turn never changes how many files the directory holds. */
  lemma StepKeepsCount(d: Entries, name: string)
    ensures |Step(d, name)| == |d|
  {
    match NewName(d, name)
    case None =>
    case Some(n) =>
      MovedKeepsCount(d, name, n);
  }

  /** Renaming onto a free name keeps the number of files. */
  lemma MovedKeepsCount(d: Entries, src: string, dst: string)
    requires src in d && dst !in d
    ensures |Moved(d, src, dst)| == |d|
  {
    ReplaceKeyCount(d, src, dst, d[src]);
  }

  /** Taking one key out of a map and putting a new one in keeps its size. */
  lemma ReplaceKeyCount<K, V>(m: map<K, V>, a: K, b: K, v: V)
    requires a in m && b !in m
    ensures |m - {a} + map[b := v]| == |m|
  {
    var rest := m - {a};
    assert rest.Keys == m.Keys - {a};
    assert |rest.Keys| == |m.Keys| - 1;
    var r := rest + map[b := v];
    assert r.Keys == rest.Keys + {b};
    assert |r.Keys| == |rest.Keys| + 1;
  }

  /** A whole pass leaves the number of directory entries unchanged. */
  lemma {:induction false} PassKeepsCount(d: Entries, listing: seq<string>)
    ensures |Pass(d, listing)| == |d|
    decreases |listing|
  {
    if listing != [] {
      PassKeepsCount(d, listing[..|listing| - 1]);
      StepKeepsCount(Pass(d, listing[..|listing| - 1]), listing[|listing| - 1]);
    }
  }

  /**
   * One turn leaves every other file with its name and contents, and moves
   * the listed name only when it is a numbered note.
   */
  lemma StepFrame(d: Entries, name: string)
    ensures forall n :: n in d && (n != name || !IsNumberedNote(n)) ==> n in Step(d, name) && Step(d, name)[n] == d[n]
    ensures forall n :: n in d && n !in Step(d, name) ==> n == name && IsNumberedNote(n)
    ensures forall n :: n in Step(d, name) && n !in d ==> IsNumberedNote(n)
  {
    match NewName(d, name)
    case None =>
    case Some(m) =>
      var r := Moved(d, name, m);
      assert Step(d, name) == r;
      forall n | n in d && (n != name || !IsNumberedNote(n)) ensures n in r && r[n] == d[n] {
        assert n != name && n != m;
      }
      forall n | n in r && n !in d ensures IsNumberedNote(n) {
        assert n == m;
      }
  }

  /**
   * A pass touches only numbered notes it was given: every file that is not
   * listed, or is not a numbered note, keeps its name and contents; every name
   * that disappears is a listed numbered note; every name that appears is a
   * numbered note.
   */
  lemma {:induction false} PassFrame(d: Entries, listing: seq<string>)
    ensures forall n :: n in d && (n !in listing || !IsNumberedNote(n)) ==> n in Pass(d, listing) && Pass(d, listing)[n] == d[n]
    ensures forall n :: n in d && n !in Pass(d, listing) ==> IsNumberedNote(n) && n in listing
    ensures forall n :: n in Pass(d, listing) && n !in d ==> IsNumberedNote(n)
    decreases |listing|
  {
    if listing != [] {
      var init := listing[..|listing| - 1];
      var x := listing[|listing| - 1];
      PassFrame(d, init);
      StepFrame(Pass(d, init), x);
      assert listing == init + [x];
    }
  }

  /** A note that already has its target name is skipped: its turn changes nothing. */
  lemma StepSkips(d: Entries, n: string)
    requires n in d && IsNumberedNote(n) && TargetName(n, d[n]) == n
    ensures Step(d, n) == d
  {
  }

  /**
   * A note that already has its target name keeps its name and contents
   * through a whole pass, whatever happens to the other notes.
   */
  lemma {:induction false} PassKeepsSettled(d: Entries, listing: seq<string>, n: string)
    requires n in d && IsNumberedNote(n) && TargetName(n, d[n]) == n
    ensures n in Pass(d, listing) && Pass(d, listing)[n] == d[n]
    decreases |listing|
  {
    if listing != [] {
      var init := listing[..|listing| - 1];
      var x := listing[|listing| - 1];
      PassKeepsSettled(d, init, n);
      if x == n {
        StepSkips(Pass(d, init), n);
      } else {
        StepFrame(Pass(d, init), x);
      }
    }
  }

  /** A pass over a directory whose numbered notes already carry their target names renames nothing. */
  lemma {:induction false} SettledIsFixed(d: Entries, listing: seq<string>)
    requires forall n :: n in d && IsNumberedNote(n) ==> TargetName(n, d[n]) == n
    ensures Pass(d, listing) == d
    decreases |listing|
  {
    if listing != [] {
      SettledIsFixed(d, listing[..|listing| - 1]);
    }
  }

  /** A note moved to its plain target is left there by the next pass: its target is its own name. */
  lemma TargetIsStable(name: string, lines: seq<string>)
    requires IsNumberedNote(name)
    ensures TargetName(TargetName(name, lines), lines) == TargetName(name, lines)
  {
  }

  /**
   * A note that had to take a suffixed name `_k` is moved again by the next pass:
   * its target is still the unsuffixed name, which differs from its own. It goes
   * to the plain name if that has become free, otherwise to another `_j` name.
   */
  lemma SuffixedNameMovesAgain(name: string, lines: seq<string>, k: nat)
    requires IsNumberedNote(name) && k > 0
    ensures IsNumberedNote(Candidate(TargetName(name, lines), k))
    ensures TargetName(Candidate(TargetName(name, lines), k), lines) == TargetName(name, lines)
    ensures Candidate(TargetName(name, lines), k) != TargetName(name, lines)
  {
    CandidateOfNoteName(LeadingDigits(name), FormatTitle(FirstNonBlank(lines)), k);
    CandidateNotBase(TargetName(name, lines), k);
  }
}
