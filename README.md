# HarmonyNext note tools, modelled in Dafny

The HarmonyNext repository keeps its articles as numbered Markdown notes such
as `124-HarmonyOS-Next-Basics.md`. Two scripts look after them:

- `changehmname.py`, the renamer, gives every note whose name starts with
  digits the name `<digits>-<title>.md`. The title is the note's first
  non-blank line with the heading marks and surrounding whitespace stripped,
  spaces turned into hyphens and the characters Windows forbids deleted.
  When the new name is taken, it tries `<digits>-<title>_1.md`, `_2.md`, ...
  and takes the first free one.
- `markexcel.py`, the catalogue exporter, writes a sheet with a header row and,
  for every numbered note, a row holding the note's title (its name without
  a leading `<digits>-` and the final `.md`) and its GitHub address.

The model has three modules:

- `Text` (text.dfy) holds the string operations both scripts use: Python's
  `strip()`, the leading digit run `^\d+`, `rsplit('.md', 1)[0]` and the
  decimal form of the counter.
- `Renamer` (renamer.dfy) models the renamer. The working directory is a
  `Directory` object whose `entries` map each file name to the file's lines.
  `Directory.Rename` is `os.rename`, and `os.path.exists` is membership in
  those names. `RenameNotes` runs the main loop over a listing of the
  directory. It is proved to leave the directory in the state that `Pass`
  describes turn by turn.
- `Catalogue` (catalogue.dfy) models the exporter. A `Sheet` object gains rows
  through `Append`, and `Export` is proved to build exactly `SheetRows`.

What is proved:

- A sanitised title holds no space and no forbidden character. Every
  character of it comes from the heading or is a hyphen.
- The collision loop always ends. It picks the first free candidate, and
  that candidate never names an existing file. A pass therefore never
  overwrites a file and keeps the number of files. This assumes no dangling
  symbolic links; see "Left out".
- A pass touches nothing but the numbered notes it lists. Every other file
  keeps its name and its contents.
- A note that already carries its target name keeps its name and contents
  through a pass, even while other notes move. A directory whose notes all
  carry their target names is a fixed point.
- The exporter selects exactly the notes the renamer works on. Its title
  column undoes the renamer's naming, and every note has exactly the row it
  should.

One consequence of the code is shown as a lemma, `SuffixedNameMovesAgain`.
A note that had to take a `_k` name is moved again by the next run, because
its target is still the plain name, which differs from its own. It goes to
the plain name if that has become free, and otherwise to another `_j` name.

## Model

| member | source | states |
|---|---|---|
| Text.LStripSpace | changehmname.py:7 | `lstrip()` removes exactly a whitespace prefix; what remains is empty or starts with a non-space |
| Text.IsDigit | changehmname.py:26 | what `\d` matches in `^\d+` and `^(\d+)`, and in markexcel.py at lines 11 and 17: an ASCII decimal digit |
| Text.IsAsciiLetter | markexcel.py:12 | the class `[a-zA-Z]` |
| Text.IsSpace | changehmname.py:7 | the characters `strip()` removes: Python's whitespace set, listed by code point |
| Text.RStripSpace | changehmname.py:7 | `rstrip()` removes exactly a whitespace suffix; what remains is empty or ends with a non-space |
| Text.Strip | changehmname.py:19 | `strip()` never lengthens a line, and a non-empty result starts and ends with a non-space |
| Text.EndsWith | changehmname.py:26 | `s.endswith(suffix)`: the last characters of `s` are `suffix` |
| Text.StripEmptyIffAllSpace | changehmname.py:19-20 | a line counts as blank after `strip()` exactly when all its characters are whitespace |
| Text.LeadingDigits | changehmname.py:31 | the prefix `^(\d+)` captures is a prefix of the name, all digits, and cannot be extended |
| Text.LeadingDigitsOfPrefixed | changehmname.py:31-32 | the digit run of `digits + rest` is exactly `digits` when `rest` does not go on with a digit |
| Text.LastMdAt | changehmname.py:40 | finds the last occurrence of ".md" ending at or before a position, or reports that there is none |
| Text.BeforeLastMd | changehmname.py:40 | `rsplit('.md', 1)[0]` is a prefix of the name |
| Text.BeforeLastMdOfSuffixed | changehmname.py:40 | on `s + ".md"`, `rsplit('.md', 1)[0]` gives back `s` |
| Text.BeforeLastMdWithoutMd | markexcel.py:17 | a name with no ".md" in it is returned whole |
| Text.DigitChar | changehmname.py:40 | each digit value has a digit character that reads back as that value |
| Text.DecimalString | changehmname.py:40 | the counter is written as a non-empty run of digits |
| Text.DecimalRoundTrip | changehmname.py:40 | reading back the counter's decimal form gives the counter |
| Text.DecimalStringInjective | changehmname.py:40 | different counters are written differently |
| Renamer.LStripHash | changehmname.py:7 | `lstrip('#')` removes exactly a run of '#'; what remains does not start with '#' |
| Renamer.SpacesToHyphens | changehmname.py:8 | `replace(' ', '-')` keeps the length |
| Renamer.SpacesToHyphensAt | changehmname.py:8 | each space becomes '-' and every other character stays in place |
| Renamer.SpacesToHyphensAppend | changehmname.py:8 | replacing distributes over concatenation |
| Renamer.SpacesToHyphensKeeps | changehmname.py:8 | a string without spaces is unchanged |
| Renamer.HyphenChars | changehmname.py:8 | after replacing, no space is left and each character is an old one or '-' |
| Renamer.DropIllegal | changehmname.py:11 | deleting forbidden characters never lengthens the string |
| Renamer.IsIllegal | changehmname.py:11 | the class `[\\/:*?"<>]` plus the vertical bar: exactly nine characters |
| Renamer.DropIllegalChars | changehmname.py:11 | a character survives the deletion exactly when it was present and is not one of the nine characters Windows forbids in file names |
| Renamer.DropIllegalKeepsClean | changehmname.py:11 | a string with nothing forbidden is unchanged |
| Renamer.DropIllegalAppend | changehmname.py:11 | deleting distributes over concatenation |
| Renamer.SliceChars | changehmname.py:7 | every character of a stripped slice occurs in the original |
| Renamer.StrippedChars | changehmname.py:7 | stripping marks and whitespace only removes characters |
| Renamer.FormatTitle | changehmname.py:5-13 | the file-name title has no space and no forbidden character, is no longer than the heading, and each character is from the heading or '-' |
| Renamer.FormatHeading | changehmname.py:5-13 | a heading `# a b: c` of plain words becomes `a-b-c` |
| Renamer.FormatTitleExample | changehmname.py:5-13 | `# HarmonyOS Next: Basics` becomes `HarmonyOS-Next-Basics` |
| Renamer.FirstNonBlank | changehmname.py:16-22 | the title line is the first line that is not blank, stripped, or "untitled" when every line is blank; it is never empty |
| Renamer.IsBlank | changehmname.py:19-20 | a line is skipped when it is empty after `strip()` |
| Renamer.ReadFirstLine | changehmname.py:16-22 | the early-return loop over the lines yields FirstNonBlank |
| Renamer.NoteName | changehmname.py:32 | `f"{prefix}-{title}.md"` keeps the digit prefix as its digit run and is itself a numbered note |
| Renamer.TargetName | changehmname.py:26-32 | the target of a numbered note is a numbered note with the same digit prefix |
| Renamer.IsNumberedNote | changehmname.py:26 | a name is selected when it ends in ".md" and starts with a digit |
| Renamer.CandidateOfNoteName | changehmname.py:38-40 | the k-th collision candidate of `<p>-<t>.md` is `<p>-<t>_k.md` |
| Renamer.Candidate | changehmname.py:38-40 | candidate 0 is the target; candidate k > 0 is the target's text before its last ".md", then `_k`, then ".md" |
| Renamer.CandidateInjective | changehmname.py:39-41 | the collision loop never tries the same name twice |
| Renamer.CandidateNotBase | changehmname.py:39-40 | no suffixed candidate equals the target |
| Renamer.CandidatesBound | changehmname.py:39-41 | if the first k candidates all exist, the directory has at least k names, so the loop ends |
| Renamer.FirstFree | changehmname.py:37-41 | the counter the loop stops at names no existing file, and every earlier candidate exists |
| Renamer.FirstFreeIsLeast | changehmname.py:37-41 | the first free candidate is unique: any k with all earlier candidates taken and its own free is FirstFree |
| Renamer.ChooseFreeName | changehmname.py:37-41 | the `while os.path.exists` loop returns the least free candidate, which is not in the directory |
| Renamer.Moved | changehmname.py:43 | `os.rename` puts the contents under the new name, drops the old name and changes no other file |
| Renamer.Directory.Rename | changehmname.py:43 | the directory after `os.rename` is Moved of the old one |
| Renamer.NewName | changehmname.py:25-41 | a name gets a new name only when it is in the directory and is a numbered note; the new name differs from it, names no existing file, and is a numbered note with the same digit prefix; otherwise the name is absent, not numbered, or already its own target; and a present numbered note that already has its target name gets none |
| Renamer.StepSkips | changehmname.py:35-36 | a note that already has its target name is skipped: its turn changes nothing |
| Renamer.MovesToChosen | changehmname.py:35-43 | moving a note whose target differs from its name onto the first free candidate is exactly one turn of the loop |
| Renamer.Step | changehmname.py:25-43 | one turn of the loop: the listed name moves to its new name when it has one, otherwise nothing changes |
| Renamer.Pass | changehmname.py:25-43 | the whole loop: the turns for the listed names, taken in listing order |
| Renamer.RenameNote | changehmname.py:26-43 | the loop body leaves the directory as Step says for that name |
| Renamer.RenameNotes | changehmname.py:24-44 | the main loop leaves the directory in the state Pass describes for the listing |
| Renamer.IsListing | changehmname.py:25 | what `os.listdir('.')` returns: each name at most once, each a file of the directory |
| Renamer.MovedKeepsCount | changehmname.py:43 | renaming onto a free name keeps the number of files |
| Renamer.StepKeepsCount | changehmname.py:35-43 | one turn of the loop keeps the number of files: nothing is overwritten |
| Renamer.PassKeepsCount | changehmname.py:25-43 | a whole pass keeps the number of files |
| Renamer.StepFrame | changehmname.py:25-43 | one turn leaves every other file with its name and contents, and moves the listed name only when it is a numbered note |
| Renamer.PassFrame | changehmname.py:25-43 | every file that is not listed, or is not a numbered note, keeps its name and contents; every vanished name is a listed numbered note; every new name is a numbered note |
| Renamer.SettledIsFixed | changehmname.py:35-36 | when every numbered note already has its target name, a pass changes nothing |
| Renamer.PassKeepsSettled | changehmname.py:25-43 | a note that already has its target name keeps its name and contents through a whole pass, whatever the other notes do |
| Renamer.TargetIsStable | changehmname.py:31-36 | the target name of a target name is itself |
| Renamer.SuffixedNameMovesAgain | changehmname.py:35-41 | a note given a `_k` name keeps being a numbered note whose target is the plain name, so the next pass moves it again: onto the plain name if that has become free, otherwise onto another `_j` name |
| Catalogue.IsTargetMdFile | markexcel.py:8-13 | the exporter selects a name exactly when the renamer does; the letter test never rejects anything |
| Catalogue.HasAsciiLetter | markexcel.py:12 | `re.search(r'[a-zA-Z]', f)` finds a match: some character is an ASCII letter |
| Catalogue.DigitRunAt | markexcel.py:17 | a digit run followed by a non-digit is the whole leading digit run |
| Catalogue.StripDigitDash | markexcel.py:17 | `re.sub(r'^\d+-', '', f)` removes only digits and one hyphen; when it removes nothing, no digits-then-hyphen prefix exists |
| Catalogue.ExtractTitle | markexcel.py:15-17 | the title is never longer than the name |
| Catalogue.ExtractTitleOfNoteName | markexcel.py:15-17 | the title of `<digits>-<title>.md` is `<title>`, undoing the renamer's naming |
| Catalogue.ExtractTitleOfUnprefixed | markexcel.py:17 | a Markdown name that does not start with digits and a hyphen yields its whole stem, with only the final ".md" removed |
| Catalogue.RenamedNoteTitle | markexcel.py:27 | the title shown for a note the renamer moved is its sanitised first line, plus `_k` when it had to take a suffixed name |
| Catalogue.Link | markexcel.py:28 | every link starts with the repository prefix |
| Catalogue.GithubPrefix | markexcel.py:6 | the repository address every link starts with |
| Catalogue.LinkNamesFile | markexcel.py:28 | the file name is read back from the link after the prefix |
| Catalogue.LinkInjective | markexcel.py:28 | different files get different links |
| Catalogue.RowFor | markexcel.py:27-29 | the row for a file is `[title, link]`: its extracted title and its link |
| Catalogue.Targets | markexcel.py:25-26 | a file is selected exactly when it is listed and passes is_target_md_file |
| Catalogue.TargetsAppend | markexcel.py:25-26 | selection keeps the listing's order |
| Catalogue.RowsFor | markexcel.py:29 | one row per selected file |
| Catalogue.RowsForAt | markexcel.py:29 | row i is the row for the i-th selected file |
| Catalogue.RowsForSnoc | markexcel.py:29 | appending a file appends its row |
| Catalogue.SheetRows | markexcel.py:23-29 | the sheet is the header followed by one row per selected file |
| Catalogue.Header | markexcel.py:23 | the header row `["Title", "GitHub Link"]` |
| Catalogue.SheetRowAt | markexcel.py:23-29 | below the header, sheet row i is row i - 1 of the file rows |
| Catalogue.SheetRowsSnoc | markexcel.py:25-29 | one more listed file adds its row exactly when it is selected |
| Catalogue.CatalogueSound | markexcel.py:25-29 | every row below the header links to a listed, selected file and carries that file's title |
| Catalogue.CatalogueComplete | markexcel.py:25-29 | every listed, selected file has its row in the sheet |
| Catalogue.Sheet.constructor | markexcel.py:20-22 | a new sheet has its title and no rows |
| Catalogue.SheetTitle | markexcel.py:22 | the sheet is named "Markdown Files" |
| Catalogue.Sheet.Append | markexcel.py:29 | `ws.append` adds the row at the end and keeps the title |
| Catalogue.Export | markexcel.py:19-31 | main's loop builds the sheet titled "Markdown Files" holding exactly SheetRows of the listing |

## Left out

- Output: the `print` lines (changehmname.py:44, markexcel.py:30 and 34) write nothing the model tracks.
- Saving the workbook to `md_links.xlsx` through openpyxl (markexcel.py:32-33) is left out. The sheet's rows are the model's output.
- openpyxl's cell typing is left out. For example, it stores a string starting with '=' as a formula. The model treats every cell as plain text.
- Reading a file: a file's contents are given as its lines. An `open` that fails, text that is not valid UTF-8, and the trailing newline Python keeps on each line are not modelled. `strip()` removes the newline anyway.
- `os.listdir` is a parameter: a listing of distinct names in any order. The order is not modelled, and neither is whether an entry is a directory rather than a file.
- Filesystem limits are left out: name length, case-insensitive names, permissions, and a rename that fails. `os.rename` follows POSIX. A pass never relies on that, because it never renames onto an existing name.
- `os.path.exists` is modelled as membership in the listed names. They differ for a dangling symbolic link: `os.listdir` returns it but `os.path.exists` is false for it. The collision loop would then take that name and `os.rename` would replace the link. The no-overwrite and file-count results hold only for directories without dangling links.
- Another process changing the directory during a pass is not modelled.
- Text.IsDigit: `\d` is modelled as the ASCII digits 0-9. Python also matches other Unicode decimal digits. A name starting with such a digit is selected by the scripts but not by the model.
- Only the prefix-keeping naming policy exists in changehmname.py, so no renumbering of notes is modelled.
- Renamer.Step also covers a listed name that is no longer in the directory, and leaves the directory unchanged in that case. RenameNotes shows that this case never arises.
