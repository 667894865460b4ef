# html-merge-tool converter core, modelled in Dafny

`html_converter.py` turns a folder that holds an HTML page and its local resources into one
self-contained file. It picks the folder's entry document: `index.html`, otherwise the first
`.html` name that `os.listdir` gives. It then rewrites the page in three passes, in this order:

1. images become `data:` URLs in base 64;
2. stylesheet links become `<style>` blocks;
3. script references become inline `<script>` blocks.

The result is written as plain HTML, or as an MHTML message (RFC 2557) with a single
`text/html` part. `batch_convert` either converts every subfolder of a folder, reporting
progress after each one, or converts the folder itself.

The project models that module. It is laid out as follows.

- **`Wrappers`, `Text`** hold `Option` and the Python string operations the converter uses:
  `find`, `replace`, `split`, `join` and slicing.
- **`Base64`** is the RFC 4648 (section 4) encoder behind `base64.b64encode`. A strict decoder
  is its partner, so the round trip can be proved.
- **`Paths`** holds `posixpath`'s `join`, `split`, `basename`, `dirname` and `normpath`.
- **`Greedy`, `Patterns`** are matchers for the three regular expressions, written by hand.
  The matchers try positions in the order Python's backtracking engine does: leftmost start,
  greedy `[^>]*`, and non-overlapping matches as `re.sub` takes them.
- **`Store`** holds the file system as a value.
  - `Fs` has regular files with their bytes, directories with their ordered listings, and
    paths whose `open` raises.
  - `os.mkdir` and `os.makedirs(..., exist_ok=True)` work on that value.
  - `Foreign` gathers the library services the converter only calls: MIME guessing, UTF-8
    decoding and encoding, `os.urandom` and the clock.
- **`Inliner`** holds the three `replace_*` passes: what each match becomes, and `re.sub`
  as a left-to-right pass.
- **`Mhtml`** holds the boundary and the text `save_as_mhtml` writes.
- **`Orchestrator`** holds the pure specification of `convert_single_folder`,
  `convert_folder_to_single_html` and `batch_convert`. Each is a function from a file system
  to a new file system and an outcome: a value returned, or an exception that escapes.
- **`HtmlConverter`** holds the same operations as they run, as methods of a `Disk` object.
  - `Disk` has the file system and the progress values handed to the callback.
  - Each method is proved to leave exactly the state, and return exactly the value, that the
    specification function gives.
  - The batch loop carries a loop invariant tying it to that specification.

Behaviour of the code that a reader might not expect:

- **The image rewrite.** The code calls `str.replace` on the whole tag text between `<img`
  and the closing `>`. So every copy of the `src` value elsewhere in the tag, for example
  inside `alt`, is replaced as well; other attributes are not always kept verbatim.
  `Inliner.ImageTagCarriesUri` states exactly what the tag becomes, copies included.
- **The passes see each other's output.** Within one pass a replacement is not scanned
  again. But the stylesheet pass scans the text the image pass produced, and the script
  pass scans the stylesheet pass's output. So a `<script src="...">` inside an inlined
  stylesheet is inlined in turn; the page is not processed in one pass over the original.
- **Progress.** It is computed by truncation, not rounding.
- **Errors in batch mode.** An exception from `os.makedirs` or `os.listdir` while converting
  one subfolder ends the whole batch. A subfolder without an entry document, or one whose
  output cannot be written, is skipped.
- **The returned path.** `convert_single_folder` returns the path it joined; it is not made
  absolute.
- **MHTML save failures.** When an MHTML write fails, the error is only logged, and the
  output path is still returned (`Orchestrator.MhtmlConversion`).
- **Unreadable text.** Undecodable bytes are dropped (`errors='ignore'`), not replaced.
  This holds for stylesheets and scripts, and for the entry document itself
  (`html_converter.py` lines 50 and 310). The model decodes all three with `host.decode`.

The operations themselves are functions without contracts of their own. What each one
promises is stated by the lemmas in the table below:

- `Patterns.MatchAt`, `Patterns.Search` and `Patterns.Scan` are the three compiled patterns
  (`html_converter.py` lines 92, 144 and 191) and `re.sub`'s walk over the text (lines 125,
  172 and 219). They are stated by `MatchAtWellFormed`, `MatchAtComplete`, `MatchAtIff`,
  `TakesLastAttr`, `TagAtLast`, `AttrPosIsBacktracking`, `Search`, `SearchLeftmost`,
  `ScanMatches` and `ScanComplete`.
- `Inliner.Pass` is one `re.sub` (lines 125, 172, 219). It is stated by `PassIsSpliced` and
  `InertPassIsIdentity`.
- `Inliner.Replacement`, `Inliner.Embed` and `Inliner.ImageTag` are the three `replace_func`
  closures (lines 95-123, 147-170, 194-217). They are stated by `Replacement`,
  `ReplacementOfReadable`, `ImageInlining`, `ImageDataUri`, `ImageTagShape`,
  `ImageTagCarriesUri`, `StylesheetInlining` and `ScriptInlining`.
- `Inliner.Inline` is the three passes in order (lines 318-324). It is stated by
  `InlineKeepsInertDocument`, `InlineKeepsRemoteDocument` and `HtmlConversion`.
- `Mhtml.MhtmlText` is the message `save_as_mhtml` builds (lines 243-259). It is stated by
  `PartText`, `DelimiterChars` and `DelimiterStructure`.
- `Store.Read`, `Store.Write` and `Store.MakeDirs` are `open(...).read()`, `open(..., 'w')`
  and `os.makedirs` (lines 310-311, 331-332, 289). They are stated by `WriteFrame`,
  `ReadAfterWrite`, `MakeDirsMade`, `MakeDirsFrame` and `MakeDirsLineage`.
- `Orchestrator.SelectEntry` and `Orchestrator.OutputFile` (lines 304 and 294) are stated by
  `SelectEntrySpec` and `OutputFileSpec`.
- `Orchestrator.ConvertSingle` is `convert_single_folder` (lines 268-337). It is stated by
  `RaisedWhen`, `NoEntryWritesNothing`, `HtmlConversion`, `MhtmlConversion` and
  `ConvertSingleFrame`, and run by `HtmlConverter.Disk.ConvertSingleFolder`.
- `Orchestrator.ConvertLegacy` is `convert_folder_to_single_html` (lines 22-75). It is stated
  by `LegacyAgrees` and run by `HtmlConverter.Disk.ConvertFolderToSingleHtml`.
- `Orchestrator.ConvertEach` and `Orchestrator.Batch` are the loop of `batch_convert` and the
  whole function (lines 365-373 and 339-380). They are stated by `ConvertEachReports`,
  `ConvertEachProgress`, `BatchSubfolders` and `BatchSingle`, and run by
  `HtmlConverter.Disk.ConvertSubfolders` and `HtmlConverter.Disk.BatchConvert`.

## Model

| member | source | states |
|---|---|---|
| Patterns.MatchAtWellFormed | html_converter.py:92 | a match found at a position has the pattern's shape: the opener, then `rel="stylesheet"` for links, then the attribute literal before the tag head's first `>`, then the captured value and the rest of the pattern |
| Patterns.MatchAtComplete | html_converter.py:92 | wherever a match of the pattern's shape starts, the matcher finds one there, with a value starting no earlier |
| Patterns.MatchAtIff | html_converter.py:92 | a match is found at a position exactly when a match of the pattern's shape starts there |
| Patterns.TakesLastAttr | html_converter.py:92 | the greedy `[^>]*` makes the captured value the last `src="` within the tag before its first `>` |
| Patterns.TagAtLast | html_converter.py:92 | no later attribute position up to the first `>` yields a match |
| Patterns.AttrPosIsBacktracking | html_converter.py:144 | for the stylesheet pattern the chosen `rel="stylesheet"` / `href="` pair is the one backtracking finds: the last `href="` with a match, then the last guard before it |
| Patterns.SearchLeftmost | html_converter.py:125 | the search finds the leftmost match at or after the position, and none means no position matches |
| Patterns.ScanMatches | html_converter.py:125 | the matches `re.sub` replaces are matches at their start, in increasing order and non-overlapping |
| Patterns.ScanComplete | html_converter.py:125 | the scan skips no match: none starts before its first match, between one match's end and the next one's start, or after its last match |
| Patterns.Search | html_converter.py:125 | a match found by the search starts at or after the position, and is the match at its own start |
| Base64.Encode | html_converter.py:117 | the encoding has length 4·⌈n/3⌉ |
| Base64.EncodeAlphabet | html_converter.py:117 | every character of the encoding is a base 64 symbol or `=` |
| Base64.DecodeEncode | html_converter.py:117 | decoding the encoding gives back exactly the file's bytes |
| Paths.NormPath | html_converter.py:104 | the normalised path is never empty |
| Paths.PathSplit | html_converter.py:289 | the head is no longer than the path and strictly shorter when the tail is non-empty; the tail holds no `/` |
| Paths.SplitJoin | html_converter.py:294 | splitting `join(d, n)` gives back `d` and `n` when `n` has no `/` and `d` no trailing `/` |
| Paths.DirNameJoin | html_converter.py:294 | the directory of `join(d, n)` is `d` without trailing slashes (unless `d` is all slashes), and normalises as `d` does |
| Paths.BaseNameJoin | html_converter.py:294 | the base name of `join(d, n)` is `n` |
| Store.WriteFrame | html_converter.py:331-332 | a successful write changes exactly that file, to the written bytes, and keeps locked paths and the set of directories; the parent's listing gains the file's name at its end when it was not listed, and every other listing is unchanged |
| Store.ReadAfterWrite | html_converter.py:331-332 | after a successful write the path reads back the written bytes, and every other path reads as it did before |
| Store.MakeDirsMade | html_converter.py:289 | when `os.makedirs` succeeds the target is a directory afterwards; it fails with "already exists" only when the target is a file |
| Store.MakeDirsFrame | html_converter.py:289 | `os.makedirs` keeps every file and locked path, removes no directory, and every old listing is a prefix of its new listing |
| Inliner.Replacement | html_converter.py:95-123 | a remote or `data:` URL, or one whose file cannot be read, gives the matched text back unchanged |
| Inliner.PassIsSpliced | html_converter.py:125 | a pass is the text between consecutive matches of the scan, kept verbatim, with each match replaced by its replacement, and the rest after the last match |
| Inliner.InertPassIsIdentity | html_converter.py:125 | a pass whose every match is remote or unreadable returns its input unchanged |
| Inliner.InlineKeepsInertDocument | html_converter.py:318-324 | when every match of the three passes is remote or unreadable, the page is unchanged |
| Inliner.InlineKeepsRemoteDocument | html_converter.py:99-100 | a page whose every reference is `http://`, `https://` or `data:` is unchanged |
| Inliner.ReplacementOfReadable | html_converter.py:103-117 | a local readable reference is embedded from the file at the joined, normalised path |
| Inliner.ImageInlining | html_converter.py:110-120 | a local readable image becomes the rewritten tag carrying `data:<mime>;base64,<encoding of the bytes>` |
| Inliner.ImageDataUri | html_converter.py:111-117 | the type falls back to `image/unknown`; the payload decodes to the file's bytes and has length 4·⌈n/3⌉ |
| Inliner.ImageTagShape | html_converter.py:120 | the rewritten tag starts with `<img` and ends with `>` |
| Inliner.ImageMatchShaped | html_converter.py:92 | in every image match the value is preceded by a quote at least five characters into the tag, holds no quote, and is followed by a quote that lies before the final `>`: the shape `ImageTagCarriesUri` requires |
| Inliner.ImageTagCarriesUri | html_converter.py:120 | the rewritten tag is `<img`, the text before the value with every copy of the value replaced, the data URL, the closing quote, the rest of the tag with every copy replaced, then `>`; the text before the value is kept verbatim when it holds no copy |
| Inliner.ReplaceValue | html_converter.py:120 | replacing in text that has the quoted value followed by more text replaces around the value: the text before it, the value itself and the text after it are handled separately |
| Inliner.StylesheetInlining | html_converter.py:162-167 | a local readable stylesheet link becomes exactly `<style>`, newline, the decoded text, newline, `</style>` |
| Inliner.ScriptInlining | html_converter.py:209-214 | a local readable script becomes exactly `<script>`, newline, the decoded text, newline, `</script>` |
| Mhtml.Boundary | html_converter.py:237 | the boundary is 42 characters and starts with `----=MHTMLBoundary` |
| Mhtml.BoundaryChars | html_converter.py:237 | every boundary character is a base 64 symbol, `-` or `=` |
| Mhtml.BoundaryConforms | html_converter.py:237 | the boundary is a valid RFC 2046 (section 5.1.1) boundary: 1 to 70 characters, all from `bcharsnospace` |
| Mhtml.DelimiterChars | html_converter.py:251 | the delimiter `--boundary` is 44 characters, without line breaks or quotes |
| Mhtml.PartText | html_converter.py:252-256 | the body part is its three headers, a blank line, the page verbatim, then a line break |
| Mhtml.DelimiterStructure | html_converter.py:243-259 | the message holds the delimiter exactly twice: the headers before it, the one body part between, and the closing `--` after |
| Mhtml.SaveMhtml | html_converter.py:261-266 | when the output file can be opened, the new file system is the one writing the message gives and the file reads back as the message; when it cannot, the file system is unchanged |
| Orchestrator.HtmlNames | html_converter.py:298 | a name is kept exactly when it is listed and ends with `.html` |
| Orchestrator.HtmlNamesFirst | html_converter.py:298 | the first kept name is the first listed `.html` name |
| Orchestrator.SelectEntrySpec | html_converter.py:304 | there is an entry iff some listed name ends with `.html`; it is `index.html` when that is listed, else the first `.html` name |
| Orchestrator.OutputFileSpec | html_converter.py:294 | the output file's base name is the folder's base name plus `.` and the format; its directory is the output directory without trailing slashes (unless it is all slashes), the same directory once normalised |
| Orchestrator.PrepareFrame | html_converter.py:287-292 | preparing keeps every file and locked path, and each old listing is a prefix of its new one; the only directories it may create are the output directory and its ancestors, and when it succeeds the output directory exists; no directory and an empty one both change nothing |
| Orchestrator.MakeDirsLineage | html_converter.py:289 | `os.makedirs` creates no directory other than the target and its ancestors |
| Orchestrator.RaisedWhen | html_converter.py:287-298 | an exception escapes exactly when `os.makedirs` or `os.listdir` raises |
| Orchestrator.NoEntryWritesNothing | html_converter.py:299-301 | a folder without `.html` names gives `None` and writes nothing |
| Orchestrator.HtmlConversion | html_converter.py:317-337 | plain output: images, then stylesheets, then scripts are inlined; the path is returned iff the write succeeds, and then the file holds the page; otherwise nothing is written |
| Orchestrator.MhtmlConversion | html_converter.py:327-334 | MHTML output: the path is always returned; when the output file can be opened, the new file system is the one writing the message gives and the file reads back as the message, otherwise it is the one before saving |
| Orchestrator.WriteOutputFrame | html_converter.py:327-332 | saving changes no file but the output file, keeps the set of directories, changes no listing but the output's parent's, and that one only by adding the output's name at its end |
| Orchestrator.ConvertSingleFrame | html_converter.py:268-337 | a conversion is the preparation, which keeps every file and keeps each old listing as a prefix of its new one, followed by at most the write of the output file, which changes no other file and no listing but the output's parent's, by adding the output's name at its end; it creates no directory outside the output directory's lineage |
| Orchestrator.LegacyAgrees | html_converter.py:22-75 | the older function changes the file system exactly as `convert_single_folder` without an output directory, raises exactly when it does, and returns `None` |
| Orchestrator.Subfolders | html_converter.py:354 | a name is kept exactly when it is listed and is a directory inside the folder |
| Orchestrator.SubfoldersInOrder | html_converter.py:354 | the subfolders are the listing's directory entries at increasing positions covering every directory entry: listing order and multiplicity are kept |
| Orchestrator.SubfoldersNonEmpty | html_converter.py:354 | there are subfolders iff some listed name is a directory |
| Orchestrator.ProgressBounds | html_converter.py:370 | every progress value is between 0 and 100 |
| Orchestrator.ProgressMonotone | html_converter.py:370 | progress never decreases |
| Orchestrator.ProgressLast | html_converter.py:370 | the last round's progress is 100 |
| Orchestrator.ConvertEachReports | html_converter.py:365-373 | after `i` rounds the reports are the progress of rounds 0, 1, … in order, one per round unless an exception ended the loop |
| Orchestrator.ConvertEachProgress | html_converter.py:365-373 | a whole batch reports at most one value per subfolder, exactly one each with the last 100 when nothing raised, all in 0..100 and non-decreasing |
| Orchestrator.BatchSubfolders | html_converter.py:359-373 | with a subdirectory and no top-level `.html` file, the batch is the loop over the subfolders |
| Orchestrator.BatchSingle | html_converter.py:374-380 | otherwise the batch is one conversion of the folder, reporting exactly `[100]` unless it raises |
| HtmlConverter.Disk.CreateDirs | html_converter.py:289 | the new state and error are those of `os.makedirs` |
| HtmlConverter.Disk.WriteFile | html_converter.py:331-332 | the write succeeds exactly when it can, and only then changes the file system |
| HtmlConverter.Disk.SaveAsMhtml | html_converter.py:223-266 | the new file system is that of writing the message with this unit's nonce and date |
| HtmlConverter.Disk.ReadEntry | html_converter.py:298-315 | reports whether the folder could be listed, and gives the entry document's bytes when there is a readable entry |
| HtmlConverter.Disk.SavePage | html_converter.py:327-332 | saves as MHTML or as plain HTML, with the specified state and success |
| HtmlConverter.Disk.ConvertSingleFolder | html_converter.py:268-337 | the new file system and the outcome are exactly those of the conversion's specification |
| HtmlConverter.Disk.ConvertFolderToSingleHtml | html_converter.py:22-75 | the new file system and the outcome are exactly those of the older function's specification |
| HtmlConverter.Disk.ConvertRound | html_converter.py:365-373 | one round converts subfolder `i` and moves the loop's state one round on |
| HtmlConverter.Disk.ConvertSubfolders | html_converter.py:359-373 | the loop over the subfolders leaves the state and reports of the specified batch loop |
| HtmlConverter.Disk.BatchConvert | html_converter.py:339-380 | the new file system, the reported values and whether an exception escapes are exactly those of the batch's specification |
| HtmlConverter.RaisedSticks | html_converter.py:365-367 | once a round raises, no later round runs |

## Left out

- Orchestrator.Progress: the exact floor of `(i + 1) · 100 / total`. The source divides in
  floating point and then truncates, which can give one less (29 of 100 gives 28). The
  bounds, monotonicity and the final 100 hold either way; the exact values can differ.
- HtmlConverter.Disk.BatchConvert: records every progress value as if a callback were
  given. Without a callback the source reports nothing; the conversions are the same.
- Mhtml.DelimiterStructure: proved only when the title, the date and the page do not
  contain the delimiter. The source does not check this. The delimiter carries 128 random
  bits, so a page that contains it is not one the model covers.
- Logging: all `print` output and the `processed_count` counters, which only feed it.
- MIME type guessing, UTF-8 decoding and encoding, `os.urandom` and `time.strftime` are the
  parameters in `Foreign`. Conversion unit `n` gets its own nonce and date.
- Exception types: the model records only whether an exception escapes. It stands for any
  `OSError` from `os.makedirs` or `os.listdir`, not for its message or class.
- The file system: its rules for when opening, listing and creating fail are the model's
  own. A path is a file, a directory or neither; a locked path raises when opened. Write
  failures caused by encoding and disk space are not modelled, and links, permissions
  beyond locking, and timestamps are left out.
- Concurrency: the converter is modelled as the only writer of the file system.
- Regular expressions in general: only the three patterns the converter compiles are
  modelled.
- The command-line entry point, the GUIs, the Avalonia front end, the runtime hook and the
  helper scripts are not part of this model.
