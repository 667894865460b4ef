/**
 * The converter's entry points as they run: statement by statement against a mutable
 * file system, each proved to leave the state and return the value their specification
 * in `Orchestrator` and `Mhtml` gives.
 */
module HtmlConverter {
  import opened Wrappers
  import opened Paths
  import opened Base64
  import opened Store
  import opened Patterns
  import opened Inliner
  import opened Mhtml
  import opened Orchestrator

  /** The file system the converter works on, and the progress values handed to the callback so far. */
  class Disk {
    var fs: Fs
    var reported: seq<int>

    constructor (initial: Fs)
      ensures fs == initial && reported == []
    {
      fs := initial;
      reported := [];
    }

    /** `os.makedirs(name, exist_ok=True)`; the error it raises, if any. */
    method CreateDirs(name: string) returns (err: Option<OsError>)
      modifies this
      ensures fs == MakeDirs(old(fs), name).0 && err == MakeDirs(old(fs), name).1
      ensures reported == old(reported)
    {
      var made := MakeDirs(fs, name);
      fs := made.0;
      err := made.1;
    }

    /** `open(path, 'w').write(...)` of `data`; `false` when that raises, and then nothing changes. */
    method WriteFile(path: string, data: seq<byte>) returns (ok: bool)
      modifies this
      ensures ok == Write(old(fs), path, data).Some?
      ensures fs == (if ok then Write(old(fs), path, data).value else old(fs))
      ensures reported == old(reported)
    {
      match Write(fs, path, data)
      case None =>
        ok := false;
      case Some(fs') =>
        fs := fs';
        ok := true;
    }

    /** `save_as_mhtml(html_content, output_file, title)` during conversion unit `n`. */
    method SaveAsMhtml(htmlContent: string, outputFile: string, title: string, host: Foreign, n: nat)
      modifies this
      ensures fs == SaveMhtml(old(fs), outputFile, title, htmlContent, host, n)
      ensures reported == old(reported)
    {
      var boundary := BoundaryPrefix + Encode(host.nonce(n));
      var dateStr := host.clock(n);
      var mhtml := MhtmlText(title, dateStr, boundary, htmlContent);
      var ok := WriteFile(outputFile, host.encode(mhtml));
      // A failing write is only reported: no exception leaves save_as_mhtml.
    }

    /**
     * The listing of `folderPath` and its entry document, read as both converters do: `false`
     * when `os.listdir` raises; `None` when there is no `.html` name or the chosen one cannot
     * be read.
     */
    method ReadEntry(folderPath: string) returns (listed: bool, bytes: Option<seq<byte>>)
      ensures listed == ListDir(fs, folderPath).Some?
      ensures bytes == EntryBytes(fs, folderPath)
    {
      var listing := ListDir(fs, folderPath);
      if listing.None? {
        return false, None;
      }
      var htmlFiles := HtmlNames(listing.value);
      if htmlFiles == [] {
        return true, None;
      }
      var mainHtml := if "index.html" in htmlFiles then "index.html" else htmlFiles[0];
      assert SelectEntry(listing.value) == Some(mainHtml);
      bytes := Read(fs, Join(folderPath, mainHtml));
      listed := true;
    }

    /** `convert_single_folder(folder_path, output_format, output_dir)` during conversion unit `n`. */
    method ConvertSingleFolder(folderPath: string, outputFormat: string, outputDir: Option<string>, host: Foreign, n: nat)
      returns (r: Outcome)
      modifies this
      ensures fs == ConvertSingle(old(fs), host, n, folderPath, outputFormat, outputDir).0
      ensures r == ConvertSingle(old(fs), host, n, folderPath, outputFormat, outputDir).1
      ensures reported == old(reported)
    {
      ghost var fs0 := fs;
      var folderName := BaseName(folderPath);
      var outputPath: string;
      if outputDir.Some? && outputDir.value != "" {
        var err := CreateDirs(outputDir.value);
        if err.Some? {
          return Raised;
        }
        outputPath := outputDir.value;
      } else {
        outputPath := DirName(folderPath);
      }
      var outputFile := Join(outputPath, folderName + "." + outputFormat);
      assert fs == Prepare(fs0, outputDir).0 && Prepare(fs0, outputDir).1.None?;
      assert outputFile == OutputFile(folderPath, outputFormat, outputDir);
      var listed, bytes := ReadEntry(folderPath);
      if !listed {
        return Raised;
      }
      if bytes.None? {
        return Returned(None);
      }
      var htmlContent := host.decode(bytes.value);
      htmlContent := Pass(Image, htmlContent, 0, folderPath, fs, host);
      htmlContent := Pass(Stylesheet, htmlContent, 0, folderPath, fs, host);
      htmlContent := Pass(Script, htmlContent, 0, folderPath, fs, host);
      assert htmlContent == Inline(host.decode(bytes.value), folderPath, fs, host);
      var saved := SavePage(htmlContent, outputFile, folderName, outputFormat, host, n);
      return Returned(if saved then Some(outputFile) else None);
    }

    /**
     * The saving step of both converters: `save_as_mhtml` for the format `mhtml`, otherwise a
     * plain write of the page; `false` when the plain write raises.
     */
    method SavePage(htmlContent: string, outputFile: string, title: string, outputFormat: string, host: Foreign, n: nat)
      returns (ok: bool)
      modifies this
      ensures fs == WriteOutput(old(fs), host, n, outputFile, title, outputFormat, htmlContent).0
      ensures ok == WriteOutput(old(fs), host, n, outputFile, title, outputFormat, htmlContent).1
      ensures reported == old(reported)
    {
      if outputFormat == "mhtml" {
        SaveAsMhtml(htmlContent, outputFile, title, host, n);
        ok := true;
      } else {
        ok := WriteFile(outputFile, host.encode(htmlContent));
      }
    }

    /** `convert_folder_to_single_html(folder_path, output_format)` during conversion unit `n`. */
    method ConvertFolderToSingleHtml(folderPath: string, outputFormat: string, host: Foreign, n: nat)
      returns (r: Outcome)
      modifies this
      ensures fs == ConvertLegacy(old(fs), host, n, folderPath, outputFormat).0
      ensures r == ConvertLegacy(old(fs), host, n, folderPath, outputFormat).1
      ensures reported == old(reported)
    {
      var folderName := BaseName(folderPath);
      var outputFile := Join(DirName(folderPath), folderName + "." + outputFormat);
      var listed, bytes := ReadEntry(folderPath);
      if !listed {
        return Raised;
      }
      if bytes.None? {
        return Returned(None);
      }
      var htmlContent := host.decode(bytes.value);
      htmlContent := Pass(Image, htmlContent, 0, folderPath, fs, host);
      htmlContent := Pass(Stylesheet, htmlContent, 0, folderPath, fs, host);
      htmlContent := Pass(Script, htmlContent, 0, folderPath, fs, host);
      var saved := SavePage(htmlContent, outputFile, folderName, outputFormat, host, n);
      return Returned(None);
    }

    /**
     * Round `i` of the loop of `batch_convert` over the subfolders `items` of `folderPath`,
     * started from `start`: subfolder `i` is converted as conversion unit `i`. `convert` is
     * that conversion as a function. Gives the outcome of the conversion.
     */
    method ConvertRound(folderPath: string, items: seq<string>, i: nat, outputFormat: string, outputDir: Option<string>, host: Foreign,
                        ghost convert: Converter, ghost start: Fs)
      returns (o: Outcome)
      requires Converts(convert, host, folderPath, outputFormat, outputDir)
      requires i < |items|
      requires var s := ConvertEach(start, convert, items, i);
        !s.raised && fs == s.fs
      modifies this
      ensures var s := ConvertEach(start, convert, items, i);
        var s' := ConvertEach(start, convert, items, i + 1);
        fs == s'.fs && (o == Raised <==> s'.raised) &&
        (o != Raised ==> s'.reported == s.reported + [(i + 1) * 100 / |items|])
      ensures reported == old(reported)
    {
      ghost var s := ConvertEach(start, convert, items, i);
      var itemPath := Join(folderPath, items[i]);
      o := ConvertSingleFolder(itemPath, outputFormat, outputDir, host, i);
      assert fs == convert(s.fs, i, items[i]).0 && o == convert(s.fs, i, items[i]).1;
    }

    /**
     * The loop of `batch_convert` over its subfolders `items` of `folderPath`: after each
     * round the progress is handed to the callback. Gives `true` when an exception escapes.
     */
    method ConvertSubfolders(folderPath: string, items: seq<string>, outputFormat: string, outputDir: Option<string>, host: Foreign,
                             ghost convert: Converter)
      returns (raised: bool)
      requires Converts(convert, host, folderPath, outputFormat, outputDir)
      modifies this
      ensures var s := ConvertEach(old(fs), convert, items, |items|);
        fs == s.fs && reported == old(reported) + s.reported && raised == s.raised
    {
      var total := |items|;
      ghost var fs0 := fs;
      ghost var r0 := reported;
      for i := 0 to total
        invariant var s := ConvertEach(fs0, convert, items, i);
          !s.raised && fs == s.fs && reported == r0 + s.reported
      {
        var o := ConvertRound(folderPath, items, i, outputFormat, outputDir, host, convert, fs0);
        if o == Raised {
          RaisedSticks(fs0, convert, items, i + 1, total);
          return true;
        }
        var progress := (i + 1) * 100 / total;
        reported := reported + [progress];
      }
      return false;
    }

    /**
     * `batch_convert(folder_path, output_format, output_dir, progress_callback)`: the
     * subfolders one by one, or else the folder itself. Gives `true` when an exception escapes.
     */
    method BatchConvert(folderPath: string, outputFormat: string, outputDir: Option<string>, host: Foreign)
      returns (raised: bool)
      modifies this
      ensures var s := Batch(old(fs), host, folderPath, outputFormat, outputDir);
        fs == s.fs && reported == old(reported) + s.reported && raised == s.raised
    {
      var listing := ListDir(fs, folderPath);
      if listing.None? {
        return true;
      }
      var subfolders := Subfolders(fs, folderPath, listing.value);
      var currentFolderHasHtml := HasTopLevelHtml(fs, folderPath, listing.value);
      if subfolders != [] && !currentFolderHasHtml {
        SubfolderConverts(host, folderPath, outputFormat, outputDir);
        raised := ConvertSubfolders(folderPath, subfolders, outputFormat, outputDir, host,
                                    SubfolderConverter(host, folderPath, outputFormat, outputDir));
      } else {
        var o := ConvertSingleFolder(folderPath, outputFormat, outputDir, host, 0);
        if o == Raised {
          return true;
        }
        reported := reported + [100];
        return false;
      }
    }
  }

  /** `convert` converts the subfolder `item` of `folder` in round `k` as `convert_single_folder` does. */
  ghost predicate Converts(convert: Converter, host: Foreign, folder: string, fmt: string, outputDir: Option<string>) {
    forall fs: Fs, k: nat, item: string {:trigger ConvertSingle(fs, host, k, Join(folder, item), fmt, outputDir)} ::
      convert(fs, k, item) == ConvertSingle(fs, host, k, Join(folder, item), fmt, outputDir)
  }

  /** The converter of the batch converts as `convert_single_folder` does. */
  lemma SubfolderConverts(host: Foreign, folder: string, fmt: string, outputDir: Option<string>)
    ensures Converts(SubfolderConverter(host, folder, fmt, outputDir), host, folder, fmt, outputDir)
  {
  }

  /** Once a round raises, the loop has ended: later rounds change nothing. */
  lemma {:induction false} RaisedSticks(fs: Fs, convert: Converter, items: seq<string>, i: nat, j: nat)
    requires i <= j <= |items|
    requires ConvertEach(fs, convert, items, i).raised
    ensures ConvertEach(fs, convert, items, j) == ConvertEach(fs, convert, items, i)
    decreases j - i
  {
    if i < j {
      RaisedSticks(fs, convert, items, i, j - 1);
    }
  }
}
