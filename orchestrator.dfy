/**
 * `convert_single_folder`, its older duplicate `convert_folder_to_single_html`, and
 * `batch_convert`, each as a function from the file system it starts from to the file
 * system it leaves and what it returns. The methods of `HtmlConverter.Disk` are proved
 * to do exactly this.
 */
module Orchestrator {
  import opened Wrappers
  import opened Text
  import opened Paths
  import opened Base64
  import opened Store
  import opened Patterns
  import opened Inliner
  import opened Mhtml

  /** What a conversion gives its caller: a returned value (a path or `None`), or an escaping exception. */
  datatype Outcome = Returned(file: Option<string>) | Raised

  predicate IsHtmlName(name: string) {
    EndsWith(name, ".html")
  }

  /** The listed names that end with `.html`, in listing order. */
  function HtmlNames(listing: seq<string>): (r: seq<string>)
    decreases |listing|
    ensures forall x :: x in r <==> x in listing && IsHtmlName(x)
  {
    if |listing| == 0 then []
    else
      var rest := HtmlNames(listing[1..]);
      assert forall x :: x in listing <==> x == listing[0] || x in listing[1..];
      if IsHtmlName(listing[0]) then [listing[0]] + rest else rest
  }

  /** The first name `HtmlNames` keeps is the first `.html` name of the listing. */
  lemma {:induction false} HtmlNamesFirst(listing: seq<string>)
    requires HtmlNames(listing) != []
    ensures exists k ::
      0 <= k < |listing| && listing[k] == HtmlNames(listing)[0] && forall j :: 0 <= j < k ==> !IsHtmlName(listing[j])
    decreases |listing|
  {
    if !IsHtmlName(listing[0]) {
      HtmlNamesFirst(listing[1..]);
      var k :| 0 <= k < |listing[1..]| && listing[1..][k] == HtmlNames(listing[1..])[0] &&
        forall j :: 0 <= j < k ==> !IsHtmlName(listing[1..][j]);
      assert listing[k + 1] == HtmlNames(listing)[0];
      forall j | 0 <= j < k + 1 ensures !IsHtmlName(listing[j]) {
        if j > 0 {
          assert listing[j] == listing[1..][j - 1];
        }
      }
    } else {
      assert listing[0] == HtmlNames(listing)[0];
    }
  }

  /** The entry document: `index.html` when it is among the `.html` names, otherwise the first of them; `None` when there is none. */
  function SelectEntry(listing: seq<string>): Option<string> {
    var names := HtmlNames(listing);
    if names == [] then None
    else if "index.html" in names then Some("index.html")
    else Some(names[0])
  }

  /**
   * There is an entry exactly when some listed name ends with `.html`. It is `index.html`
   * when that is listed, and otherwise the first `.html` name in listing order.
   */
  lemma SelectEntrySpec(listing: seq<string>)
    ensures SelectEntry(listing).None? <==> forall x :: x in listing ==> !IsHtmlName(x)
    ensures "index.html" in listing ==> SelectEntry(listing) == Some("index.html")
    ensures "index.html" !in listing && SelectEntry(listing).Some? ==>
      exists k :: 0 <= k < |listing| && listing[k] == SelectEntry(listing).value && IsHtmlName(listing[k]) &&
        forall j :: 0 <= j < k ==> !IsHtmlName(listing[j])
  {
    var names := HtmlNames(listing);
    assert IsHtmlName("index.html");
    if names != [] {
      HtmlNamesFirst(listing);
      assert names[0] in names;
    } else {
      forall x | x in listing ensures !IsHtmlName(x) {
        assert x !in names;
      }
    }
  }

  /** `output_dir` when it is truthy (given and not empty), otherwise the folder's parent. */
  function OutputDir(folder: string, outputDir: Option<string>): string {
    if outputDir.Some? && outputDir.value != "" then outputDir.value else DirName(folder)
  }

  /** The output file: the folder's base name with the format as extension, joined to the output directory or, without one, to the folder's parent. */
  function OutputFile(folder: string, fmt: string, outputDir: Option<string>): string {
    Join(OutputDir(folder, outputDir), BaseName(folder) + "." + fmt)
  }

  /**
   * The output file is named after the folder with the format as extension, and
   * lies in the output directory: its directory is the output directory without
   * trailing slashes (unless it is all slashes), the same directory once normalised.
   */
  lemma OutputFileSpec(folder: string, fmt: string, outputDir: Option<string>)
    requires '/' !in fmt
    ensures BaseName(OutputFile(folder, fmt, outputDir)) == BaseName(folder) + "." + fmt
    ensures var d := OutputDir(folder, outputDir);
      d == "" || d[|d| - 1] != '/' ==> DirName(OutputFile(folder, fmt, outputDir)) == d
    ensures var d := OutputDir(folder, outputDir);
      DirName(OutputFile(folder, fmt, outputDir)) == if d != "" && !AllSlashes(d) then StripTrailingSlashes(d) else d
    ensures NormPath(DirName(OutputFile(folder, fmt, outputDir))) == NormPath(OutputDir(folder, outputDir))
  {
    var n := BaseName(folder) + "." + fmt;
    var b := BaseName(folder);
    forall i | 0 <= i < |n| ensures n[i] != '/' {
      if i < |b| {
        assert n[i] == b[i];
      } else if i > |b| {
        assert n[i] == fmt[i - |b| - 1];
      }
    }
    BaseNameJoin(OutputDir(folder, outputDir), n);
    var d := OutputDir(folder, outputDir);
    if d == "" || d[|d| - 1] != '/' {
      SplitJoin(d, n);
    }
    DirNameJoin(d, n);
  }

  /** `os.makedirs(output_dir, exist_ok=True)` when `output_dir` is truthy; nothing otherwise. */
  function Prepare(fs: Fs, outputDir: Option<string>): (Fs, Option<OsError>) {
    if outputDir.Some? && outputDir.value != "" then MakeDirs(fs, outputDir.value) else (fs, None)
  }

  /** The bytes of the entry document of `folder`, when it has one and it can be read. */
  function EntryBytes(fs: Fs, folder: string): Option<seq<byte>> {
    match ListDir(fs, folder)
    case None => None
    case Some(listing) =>
      match SelectEntry(listing)
      case None => None
      case Some(main) => Read(fs, Join(folder, main))
  }

  /**
   * Saving the converted page to `out`: `save_as_mhtml` for the format `mhtml`, which never
   * fails to its caller, otherwise a plain write. Gives `false` when the plain write raises.
   */
  function WriteOutput(fs: Fs, host: Foreign, n: nat, out: string, title: string, fmt: string, html: string): (Fs, bool) {
    if fmt == "mhtml" then (SaveMhtml(fs, out, title, html, host, n), true)
    else
      match Write(fs, out, host.encode(html))
      case None => (fs, false)
      case Some(fs') => (fs', true)
  }

  /**
   * `convert_single_folder(folder, fmt, output_dir)` during conversion unit `n`: an exception
   * escapes from `os.makedirs` and `os.listdir`; a folder without a readable entry document
   * gives `None`; otherwise the page with its resources inlined is saved and the output
   * path returned, or `None` when saving raises.
   */
  function ConvertSingle(fs: Fs, host: Foreign, n: nat, folder: string, fmt: string, outputDir: Option<string>): (Fs, Outcome) {
    var (fs1, err) := Prepare(fs, outputDir);
    if err.Some? || ListDir(fs1, folder).None? then (fs1, Raised)
    else
      var out := OutputFile(folder, fmt, outputDir);
      match EntryBytes(fs1, folder)
      case None => (fs1, Returned(None))
      case Some(data) =>
        var html := Inline(host.decode(data), folder, fs1, host);
        var (fs2, ok) := WriteOutput(fs1, host, n, out, BaseName(folder), fmt, html);
        (fs2, Returned(if ok then Some(out) else None))
  }

  /** `convert_folder_to_single_html(folder, fmt)`: the same steps without an output directory; it always returns `None`. */
  function ConvertLegacy(fs: Fs, host: Foreign, n: nat, folder: string, fmt: string): (Fs, Outcome) {
    var name := BaseName(folder);
    var out := Join(DirName(folder), name + "." + fmt);
    match ListDir(fs, folder)
    case None => (fs, Raised)
    case Some(listing) =>
      match SelectEntry(listing)
      case None => (fs, Returned(None))
      case Some(main) =>
        match Read(fs, Join(folder, main))
        case None => (fs, Returned(None))
        case Some(data) =>
          var html := Inline(host.decode(data), folder, fs, host);
          (WriteOutput(fs, host, n, out, name, fmt, html).0, Returned(None))
  }

  /**
   * The older function leaves the file system exactly as `convert_single_folder` without
   * an output directory does, raises exactly when it raises, and returns `None`.
   */
  lemma LegacyAgrees(fs: Fs, host: Foreign, n: nat, folder: string, fmt: string)
    ensures ConvertLegacy(fs, host, n, folder, fmt).0 == ConvertSingle(fs, host, n, folder, fmt, None).0
    ensures ConvertLegacy(fs, host, n, folder, fmt).1 == Raised <==> ConvertSingle(fs, host, n, folder, fmt, None).1 == Raised
    ensures ConvertLegacy(fs, host, n, folder, fmt).1 != Raised ==> ConvertLegacy(fs, host, n, folder, fmt).1 == Returned(None)
  {
    assert Prepare(fs, None) == (fs, None);
    assert OutputFile(folder, fmt, None) == Join(DirName(folder), BaseName(folder) + "." + fmt);
  }

  /** A conversion raises exactly when creating the output directory fails or the folder cannot be listed. */
  lemma RaisedWhen(fs: Fs, host: Foreign, n: nat, folder: string, fmt: string, outputDir: Option<string>)
    ensures ConvertSingle(fs, host, n, folder, fmt, outputDir).1 == Raised
        <==> Prepare(fs, outputDir).1.Some? || ListDir(Prepare(fs, outputDir).0, folder).None?
  {
  }

  /** A folder whose listing has no `.html` name converts to nothing: `None`, and no file is written. */
  lemma NoEntryWritesNothing(fs: Fs, host: Foreign, n: nat, folder: string, fmt: string, outputDir: Option<string>)
    requires Prepare(fs, outputDir).1.None?
    requires var l := ListDir(Prepare(fs, outputDir).0, folder);
      l.Some? && forall x :: x in l.value ==> !IsHtmlName(x)
    ensures ConvertSingle(fs, host, n, folder, fmt, outputDir) == (Prepare(fs, outputDir).0, Returned(None))
    ensures ConvertSingle(fs, host, n, folder, fmt, outputDir).0.files == fs.files
  {
    SelectEntrySpec(ListDir(Prepare(fs, outputDir).0, folder).value);
    PrepareFrame(fs, outputDir);
  }

  /**
   * Creating the output directory touches no file, keeps every listing's entries in order,
   * and creates no directory but the output directory and its missing ancestors; without
   * an output directory nothing happens.
   */
  lemma PrepareFrame(fs: Fs, outputDir: Option<string>)
    ensures KeepsFiles(fs, Prepare(fs, outputDir).0)
    ensures outputDir.Some? && outputDir.value != "" ==>
      Prepare(fs, outputDir).0.dirs.Keys <= fs.dirs.Keys + Lineage(outputDir.value)
    ensures outputDir.Some? && outputDir.value != "" && Prepare(fs, outputDir).1.None? ==>
      IsDir(Prepare(fs, outputDir).0, outputDir.value)
    ensures outputDir.None? || outputDir == Some("") ==> Prepare(fs, outputDir) == (fs, None)
  {
    if outputDir.Some? && outputDir.value != "" {
      MakeDirsMade(fs, outputDir.value);
      MakeDirsFrame(fs, outputDir.value);
      MakeDirsLineage(fs, outputDir.value);
    }
  }

  /**
   * A conversion into HTML returns the output path exactly when it wrote there the entry
   * document with images, then stylesheets, then scripts inlined; otherwise it returns
   * `None` and writes nothing.
   */
  lemma HtmlConversion(fs: Fs, host: Foreign, n: nat, folder: string, fmt: string, outputDir: Option<string>)
    requires fmt != "mhtml"
    requires Prepare(fs, outputDir).1.None? && ListDir(Prepare(fs, outputDir).0, folder).Some?
    ensures var fs1 := Prepare(fs, outputDir).0;
      var r := ConvertSingle(fs, host, n, folder, fmt, outputDir);
      var out := OutputFile(folder, fmt, outputDir);
      match EntryBytes(fs1, folder)
      case None => r == (fs1, Returned(None))
      case Some(data) =>
        var s0 := host.decode(data);
        var s1 := Pass(Image, s0, 0, folder, fs1, host);
        var s2 := Pass(Stylesheet, s1, 0, folder, fs1, host);
        var s3 := Pass(Script, s2, 0, folder, fs1, host);
        (r.1 == Returned(Some(out)) <==> Write(fs1, out, host.encode(s3)).Some?) &&
        (r.1 == Returned(Some(out)) ==> Read(r.0, out) == Some(host.encode(s3))) &&
        (r.1 != Returned(Some(out)) ==> r == (fs1, Returned(None)))
  {
    var fs1 := Prepare(fs, outputDir).0;
    match EntryBytes(fs1, folder)
    case None =>
    case Some(data) =>
      var html := Inline(host.decode(data), folder, fs1, host);
      var out := OutputFile(folder, fmt, outputDir);
      if Write(fs1, out, host.encode(html)).Some? {
        WriteFrame(fs1, out, host.encode(html));
      }
  }

  /**
   * A conversion into MHTML writes the message whenever the output file can be opened, and
   * returns the output path whenever the entry document was read, whether or not the
   * message could be written, because `save_as_mhtml` swallows the error.
   */
  lemma MhtmlConversion(fs: Fs, host: Foreign, n: nat, folder: string, outputDir: Option<string>)
    requires Prepare(fs, outputDir).1.None? && ListDir(Prepare(fs, outputDir).0, folder).Some?
    ensures var fs1 := Prepare(fs, outputDir).0;
      var r := ConvertSingle(fs, host, n, folder, "mhtml", outputDir);
      var out := OutputFile(folder, "mhtml", outputDir);
      match EntryBytes(fs1, folder)
      case None => r == (fs1, Returned(None))
      case Some(data) =>
        var html := Inline(host.decode(data), folder, fs1, host);
        var text := MhtmlText(BaseName(folder), host.clock(n), Boundary(host.nonce(n)), html);
        var w := Write(fs1, out, host.encode(text));
        r.1 == Returned(Some(out)) &&
        (w.Some? ==> r.0 == w.value && Read(r.0, out) == Some(host.encode(text))) &&
        (w.None? ==> r.0 == fs1)
  {
    var fs1 := Prepare(fs, outputDir).0;
    match EntryBytes(fs1, folder)
    case None =>
    case Some(data) =>
      var html := Inline(host.decode(data), folder, fs1, host);
      var out := OutputFile(folder, "mhtml", outputDir);
      var text := MhtmlText(BaseName(folder), host.clock(n), Boundary(host.nonce(n)), html);
      if Write(fs1, out, host.encode(text)).Some? {
        WriteFrame(fs1, out, host.encode(text));
      }
  }

  /**
   * `fs'` is `fs` with at most the file at key `k` written: the same locked paths and
   * directories, and every listing but that of `k`'s parent as it was. Either no file
   * changed and neither did that listing, or the file at `k` was written and the listing
   * gained `k`'s name at its end when the name was not listed yet.
   */
  predicate OnlyWrites(fs: Fs, fs': Fs, k: string) {
    fs'.locked == fs.locked && fs'.dirs.Keys == fs.dirs.Keys &&
    (forall d :: d in fs.dirs && d != Parent(k) ==> fs'.dirs[d] == fs.dirs[d]) &&
    ((fs'.files == fs.files && (Parent(k) in fs.dirs ==> fs'.dirs[Parent(k)] == fs.dirs[Parent(k)])) ||
     (k in fs'.files && fs'.files == fs.files[k := fs'.files[k]] && Parent(k) in fs.dirs &&
      fs'.dirs[Parent(k)] == fs.dirs[Parent(k)] + (if BaseName(k) in fs.dirs[Parent(k)] then [] else [BaseName(k)])))
  }

  /** The directory `os.makedirs(name)` creates and the ancestors `os.path.split` peels off it. */
  function Lineage(name: string): set<string>
    decreases |name|
  {
    var (h0, t0) := PathSplit(name);
    var (h, t) := if t0 == "" then PathSplit(h0) else (h0, t0);
    {Key(name)} + if h != "" && t != "" then Lineage(h) else {}
  }

  /** `os.makedirs(name)` creates no directory outside `Lineage(name)`. */
  lemma {:induction false} MakeDirsLineage(fs: Fs, name: string)
    ensures MakeDirs(fs, name).0.dirs.Keys <= fs.dirs.Keys + Lineage(name)
    decreases |name|
  {
    var (h0, t0) := PathSplit(name);
    var (h, t) := if t0 == "" then PathSplit(h0) else (h0, t0);
    if h != "" && t != "" && !Exists(fs, h) {
      MakeDirsLineage(fs, h);
      var (fs1, e1) := MakeDirs(fs, h);
      MkdirLineage(fs1, name);
      var r := MakeDirs(fs, name).0;
      if (e1.Some? && e1.value != AlreadyExists) || t == "." {
        assert r.dirs == fs1.dirs;
      } else {
        assert r.dirs == MkdirExistOk(fs1, name).0.dirs;
      }
      assert r.dirs.Keys <= fs1.dirs.Keys + {Key(name)};
      assert Lineage(name) == {Key(name)} + Lineage(h);
      SubsetChain(r.dirs.Keys, fs1.dirs.Keys, fs.dirs.Keys, {Key(name)}, Lineage(h));
    } else {
      MkdirLineage(fs, name);
      assert Key(name) in Lineage(name);
      assert MakeDirs(fs, name) == MkdirExistOk(fs, name);
    }
  }

  /** Two steps that each add at most some elements add at most both sets of them. */
  lemma SubsetChain(a: set<string>, b: set<string>, c: set<string>, x: set<string>, y: set<string>)
    requires a <= b + x && b <= c + y
    ensures a <= c + (x + y)
  {
  }

  /** One `os.mkdir(name)` creates at most the directory `name`. */
  lemma MkdirLineage(fs: Fs, name: string)
    ensures MkdirExistOk(fs, name).0.dirs.Keys <= fs.dirs.Keys + {Key(name)}
  {
    var k := Key(name);
    AddNameKeys(fs.dirs, Parent(k), BaseName(k));
    assert Mkdir(fs, name).0 == fs || Mkdir(fs, name).0.dirs == AddName(fs.dirs, Parent(k), BaseName(k))[k := []];
  }

  /** Saving the page writes at most the output file. */
  lemma WriteOutputFrame(fs: Fs, host: Foreign, n: nat, out: string, title: string, fmt: string, html: string)
    ensures OnlyWrites(fs, WriteOutput(fs, host, n, out, title, fmt, html).0, Key(out))
  {
    var bytes := if fmt == "mhtml" then host.encode(MhtmlText(title, host.clock(n), Boundary(host.nonce(n)), html))
                 else host.encode(html);
    if Write(fs, out, bytes).Some? {
      WriteFrame(fs, out, bytes);
    }
  }

  /**
   * A conversion changes no file but the output file, removes nothing, and creates no
   * directory except the output directory and its missing ancestors.
   */
  lemma ConvertSingleFrame(fs: Fs, host: Foreign, n: nat, folder: string, fmt: string, outputDir: Option<string>)
    ensures var fs' := ConvertSingle(fs, host, n, folder, fmt, outputDir).0;
      var fs1 := Prepare(fs, outputDir).0;
      KeepsFiles(fs, fs1) && OnlyWrites(fs1, fs', Key(OutputFile(folder, fmt, outputDir))) &&
      fs'.dirs.Keys <= fs.dirs.Keys + (if outputDir.Some? && outputDir.value != "" then Lineage(outputDir.value) else {})
  {
    var (fs1, err) := Prepare(fs, outputDir);
    PrepareFrame(fs, outputDir);
    if outputDir.Some? && outputDir.value != "" {
      MakeDirsLineage(fs, outputDir.value);
    }
    if err.None? && ListDir(fs1, folder).Some? && EntryBytes(fs1, folder).Some? {
      var html := Inline(host.decode(EntryBytes(fs1, folder).value), folder, fs1, host);
      WriteOutputFrame(fs1, host, n, OutputFile(folder, fmt, outputDir), BaseName(folder), fmt, html);
    }
  }

  /** The listed names that are directories inside `folder`, in listing order. */
  function Subfolders(fs: Fs, folder: string, listing: seq<string>): (r: seq<string>)
    decreases |listing|
    ensures forall x :: x in r <==> x in listing && IsDir(fs, Join(folder, x))
  {
    if |listing| == 0 then []
    else
      var rest := Subfolders(fs, folder, listing[1..]);
      assert forall x :: x in listing <==> x == listing[0] || x in listing[1..];
      if IsDir(fs, Join(folder, listing[0])) then [listing[0]] + rest else rest
  }

  /** The positions in `idx` strictly increase. */
  predicate Increasing(idx: seq<nat>) {
    forall i, j :: 0 <= i < j < |idx| ==> idx[i] < idx[j]
  }

  /** Every position of `idx` moved up by one. */
  function Shift(idx: seq<nat>): (r: seq<nat>)
    ensures |r| == |idx| && forall i :: 0 <= i < |idx| ==> r[i] == idx[i] + 1
  {
    seq(|idx|, i requires 0 <= i < |idx| => idx[i] + 1)
  }

  /** Moving up keeps positions increasing, and leaves room for a 0 in front. */
  lemma ShiftIncreasing(idx: seq<nat>)
    requires Increasing(idx)
    ensures Increasing(Shift(idx)) && Increasing([0] + Shift(idx))
  {
    var sh := Shift(idx);
    forall i, j | 0 <= i < j < |sh| + 1 ensures ([0] + sh)[i] < ([0] + sh)[j] {
      if i > 0 { assert idx[i - 1] < idx[j - 1]; }
    }
  }

  /**
   * `idx` is, in increasing order, every position of `s` whose element is in `keep`,
   * and `r` holds the elements at those positions.
   */
  ghost predicate Picks<T>(s: seq<T>, keep: set<T>, r: seq<T>, idx: seq<nat>) {
    |idx| == |r| && Increasing(idx) &&
    (forall i :: 0 <= i < |idx| ==> idx[i] < |s| && r[i] == s[idx[i]] && r[i] in keep) &&
    (forall p :: Kept(s, keep, p) ==> p in idx)
  }

  /** Position `p` of `s` holds a kept element. */
  predicate Kept<T>(s: seq<T>, keep: set<T>, p: int) {
    0 <= p < |s| && s[p] in keep
  }

  /** Picks of `s`, moved up by one and led by 0 when `x` is kept, are picks of `[x] + s`. */
  lemma PicksPrepend<T>(x: T, s: seq<T>, keep: set<T>, r: seq<T>, idx: seq<nat>) returns (ext: seq<nat>)
    requires Picks(s, keep, r, idx)
    ensures Picks([x] + s, keep, if x in keep then [x] + r else r, ext)
  {
    var xs := [x] + s;
    var sh := Shift(idx);
    ShiftIncreasing(idx);
    forall i | 0 <= i < |sh| ensures 0 < sh[i] < |xs| && r[i] == xs[sh[i]] {
      assert xs[sh[i]] == s[idx[i]];
    }
    forall p | 0 < p < |xs| && xs[p] in keep ensures p in sh {
      assert xs[p] == s[p - 1] && Kept(s, keep, p - 1);
      var i :| 0 <= i < |idx| && idx[i] == p - 1;
      assert sh[i] == p;
    }
    if x in keep {
      var r0 := [x] + r;
      ext := [0] + sh;
      forall i | 0 <= i < |ext| ensures ext[i] < |xs| && r0[i] == xs[ext[i]] && r0[i] in keep {
        if i > 0 { assert ext[i] == sh[i - 1] && r0[i] == r[i - 1]; }
      }
      forall p | Kept(xs, keep, p) ensures p in ext {
        if p > 0 { assert p in sh; }
      }
    } else {
      ext := sh;
      forall p | Kept(xs, keep, p) ensures p in ext {
        assert p != 0;
      }
    }
  }

  /**
   * The subfolders are the directory entries of the listing, each as often as it is listed,
   * in listing order: the order in which the batch converts them. `idx` gives their positions.
   */
  lemma SubfoldersInOrder(fs: Fs, folder: string, listing: seq<string>)
    ensures exists idx :: Picks(listing, DirNames(fs, folder, listing), Subfolders(fs, folder, listing), idx)
  {
    SubfoldersPick(fs, folder, listing, DirNames(fs, folder, listing));
  }

  /** The names in `listing` that are directories inside `folder`. */
  function DirNames(fs: Fs, folder: string, listing: seq<string>): (r: set<string>)
    ensures forall x :: x in r <==> x in listing && IsDir(fs, Join(folder, x))
  {
    set x | x in listing && IsDir(fs, Join(folder, x))
  }

  lemma {:induction false} SubfoldersPick(fs: Fs, folder: string, listing: seq<string>, keep: set<string>)
    requires forall x :: x in listing ==> (x in keep <==> IsDir(fs, Join(folder, x)))
    ensures exists idx :: Picks(listing, keep, Subfolders(fs, folder, listing), idx)
    decreases |listing|
  {
    if |listing| == 0 {
      assert Subfolders(fs, folder, listing) == [];
      assert Picks(listing, keep, [], []);
    } else {
      var r' := Subfolders(fs, folder, listing[1..]);
      SubfoldersPick(fs, folder, listing[1..], keep);
      var idx' :| Picks(listing[1..], keep, r', idx');
      var ext := PicksPrepend(listing[0], listing[1..], keep, r', idx');
      assert [listing[0]] + listing[1..] == listing;
      assert Subfolders(fs, folder, listing) == if listing[0] in keep then [listing[0]] + r' else r';
    }
  }

  /** Some listed regular file of `folder` has a name ending with `.html`. */
  predicate HasTopLevelHtml(fs: Fs, folder: string, listing: seq<string>) {
    exists x :: x in listing && IsHtmlName(x) && IsFile(fs, Join(folder, x))
  }

  /** Multiplying by a natural number keeps the order. */
  lemma {:induction false} MulMono(x: int, y: int, d: nat)
    requires x <= y
    ensures x * d <= y * d
    decreases d
  {
    if d > 0 {
      MulMono(x, y, d - 1);
      assert x * d == x * (d - 1) + x;
      assert y * d == y * (d - 1) + y;
    }
  }

  /** Dividing by a positive number keeps the order. */
  lemma DivMono(a: nat, b: nat, d: nat)
    requires a <= b && 0 < d
    ensures a / d <= b / d
  {
    var qa, ra := a / d, a % d;
    var qb, rb := b / d, b % d;
    assert a == qa * d + ra;
    assert b == qb * d + rb;
    assert (qb + 1) * d == qb * d + d;
    if qb < qa {
      MulMono(qb + 1, qa, d);
    }
  }

  /** Dividing a multiple of `d` by `d`. */
  lemma MulDivCancel(k: nat, d: nat)
    requires d > 0
    ensures (k * d) / d == k
  {
    var q, r := (k * d) / d, (k * d) % d;
    assert k * d == q * d + r;
    assert (q + 1) * d == q * d + d;
    assert (k + 1) * d == k * d + d;
    if q < k {
      MulMono(q + 1, k, d);
    } else if q > k {
      MulMono(k + 1, q, d);
    }
  }

  /**
   * The progress after item `i` of `total`, as a whole percentage, computed exactly
   * (the source computes it in floating point).
   */
  function Progress(i: nat, total: nat): int
    requires i < total
  {
    (i + 1) * 100 / total
  }

  /** Progress is a percentage. */
  lemma ProgressBounds(i: nat, total: nat)
    requires i < total
    ensures 0 <= Progress(i, total) <= 100
  {
    MulMono(i + 1, total, 100);
    DivMono((i + 1) * 100, total * 100, total);
    MulDivCancel(100, total);
    assert total * 100 == 100 * total;
  }

  /** Progress never goes back. */
  lemma ProgressMonotone(i: nat, j: nat, total: nat)
    requires i <= j < total
    ensures Progress(i, total) <= Progress(j, total)
  {
    MulMono(i + 1, j + 1, 100);
    DivMono((i + 1) * 100, (j + 1) * 100, total);
  }

  /** After the last item progress is 100. */
  lemma ProgressLast(total: nat)
    requires total > 0
    ensures Progress(total - 1, total) == 100
  {
    MulDivCancel(100, total);
    assert total * 100 == 100 * total;
  }

  /** The file system after a batch, the progress values reported, and whether an exception escaped. */
  datatype BatchState = BatchState(fs: Fs, reported: seq<int>, raised: bool)

  /** One conversion of the batch: the file system, the round number and the item give the new file system and the outcome. */
  type Converter = (Fs, nat, string) -> (Fs, Outcome)

  /** `convert_single_folder` on the subfolder `item` of `folder`, in round `k`. */
  function SubfolderConverter(host: Foreign, folder: string, fmt: string, outputDir: Option<string>): Converter {
    (fs: Fs, k: nat, item: string) => ConvertSingle(fs, host, k, Join(folder, item), fmt, outputDir)
  }

  /**
   * The loop of `batch_convert` over `items` after its first `i` rounds: each round converts
   * one item and reports its progress; an exception ends the loop before the report.
   */
  function ConvertEach(fs: Fs, convert: Converter, items: seq<string>, i: nat): BatchState
    requires i <= |items|
  {
    if i == 0 then BatchState(fs, [], false)
    else
      var s := ConvertEach(fs, convert, items, i - 1);
      if s.raised then s
      else
        var (fs', o) := convert(s.fs, i - 1, items[i - 1]);
        if o == Raised then BatchState(fs', s.reported, true)
        else BatchState(fs', s.reported + [Progress(i - 1, |items|)], false)
  }

  /** `batch_convert(folder, fmt, output_dir, callback)`: the progress values are those given to the callback. */
  function Batch(fs: Fs, host: Foreign, folder: string, fmt: string, outputDir: Option<string>): BatchState {
    match ListDir(fs, folder)
    case None => BatchState(fs, [], true)
    case Some(listing) =>
      var subs := Subfolders(fs, folder, listing);
      if subs != [] && !HasTopLevelHtml(fs, folder, listing) then
        ConvertEach(fs, SubfolderConverter(host, folder, fmt, outputDir), subs, |subs|)
      else
        var (fs', o) := ConvertSingle(fs, host, 0, folder, fmt, outputDir);
        if o == Raised then BatchState(fs', [], true) else BatchState(fs', [100], false)
  }

  /**
   * After `i` rounds the reported values are the progress of the first rounds in order,
   * one per round unless an exception ended the loop early.
   */
  lemma {:induction false} ConvertEachReports(fs: Fs, convert: Converter, items: seq<string>, i: nat)
    requires i <= |items|
    ensures var s := ConvertEach(fs, convert, items, i);
      |s.reported| <= i && (!s.raised ==> |s.reported| == i) &&
      forall k :: 0 <= k < |s.reported| ==> s.reported[k] == Progress(k, |items|)
  {
    if i > 0 {
      ConvertEachReports(fs, convert, items, i - 1);
    }
  }

  /**
   * The progress values of the whole loop: one per item unless an exception ended it,
   * each a percentage, never decreasing, and 100 after the last item.
   */
  lemma ConvertEachProgress(fs: Fs, convert: Converter, items: seq<string>)
    requires |items| > 0
    ensures var s := ConvertEach(fs, convert, items, |items|);
      |s.reported| <= |items| && (!s.raised ==> |s.reported| == |items| && s.reported[|items| - 1] == 100) &&
      (forall k :: 0 <= k < |s.reported| ==> 0 <= s.reported[k] <= 100) &&
      (forall k, l :: 0 <= k <= l < |s.reported| ==> s.reported[k] <= s.reported[l])
  {
    var s := ConvertEach(fs, convert, items, |items|);
    ConvertEachReports(fs, convert, items, |items|);
    forall k | 0 <= k < |s.reported| ensures 0 <= s.reported[k] <= 100 {
      ProgressBounds(k, |items|);
    }
    forall k, l | 0 <= k <= l < |s.reported| ensures s.reported[k] <= s.reported[l] {
      ProgressMonotone(k, l, |items|);
    }
    if !s.raised {
      ProgressLast(|items|);
    }
  }

  /** The listing names a directory exactly when there is a subfolder to convert. */
  lemma SubfoldersNonEmpty(fs: Fs, folder: string, listing: seq<string>)
    ensures Subfolders(fs, folder, listing) != [] <==> exists x :: x in listing && IsDir(fs, Join(folder, x))
  {
    var subs := Subfolders(fs, folder, listing);
    if subs != [] {
      assert subs[0] in subs;
    }
  }

  /**
   * `batch_convert` converts the subfolders, in listing order, exactly when the folder
   * lists at least one directory and no regular `.html` file.
   */
  lemma BatchSubfolders(fs: Fs, host: Foreign, folder: string, fmt: string, outputDir: Option<string>)
    requires ListDir(fs, folder).Some?
    requires var listing := ListDir(fs, folder).value;
      (exists x :: x in listing && IsDir(fs, Join(folder, x))) && !HasTopLevelHtml(fs, folder, listing)
    ensures var subs := Subfolders(fs, folder, ListDir(fs, folder).value);
      |subs| > 0 &&
      Batch(fs, host, folder, fmt, outputDir) == ConvertEach(fs, SubfolderConverter(host, folder, fmt, outputDir), subs, |subs|)
  {
    SubfoldersNonEmpty(fs, folder, ListDir(fs, folder).value);
  }

  /** Otherwise it converts the folder itself, in conversion unit 0, and reports 100 unless that raised. */
  lemma BatchSingle(fs: Fs, host: Foreign, folder: string, fmt: string, outputDir: Option<string>)
    requires ListDir(fs, folder).Some?
    requires var listing := ListDir(fs, folder).value;
      !(exists x :: x in listing && IsDir(fs, Join(folder, x))) || HasTopLevelHtml(fs, folder, listing)
    ensures var s := Batch(fs, host, folder, fmt, outputDir);
      var r := ConvertSingle(fs, host, 0, folder, fmt, outputDir);
      s.fs == r.0 && s.raised == (r.1 == Raised) && s.reported == (if s.raised then [] else [100])
  {
    SubfoldersNonEmpty(fs, folder, ListDir(fs, folder).value);
  }
}
