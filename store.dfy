/**
 * The file system the converter sees, as a value: regular files with their bytes,
 * directories with their ordered listing (what `os.listdir` returns), and paths whose
 * `open` raises. Every path is looked up by its normalised form. The library services
 * the converter uses but does not implement are the fields of `Foreign`.
 */
module Store {
  import opened Wrappers
  import opened Paths
  import opened Base64

  /** Sixteen random octets, what `os.urandom(16)` returns. */
  type Nonce = s: seq<byte> | |s| == 16 witness [0, 0, 0, 0, 0, 0, 0, 0, 0, 0, 0, 0, 0, 0, 0, 0]

  /**
   * `guessMime`  the MIME type `mimetypes.guess_type` gives for a path, if any
   * `decode`     UTF-8 decoding that drops undecodable bytes, what reading a file in text mode gives
   * `encode`     UTF-8 encoding of text written in text mode
   * `nonce`      `os.urandom(16)` during the n-th conversion unit
   * `clock`      the `time.strftime` date string during the n-th conversion unit
   */
  datatype Foreign = Foreign(
    guessMime: string -> Option<string>,
    decode: seq<byte> -> string,
    encode: string -> seq<byte>,
    nonce: nat -> Nonce,
    clock: nat -> string)

  /** `FileExistsError`, and every other `OSError`. */
  datatype OsError = AlreadyExists | Failed

  /** The directories are the keys of `dirs`; `locked` paths raise when opened. */
  datatype Fs = Fs(files: map<string, seq<byte>>, dirs: map<string, seq<string>>, locked: set<string>)

  function Key(p: string): string {
    NormPath(p)
  }

  /** The directory that holds the entry with normalised path `k`. */
  function Parent(k: string): string {
    NormPath(DirName(k))
  }

  /** `os.path.isdir`. */
  predicate IsDir(fs: Fs, p: string) {
    Key(p) in fs.dirs
  }

  /** `os.path.isfile`. */
  predicate IsFile(fs: Fs, p: string) {
    Key(p) in fs.files && Key(p) !in fs.dirs
  }

  /** `os.path.exists`. */
  predicate Exists(fs: Fs, p: string) {
    Key(p) in fs.files || Key(p) in fs.dirs
  }

  /** `os.listdir`; `None` when it raises. */
  function ListDir(fs: Fs, p: string): Option<seq<string>> {
    if IsDir(fs, p) then Some(fs.dirs[Key(p)]) else None
  }

  /** Reading a whole file; `None` when `open` or `read` raises. */
  function Read(fs: Fs, p: string): Option<seq<byte>> {
    if IsFile(fs, p) && Key(p) !in fs.locked then Some(fs.files[Key(p)]) else None
  }

  /** Records a new entry in its parent's listing (new entries go last). */
  function AddName(dirs: map<string, seq<string>>, parent: string, name: string): map<string, seq<string>> {
    if parent in dirs && name !in dirs[parent] then dirs[parent := dirs[parent] + [name]] else dirs
  }

  /** Writing a whole file; `None` when `open(p, 'w')` raises. */
  function Write(fs: Fs, p: string, data: seq<byte>): Option<Fs> {
    var k := Key(p);
    if k in fs.dirs || k in fs.locked || Parent(k) !in fs.dirs then None
    else Some(Fs(fs.files[k := data], AddName(fs.dirs, Parent(k), BaseName(k)), fs.locked))
  }

  /** `os.mkdir(name)`. */
  function Mkdir(fs: Fs, name: string): (Fs, Option<OsError>) {
    var k := Key(name);
    if k in fs.dirs || k in fs.files then (fs, Some(AlreadyExists))
    else if Parent(k) !in fs.dirs then (fs, Some(Failed))
    else (Fs(fs.files, AddName(fs.dirs, Parent(k), BaseName(k))[k := []], fs.locked), None)
  }

  /** `os.mkdir(name)` inside `makedirs(..., exist_ok=True)`: an existing directory is no error. */
  function MkdirExistOk(fs: Fs, name: string): (Fs, Option<OsError>) {
    var (fs', e) := Mkdir(fs, name);
    if e.Some? && IsDir(fs', name) then (fs', None) else (fs', e)
  }

  /** `os.makedirs(name, exist_ok=True)`: creates the missing ancestors first, then `name`. */
  function MakeDirs(fs: Fs, name: string): (Fs, Option<OsError>)
    decreases |name|
  {
    var (h0, t0) := PathSplit(name);
    var (h, t) := if t0 == "" then PathSplit(h0) else (h0, t0);
    if h != "" && t != "" && !Exists(fs, h) then
      var (fs1, e1) := MakeDirs(fs, h);
      if e1.Some? && e1.value != AlreadyExists then (fs1, e1)
      else if t == "." then (fs1, None)
      else MkdirExistOk(fs1, name)
    else MkdirExistOk(fs, name)
  }

  /**
   * `fs'` has the files of `fs`, its locked paths, and at least its directories, and each
   * of those lists its old entries first, in their old order.
   */
  predicate KeepsFiles(fs: Fs, fs': Fs) {
    fs'.files == fs.files && fs'.locked == fs.locked && fs.dirs.Keys <= fs'.dirs.Keys &&
    forall d :: d in fs.dirs ==> fs.dirs[d] <= fs'.dirs[d]
  }

  /** Keeping files is transitive. */
  lemma KeepsFilesTrans(fs: Fs, fs': Fs, fs'': Fs)
    requires KeepsFiles(fs, fs') && KeepsFiles(fs', fs'')
    ensures KeepsFiles(fs, fs'')
  {
    forall d | d in fs.dirs ensures fs.dirs[d] <= fs''.dirs[d] {
      assert fs.dirs[d] <= fs'.dirs[d] <= fs''.dirs[d];
    }
  }

  /** Recording a name in a listing adds no directory. */
  lemma AddNameKeys(dirs: map<string, seq<string>>, parent: string, name: string)
    ensures AddName(dirs, parent, name).Keys == dirs.Keys
  {
  }

  /** One `mkdir` never touches a file and never removes a directory. */
  lemma MkdirFrame(fs: Fs, name: string)
    ensures KeepsFiles(fs, MkdirExistOk(fs, name).0)
  {
    var k := Key(name);
    var d := AddName(fs.dirs, Parent(k), BaseName(k));
    AddNameKeys(fs.dirs, Parent(k), BaseName(k));
    if !(k in fs.dirs || k in fs.files) && Parent(k) in fs.dirs {
      var fs' := Mkdir(fs, name).0;
      assert fs'.dirs == d[k := []];
      forall x | x in fs.dirs ensures fs.dirs[x] <= fs'.dirs[x] {
        assert x != k && fs'.dirs[x] == d[x];
      }
    }
  }

  /** Creating directories never touches a file and never removes a directory. */
  lemma {:induction false} MakeDirsFrame(fs: Fs, name: string)
    ensures KeepsFiles(fs, MakeDirs(fs, name).0)
    decreases |name|
  {
    var (h0, t0) := PathSplit(name);
    var (h, t) := if t0 == "" then PathSplit(h0) else (h0, t0);
    if h != "" && t != "" && !Exists(fs, h) {
      MakeDirsFrame(fs, h);
      var fs1 := MakeDirs(fs, h).0;
      MkdirFrame(fs1, name);
      if MakeDirs(fs, name).0 != fs1 {
        assert MakeDirs(fs, name).0 == MkdirExistOk(fs1, name).0;
        KeepsFilesTrans(fs, fs1, MakeDirs(fs, name).0);
      }
    } else {
      MkdirFrame(fs, name);
      assert MakeDirs(fs, name) == MkdirExistOk(fs, name);
    }
  }

  /**
   * `os.mkdir` with `exist_ok`: when it raises nothing, `name` is a directory afterwards; it
   * reports an existing entry only for a regular file there.
   */
  lemma MkdirExistOkMade(fs: Fs, name: string)
    ensures var (fs', e) := MkdirExistOk(fs, name);
            (e.None? ==> IsDir(fs', name)) && (e == Some(AlreadyExists) ==> Key(name) in fs.files)
  {
  }

  /**
   * `os.makedirs(name, exist_ok=True)` that raises nothing leaves `name` a directory. The
   * only existing entry it reports is a regular file at `name` itself.
   */
  lemma {:induction false} MakeDirsMade(fs: Fs, name: string)
    ensures var (fs', e) := MakeDirs(fs, name);
            (e.None? ==> IsDir(fs', name)) && (e == Some(AlreadyExists) ==> Key(name) in fs.files)
    decreases |name|
  {
    var (h0, t0) := PathSplit(name);
    var (h, t) := if t0 == "" then PathSplit(h0) else (h0, t0);
    if h != "" && t != "" && !Exists(fs, h) {
      MakeDirsMade(fs, h);
      MakeDirsFrame(fs, h);
      var (fs1, e1) := MakeDirs(fs, h);
      assert e1 != Some(AlreadyExists);
      if e1.None? {
        if t == "." {
          NormDotStep(name);
          assert MakeDirs(fs, name) == (fs1, None);
        } else {
          MkdirExistOkMade(fs1, name);
          assert MakeDirs(fs, name) == MkdirExistOk(fs1, name);
        }
      }
    } else {
      MkdirExistOkMade(fs, name);
      assert MakeDirs(fs, name) == MkdirExistOk(fs, name);
    }
  }

  /** A successful write stores the data under the normalised path and changes no other file. */
  lemma WriteFrame(fs: Fs, p: string, data: seq<byte>)
    requires Write(fs, p, data).Some?
    ensures Write(fs, p, data).value.files == fs.files[Key(p) := data]
    ensures Write(fs, p, data).value.dirs.Keys == fs.dirs.Keys
    ensures Write(fs, p, data).value.locked == fs.locked
    ensures Read(Write(fs, p, data).value, p) == Some(data)
    ensures var k := Key(p);
      Parent(k) in fs.dirs &&
      (forall d :: d in fs.dirs && d != Parent(k) ==> Write(fs, p, data).value.dirs[d] == fs.dirs[d]) &&
      Write(fs, p, data).value.dirs[Parent(k)]
        == fs.dirs[Parent(k)] + (if BaseName(k) in fs.dirs[Parent(k)] then [] else [BaseName(k)])
  {
  }

  /** After a successful write the path reads back the data, and every other path reads as before. */
  lemma ReadAfterWrite(fs: Fs, p: string, data: seq<byte>, q: string)
    requires Write(fs, p, data).Some?
    ensures Key(q) == Key(p) ==> Read(Write(fs, p, data).value, q) == Some(data)
    ensures Key(q) != Key(p) ==> Read(Write(fs, p, data).value, q) == Read(fs, q)
  {
  }
}
