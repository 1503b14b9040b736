/** The temp-file store of utils.py: how the destination path of an upload is
    derived (POSIX `os.path.splitext`, Python's substring test `in`, POSIX
    `os.path.join`) and the write of the upload into the scratch directory. */
module Utils {
  import opened Wrappers

  type Byte = b: int | 0 <= b < 256
  type Bytes = seq<Byte>
  type Path = string

  /** Directory uploads are saved under (utils.py:5). */
  const TEMP_DIR: Path := "temp"
  /** Default destination name of `_save_file_to_server` (utils.py:8). */
  const DEFAULT_SAVE_AS: string := "default"

  /** An uploaded file: the client-supplied name and the whole byte stream. */
  datatype Upload = Upload(filename: string, content: Bytes)

  /** Why a write into the scratch directory failed: `open(path, "wb")` raised. */
  datatype IoError = CannotOpen(path: Path)

  /** `str.rfind` for a single character: the last index holding `c`, or -1. */
  function RFind(s: string, c: char): (r: int)
    ensures -1 <= r < |s|
    ensures r >= 0 ==> s[r] == c
    ensures forall i :: r < i < |s| ==> s[i] != c
  {
    if |s| == 0 then -1
    else if s[|s| - 1] == c then |s| - 1
    else RFind(s[..|s| - 1], c)
  }

  /** The second half of POSIX `os.path.splitext(p)`: the suffix from the last
      '.' that lies after the last '/', provided the part of the base name
      before that '.' is not made of dots only; otherwise empty. */
  function Extension(p: string): (ext: string)
    ensures |ext| <= |p| && ext == p[|p| - |ext|..]
    ensures ext == [] || (ext[0] == '.' && forall i :: 1 <= i < |ext| ==> ext[i] != '.' && ext[i] != '/')
  {
    var sep := RFind(p, '/');
    var dot := RFind(p, '.');
    if dot > sep && exists i :: sep < i < dot && p[i] != '.' then p[dot..] else []
  }

  /** `d` is the index of the '.' that starts the extension of `p`: it is the
      last '.', nothing after it is a '/', and the base name before it holds a
      character other than '.'. */
  ghost predicate IsExtensionStart(p: string, d: int) {
    0 <= d < |p| && p[d] == '.'
    && (forall i :: d < i < |p| ==> p[i] != '.' && p[i] != '/')
    && (exists i :: 0 <= i < d && p[i] != '.' && p[i] != '/' && forall k :: i < k < d ==> p[k] != '/')
  }

  /** The extension is non-empty exactly when some index starts one, and then it
      is the suffix from that index. */
  lemma ExtensionCharacterized(p: string)
    ensures Extension(p) != [] <==> exists d :: IsExtensionStart(p, d)
    ensures Extension(p) != [] ==> IsExtensionStart(p, |p| - |Extension(p)|)
  {
    var sep := RFind(p, '/');
    var dot := RFind(p, '.');
    if Extension(p) != [] {
      var i :| sep < i < dot && p[i] != '.';
      assert forall k :: i < k < dot ==> p[k] != '/';
      assert IsExtensionStart(p, dot);
    }
    if d :| IsExtensionStart(p, d) {
      assert dot == d;
      assert sep < d;
      var i :| 0 <= i < d && p[i] != '.' && p[i] != '/' && forall k :: i < k < d ==> p[k] != '/';
      assert sep < i;
      assert Extension(p) == p[dot..];
    }
  }

  /** Python's `t in s` on strings: `t` occurs in `s` as a contiguous run. */
  predicate Contains(s: string, t: string) {
    exists i :: 0 <= i <= |s| - |t| && OccursAt(s, t, i)
  }

  predicate OccursAt(s: string, t: string, i: int) {
    0 <= i <= |s| - |t| && s[i..i + |t|] == t
  }

  /** The empty string occurs in every string, and so does each suffix. */
  lemma ContainsSuffix(s: string, t: string)
    requires |t| <= |s| && s[|s| - |t|..] == t
    ensures Contains(s, t)
  {
    assert OccursAt(s, t, |s| - |t|);
  }

  /** POSIX `os.path.join(a, b)`: an absolute `b` discards `a`; otherwise a '/'
      is inserted unless `a` is empty or already ends with one. */
  function Join(a: Path, b: string): (r: Path)
  {
    if |b| > 0 && b[0] == '/' then b
    else if a == [] || a[|a| - 1] == '/' then a + b
    else a + "/" + b
  }

  /** The path `_save_file_to_server` writes to (utils.py:9-11): the extension of
      the uploaded name is appended to `saveAs` unless it already occurs
      anywhere in `saveAs`, and the result is joined onto `path`. */
  function TempPath(filename: string, path: Path := TEMP_DIR, saveAs: string := DEFAULT_SAVE_AS): (p: Path)
  {
    var extension := Extension(filename);
    if !Contains(saveAs, extension) then Join(path, saveAs + extension) else Join(path, saveAs)
  }

  /** An empty extension is never appended. */
  lemma EmptyExtensionNotAppended(filename: string, path: Path, saveAs: string)
    requires Extension(filename) == []
    ensures TempPath(filename, path, saveAs) == Join(path, saveAs)
  {
    ContainsSuffix(saveAs, []);
  }

  /** Both callers pass the uploaded name as `saveAs`; its extension is then
      already part of it and is not added a second time. */
  lemma SameNameNotDoubleSuffixed(filename: string, path: Path)
    ensures TempPath(filename, path, filename) == Join(path, filename)
  {
    ContainsSuffix(filename, Extension(filename));
  }

  /** The extension is appended only when it is non-empty and occurs nowhere in
      `saveAs`; any occurrence, even in the middle, suppresses it. */
  lemma ExtensionAppendedIffAbsent(filename: string, path: Path, saveAs: string)
    ensures !Contains(saveAs, Extension(filename)) ==>
              Extension(filename) != [] && TempPath(filename, path, saveAs) == Join(path, saveAs + Extension(filename))
    ensures Contains(saveAs, Extension(filename)) ==> TempPath(filename, path, saveAs) == Join(path, saveAs)
  {
    ContainsSuffix(saveAs, []);
  }

  /** Example: an upload named "x.png" saved as "a.png.bak" keeps that name. */
  lemma MidStringOccurrenceSuppresses()
    ensures TempPath("x.png", TEMP_DIR, "a.png.bak") == "temp/a.png.bak"
  {
    PngExtension();
    assert OccursAt("a.png.bak", ".png", 1);
  }

  /** Example: the extension of "x.png" is ".png". */
  lemma PngExtension()
    ensures Extension("x.png") == ".png"
  {
    var p := "x.png";
    assert p[0] == 'x' && p[1] == '.' && p[2] == 'p' && p[3] == 'n' && p[4] == 'g';
    assert RFind(p, '/') == -1;
    assert RFind(p, '.') == 1;
    assert p[1..] == ".png";
  }

  /** Where an upload's temp file lands when it is saved under its own name:
      under `temp/`, unless the name is absolute, in which case the directory is
      discarded. */
  lemma OwnNameLocation(filename: string)
    ensures TempPath(filename, TEMP_DIR, filename) ==
              if |filename| > 0 && filename[0] == '/' then filename else TEMP_DIR + "/" + filename
  {
    SameNameNotDoubleSuffixed(filename, TEMP_DIR);
    assert TEMP_DIR != [] && TEMP_DIR[|TEMP_DIR| - 1] == 'p';
  }

  /** The scratch directory as a map from path to file contents. Whether a path
      can be opened for writing (its directory exists, permissions allow it) is
      a fixed property of the file system, given as `writable`. */
  class ScratchDir {
    var files: map<Path, Bytes>
    const writable: Path -> bool

    constructor (files: map<Path, Bytes>, writable: Path -> bool)
      ensures this.files == files && this.writable == writable
    {
      this.files := files;
      this.writable := writable;
    }

    /** `_save_file_to_server` (utils.py:8-16): the file at the derived path holds
        exactly the uploaded bytes afterwards, whatever it held before, and no
        other path changes; when the path cannot be opened nothing changes and
        the error surfaces. */
    method SaveFileToServer(upload: Upload, path: Path := TEMP_DIR, saveAs: string := DEFAULT_SAVE_AS)
      returns (r: Result<Path, IoError>)
      modifies this
      ensures var target := TempPath(upload.filename, path, saveAs);
              if writable(target) then r == Ok(target) && files == old(files)[target := upload.content]
              else r == Err(CannotOpen(target)) && files == old(files)
    {
      var tempFile := TempPath(upload.filename, path, saveAs);
      if !writable(tempFile) {
        return Err(CannotOpen(tempFile));
      }
      files := files[tempFile := upload.content];
      return Ok(tempFile);
    }

    /** `os.path.exists`. */
    predicate Exists(p: Path)
      reads this
    {
      p in files
    }

    /** `os.remove` of an existing file. */
    method Remove(p: Path)
      requires p in files
      modifies this
      ensures files == old(files) - {p}
    {
      files := files - {p};
    }
  }
}
