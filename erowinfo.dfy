/**
 * File-identity reconciliation (`ERowInfo`): the views (`ERow`) open on one file name, the
 * hashes that say whether the views' content differs from what was last saved and whether the
 * file on disk differs from it, and the save and reload protocols that write or read the file
 * and bring every view to the same bytes.
 *
 * The filesystem is an abstract environment (`FileSystem`), sha1 an uninterpreted digest
 * function and the goimports pass a transform that may fail. A panic of the source is a
 * returned `Panic` status with nothing changed.
 */
module RowInfo {
  import opened Wrappers

  newtype Byte = b: int | 0 <= b < 256
  type Bytes = seq<Byte>
  type Digest = seq<Byte>

  /** An error of the filesystem or of the reconciliation (Go's `error`). */
  datatype Error = ErrNotExist | ErrMsg(msg: string)

  datatype FsResult<T> = FsOk(value: T) | FsErr(err: Error)

  datatype Status = Done | Panic(msg: string)

  /** What os.Stat tells: a directory or a file, and its modification time. */
  datatype FileInfo = FileInfo(isDir: bool, modTime: int)

  datatype Node = FileNode(content: Bytes, modTime: int) | DirNode(modTime: int)

  /** The row states the reconciliation sets on every view (ui.RowState). */
  datatype RowState =
    | Edited | NotExist | FsDiffer | Duplicate | DuplicateHighlight | Annotations | AnnotationsEdited

  /** isSpecialName: a name starting with '+' names no file. */
  predicate IsSpecialName(name: string)
    requires |name| > 0
  {
    name[0] == '+'
  }

  /** The position of the last '/' of `p`, or -1. */
  function LastSlash(p: string): (r: int)
    ensures -1 <= r < |p|
    ensures r >= 0 ==> p[r] == '/'
    ensures forall k :: r < k < |p| ==> p[k] != '/'
  {
    if |p| == 0 then -1
    else if p[|p| - 1] == '/' then |p| - 1
    else LastSlash(p[..|p| - 1])
  }

  /** `s` without its trailing slashes. */
  function TrimSlashes(s: string): (r: string)
    ensures |r| <= |s| && r == s[..|r|]
    ensures |r| > 0 ==> r[|r| - 1] != '/'
    ensures forall k :: |r| <= k < |s| ==> s[k] == '/'
  {
    if |s| > 0 && s[|s| - 1] == '/' then TrimSlashes(s[..|s| - 1]) else s
  }

  /**
   * filepath.Dir: all but the last element of the path, without trailing slashes; "." when the
   * path has no slash and "/" when only slashes precede its last element.
   */
  function PathDir(p: string): (r: string)
    ensures (forall k :: 0 <= k < |p| ==> p[k] != '/') ==> r == "."
    ensures LastSlash(p) >= 0 && (forall k :: 0 <= k <= LastSlash(p) ==> p[k] == '/') ==> r == "/"
    ensures LastSlash(p) >= 0 && (exists k :: 0 <= k <= LastSlash(p) && p[k] != '/') ==>
      0 < |r| <= LastSlash(p) && r == p[..|r|] && r[|r| - 1] != '/' &&
      forall k :: |r| <= k <= LastSlash(p) ==> p[k] == '/'
  {
    var i := LastSlash(p);
    if i < 0 then "."
    else
      var d := TrimSlashes(p[..i + 1]);
      if d == "" then "/" else d
  }

  /** The directory of a path joined from a clean directory and a file name is that directory. */
  lemma PathDirJoin(d: string, f: string)
    requires |d| > 0 && d[|d| - 1] != '/' && forall k :: 0 <= k < |f| ==> f[k] != '/'
    ensures PathDir(d + "/" + f) == d
  {
    var p := d + "/" + f;
    assert p[|d|] == '/';
    assert forall k :: |d| < k < |p| ==> p[k] == f[k - |d| - 1];
    LastSlashIs(p, |d|);
    assert p[..|d| + 1] == d + "/";
    assert p[..|d| + 1][..|d|] == d;
  }

  /** The last slash is the one after which no slash follows. */
  lemma {:induction false} LastSlashIs(p: string, i: nat)
    requires i < |p| && p[i] == '/' && forall k :: i < k < |p| ==> p[k] != '/'
    ensures LastSlash(p) == i
    decreases |p|
  {
    if i < |p| - 1 {
      LastSlashIs(p[..|p| - 1], i);
    }
  }

  /** filepath.Ext(name) == ".go": the last element's extension is "go". */
  predicate IsGoFile(name: string)
  {
    |name| >= 3 && name[|name| - 3..] == ".go"
  }

  /**
   * The filesystem the views' file lives on: files and directories with modification times, and
   * the ways reading and writing a file can fail.
   */
  class FileSystem {
    var nodes: map<string, Node>
    /** The names opening for writing is refused for. */
    const readOnly: set<string>
    /** The names whose files cannot be read (no read permission, an I/O error). */
    const unreadable: set<string>
    /**
     * How many bytes a write to the name gets onto the disk before it fails (a full disk, an
     * I/O error); a write of no more bytes than that succeeds.
     */
    const writeLimit: map<string, nat>
    /** The modification time the next write stamps, less one. */
    var clock: int

    constructor (nodes: map<string, Node>, readOnly: set<string>, unreadable: set<string>,
                 writeLimit: map<string, nat>, clock: int)
      ensures this.nodes == nodes && this.readOnly == readOnly && this.unreadable == unreadable
      ensures this.writeLimit == writeLimit && this.clock == clock
    {
      this.nodes := nodes;
      this.readOnly := readOnly;
      this.unreadable := unreadable;
      this.writeLimit := writeLimit;
      this.clock := clock;
    }

    /** os.Stat. */
    function StatOf(name: string): FsResult<FileInfo>
      reads this
    {
      if name !in nodes then FsErr(ErrNotExist)
      else
        match nodes[name]
        case FileNode(_, t) => FsOk(FileInfo(false, t))
        case DirNode(t) => FsOk(FileInfo(true, t))
    }

    /** ioutil.ReadFile. */
    function ReadOf(name: string): FsResult<Bytes>
      reads this
    {
      if name !in nodes then FsErr(ErrNotExist)
      else
        match nodes[name]
        case FileNode(b, _) => if name in unreadable then FsErr(ErrMsg("permission denied")) else FsOk(b)
        case DirNode(_) => FsErr(ErrMsg("is a directory"))
    }

    /** Why os.OpenFile(O_WRONLY|O_TRUNC|O_CREATE) of `name` fails, if it does. */
    function OpenError(name: string): Option<Error>
      reads this
    {
      if name in readOnly then Some(ErrMsg("permission denied"))
      else if name in nodes && nodes[name].DirNode? then Some(ErrMsg("is a directory"))
      else None
    }

    /** How many of the bytes `b` a write to `name` stores: all of them unless it fails first. */
    function Written(name: string, b: Bytes): (n: nat)
      ensures n <= |b|
      ensures n < |b| <==> name in writeLimit && writeLimit[name] < |b|
    {
      if name in writeLimit && writeLimit[name] < |b| then writeLimit[name] else |b|
    }

    /** The error of opening `name` and writing `b` to it, if any. */
    function WriteError(name: string, b: Bytes): (e: Option<Error>)
      reads this
      ensures OpenError(name).Some? ==> e == OpenError(name)
      ensures OpenError(name).None? ==> (e.None? <==> Written(name, b) == |b|)
    {
      if OpenError(name).Some? then OpenError(name)
      else if Written(name, b) < |b| then Some(ErrMsg("short write"))
      else None
    }

    /**
     * OpenFile(O_WRONLY|O_TRUNC|O_CREATE) and Write: a refused open changes nothing; otherwise
     * the file is truncated and stamped with a new time, and holds the bytes the write got onto
     * the disk, all of `b` when it succeeds.
     */
    method WriteFile(name: string, b: Bytes) returns (err: Option<Error>)
      modifies this
      ensures err == old(WriteError(name, b))
      ensures old(OpenError(name)).Some? ==> unchanged(this)
      ensures old(OpenError(name)).None? ==>
        clock == old(clock) + 1 && nodes == old(nodes)[name := FileNode(b[..Written(name, b)], clock)]
      ensures err.None? ==> clock == old(clock) + 1 && nodes == old(nodes)[name := FileNode(b, clock)]
    {
      err := OpenError(name);
      if err.Some? {
        return;
      }
      clock := clock + 1;
      var n := Written(name, b);
      nodes := nodes[name := FileNode(b[..n], clock)];
      if n < |b| {
        err := Some(ErrMsg("short write"));
      } else {
        assert b[..n] == b;
      }
    }
  }

  /** One view of the file: its text area's bytes, its row states and its two flags. */
  class ERow {
    var content: Bytes
    var states: map<RowState, bool>
    var highlightDuplicates: bool
    /** disableTextAreaSetStrCallback: a change of content does not mirror to the other views. */
    var disableCB: bool

    constructor ()
      ensures content == [] && states == map[] && !highlightDuplicates && !disableCB
    {
      content := [];
      states := map[];
      highlightDuplicates := false;
      disableCB := false;
    }
  }

  /** The first occurrence of `x` removed from `s`. */
  function RemoveFirst<T(==)>(s: seq<T>, x: T): seq<T>
  {
    if |s| == 0 then []
    else if s[0] == x then s[1..]
    else [s[0]] + RemoveFirst(s[1..], x)
  }

  /** Removing the first occurrence is splicing out the first index that holds it. */
  lemma {:induction false} RemoveFirstAt<T>(s: seq<T>, x: T, i: nat)
    requires i < |s| && s[i] == x && x !in s[..i]
    ensures RemoveFirst(s, x) == s[..i] + s[i + 1..]
    decreases i
  {
    if i > 0 {
      assert s[0] != x by { assert s[0] == s[..i][0]; }
      RemoveFirstAt(s[1..], x, i - 1);
      assert s[1..][..i - 1] == s[1..i];
      assert s[..i] + s[i + 1..] == [s[0]] + (s[1..][..i - 1] + s[1..][i..]);
    }
  }

  /** Without an occurrence nothing is removed. */
  lemma {:induction false} RemoveFirstAbsent<T>(s: seq<T>, x: T)
    requires x !in s
    ensures RemoveFirst(s, x) == s
  {
    if |s| > 0 {
      RemoveFirstAbsent(s[1..], x);
      assert s == [s[0]] + s[1..];
    }
  }

  /** Adding a view that was not registered and removing it again restores the registry. */
  lemma {:induction false} AddRemoveRoundTrip<T>(s: seq<T>, x: T)
    requires x !in s
    ensures RemoveFirst(s + [x], x) == s
  {
    RemoveFirstAt(s + [x], x, |s|);
    assert (s + [x])[..|s|] == s;
  }

  /** Removal takes out exactly one occurrence and keeps every other element. */
  lemma {:induction false} RemoveFirstMultiset<T>(s: seq<T>, x: T)
    requires x in s
    ensures multiset(RemoveFirst(s, x)) == multiset(s) - multiset{x}
  {
    if s[0] != x {
      RemoveFirstMultiset(s[1..], x);
      assert s == [s[0]] + s[1..];
    } else {
      assert s == [s[0]] + s[1..];
    }
  }

  /** No element occurs twice. */
  ghost predicate Distinct<T>(s: seq<T>)
  {
    forall i, j :: 0 <= i < j < |s| ==> s[i] != s[j]
  }

  /** Splicing out one element of a sequence without repeats leaves one without it. */
  lemma DistinctSplice<T>(s: seq<T>, i: nat)
    requires Distinct(s) && i < |s|
    ensures Distinct(s[..i] + s[i + 1..]) && s[i] !in s[..i] + s[i + 1..]
  {
    var w := s[..i] + s[i + 1..];
    assert forall k :: 0 <= k < |w| ==> w[k] == (if k < i then s[k] else s[k + 1]);
  }

  /** All the views of one file name (ERowInfo). */
  class ERowInfo {
    var erows: seq<ERow>
    const name: string
    const fs: FileSystem
    /** bytesHash (sha1 in the source). */
    const hash: Bytes -> Digest
    /** runGoImports: the organised bytes, or None when the command fails or times out. */
    const goImports: (Bytes, string) -> Option<Bytes>

    var fi: Option<FileInfo>
    var fiErr: Option<Error>
    /** savedHash: the size and digest of the bytes last read from or written to disk. */
    var savedSize: int
    var savedHash: Digest
    /** fsHash: the digest of the file as last read, and the modification time it was read at. */
    var fsModTime: Option<int>
    var fsHash: Digest

    /** A name is never empty, special names have no file info, and no view is registered twice. */
    ghost predicate Valid()
      reads this
    {
      |name| > 0 &&
      (IsSpecialName(name) ==> fi == None && fiErr == None) &&
      Distinct(erows)
    }

    /** No view is in the middle of mirroring its content. */
    ghost predicate Idle()
      reads this, erows
    {
      forall e :: e in erows ==> !e.disableCB
    }

    /** Every view has row state `st` set to `v`. */
    ghost predicate RowsSay(st: RowState, v: bool)
      reads this, erows
    {
      forall e :: e in erows ==> st in e.states && e.states[st] == v
    }

    predicate IsFileButNotDir()
      reads this
    {
      fi.Some? && !fi.value.isDir
    }

    predicate IsDir()
      reads this
    {
      fi.Some? && fi.value.isDir
    }

    predicate IsNotExist()
      reads this
    {
      fiErr == Some(ErrNotExist)
    }

    /** Whether content `b` differs from what was last saved, by size or else by digest. */
    predicate IsEdited(b: Bytes)
      reads this
    {
      |b| != savedSize || hash(b) != savedHash
    }

    /** The bytes saveFile writes: goimports' output for a Go file when it succeeds. */
    function PreSave(b: Bytes): (Bytes, bool)
    {
      if IsGoFile(name) && goImports(b, PathDir(name)).Some? then (goImports(b, PathDir(name)).value, true)
      else (b, false)
    }

    /** Dir: no directory for a special name, the name itself for a directory, else its parent. */
    function Dir(): (r: string)
      reads this
      requires Valid()
      ensures IsSpecialName(name) ==> r == ""
      ensures !IsSpecialName(name) && IsDir() ==> r == name
      ensures !IsSpecialName(name) && !IsDir() ==> r == PathDir(name)
    {
      if IsSpecialName(name) then "" else if IsDir() then name else PathDir(name)
    }

    /** The directory of a file named by a clean directory and a slash-free name is that directory. */
    lemma DirOfFile(d: string, f: string)
      requires Valid() && !IsSpecialName(name) && !IsDir()
      requires name == d + "/" + f && |d| > 0 && d[|d| - 1] != '/'
      requires forall k :: 0 <= k < |f| ==> f[k] != '/'
      ensures Dir() == d
    {
      PathDirJoin(d, f);
    }

    /** NewERowInfo: no views yet, and the file info read. */
    constructor (fs: FileSystem, name: string, hash: Bytes -> Digest, goImports: (Bytes, string) -> Option<Bytes>)
      requires |name| > 0
      ensures Valid() && Idle()
      ensures this.fs == fs && this.name == name && this.hash == hash && this.goImports == goImports
      ensures erows == [] && savedSize == 0 && savedHash == [] && fsModTime == None && fsHash == []
      ensures IsSpecialName(name) ==> fi == None && fiErr == None
      ensures !IsSpecialName(name) && fs.StatOf(name).FsOk? ==> fi == Some(fs.StatOf(name).value) && fiErr == None
      ensures !IsSpecialName(name) && fs.StatOf(name).FsErr? ==> fi == None && fiErr == Some(fs.StatOf(name).err)
    {
      this.fs := fs;
      this.name := name;
      this.hash := hash;
      this.goImports := goImports;
      erows := [];
      fi, fiErr := None, None;
      savedSize, savedHash := 0, [];
      fsModTime, fsHash := None, [];
      new;
      ReadFileInfo();
    }

    /** updateRowState: sets one state on every view. */
    method UpdateRowState(st: RowState, v: bool)
      modifies erows`states
      ensures forall e :: e in erows ==> e.states == old(e.states)[st := v]
    {
      var i := 0;
      while i < |erows|
        invariant 0 <= i <= |erows|
        invariant forall e :: e in erows[..i] ==> e.states == old(e.states)[st := v]
        invariant forall e :: e in erows[i..] && e !in erows[..i] ==> e.states == old(e.states)
      {
        erows[i].states := erows[i].states[st := v];
        assert erows[..i + 1] == erows[..i] + [erows[i]];
        i := i + 1;
      }
    }

    /**
     * readFileInfo: for a file name, stats it; a failure keeps the old file info, to still tell
     * a file from a directory, and records the error. NotExist is then refreshed on every view.
     */
    method ReadFileInfo()
      requires Valid()
      modifies this`fi, this`fiErr, erows`states
      ensures Valid()
      ensures IsSpecialName(name) ==>
        fi == old(fi) && fiErr == old(fiErr) && forall e :: e in erows ==> e.states == old(e.states)
      ensures !IsSpecialName(name) && fs.StatOf(name).FsOk? ==> fi == Some(fs.StatOf(name).value) && fiErr == None
      ensures !IsSpecialName(name) && fs.StatOf(name).FsErr? ==> fi == old(fi) && fiErr == Some(fs.StatOf(name).err)
      ensures !IsSpecialName(name) ==>
        forall e :: e in erows ==> e.states == old(e.states)[NotExist := IsNotExist()]
    {
      if IsSpecialName(name) {
        return;
      }
      var r := fs.StatOf(name);
      if r.FsErr? {
        fiErr := Some(r.err);
      } else {
        fi, fiErr := Some(r.value), None;
      }
      UpdateExistsRowState();
    }

    /** UpdateEditedRowState: for a file with views, Edited is whether the first view's bytes are edited. */
    method UpdateEditedRowState()
      modifies erows`states
      ensures !IsFileButNotDir() || |erows| == 0 ==> forall e :: e in erows ==> e.states == old(e.states)
      ensures IsFileButNotDir() && |erows| > 0 ==>
        forall e :: e in erows ==> e.states == old(e.states)[Edited := IsEdited(erows[0].content)]
    {
      if !IsFileButNotDir() {
        return;
      }
      var edited := false;
      if |erows| == 0 {
        return;
      }
      var b := erows[0].content;
      if |b| != savedSize {
        edited := true;
      } else {
        var h := hash(b);
        edited := h != savedHash;
      }
      UpdateRowState(Edited, edited);
    }

    method UpdateExistsRowState()
      modifies erows`states
      ensures forall e :: e in erows ==> e.states == old(e.states)[NotExist := IsNotExist()]
    {
      UpdateRowState(NotExist, IsNotExist());
    }

    /** UpdateFsDifferRowState: for a file, FsDiffer is whether the disk digest is not the saved one. */
    method UpdateFsDifferRowState()
      modifies erows`states
      ensures !IsFileButNotDir() ==> forall e :: e in erows ==> e.states == old(e.states)
      ensures IsFileButNotDir() ==> forall e :: e in erows ==> e.states == old(e.states)[FsDiffer := fsHash != savedHash]
    {
      if !IsFileButNotDir() {
        return;
      }
      UpdateRowState(FsDiffer, fsHash != savedHash);
    }

    /** UpdateDuplicateRowState: Duplicate is whether at least two views are open. */
    method UpdateDuplicateRowState()
      modifies erows`states
      ensures forall e :: e in erows ==> e.states == old(e.states)[Duplicate := |erows| >= 2]
    {
      UpdateRowState(Duplicate, |erows| >= 2);
    }

    /** Whether some view asks for its duplicates to be highlighted. */
    method AnyHighlight() returns (on: bool)
      ensures on <==> exists i :: 0 <= i < |erows| && erows[i].highlightDuplicates
    {
      on := false;
      var i := 0;
      while i < |erows|
        invariant 0 <= i <= |erows|
        invariant forall k :: 0 <= k < i ==> !erows[k].highlightDuplicates
      {
        if erows[i].highlightDuplicates {
          on := true;
          break;
        }
        i := i + 1;
      }
    }

    /** UpdateDuplicateHighlightRowState: at least two views and one of them asks for it. */
    method UpdateDuplicateHighlightRowState()
      modifies erows`states
      ensures forall e :: e in erows ==>
        e.states == old(e.states)[DuplicateHighlight :=
          |erows| >= 2 && exists i :: 0 <= i < |erows| && erows[i].highlightDuplicates]
    {
      var on := AnyHighlight();
      UpdateRowState(DuplicateHighlight, |erows| >= 2 && on);
    }

    method UpdateAnnotationsRowState(v: bool)
      modifies erows`states
      ensures forall e :: e in erows ==> e.states == old(e.states)[Annotations := v]
    {
      UpdateRowState(Annotations, v);
    }

    method UpdateAnnotationsEditedRowState(v: bool)
      modifies erows`states
      ensures forall e :: e in erows ==> e.states == old(e.states)[AnnotationsEdited := v]
    {
      UpdateRowState(AnnotationsEdited, v);
    }

    /** setSavedHash: records the saved size and digest, then refreshes FsDiffer. */
    method SetSavedHash(h: Digest, size: int)
      modifies this`savedSize, this`savedHash, erows`states
      ensures savedSize == size && savedHash == h
      ensures !IsFileButNotDir() ==> forall e :: e in erows ==> e.states == old(e.states)
      ensures IsFileButNotDir() ==> forall e :: e in erows ==> e.states == old(e.states)[FsDiffer := fsHash != h]
    {
      savedSize, savedHash := size, h;
      UpdateFsDifferRowState();
    }

    /** setFsHash: without file info nothing; otherwise records the digest read at the file's time. */
    method SetFsHash(h: Digest)
      modifies this`fsModTime, this`fsHash, erows`states
      ensures fi.None? ==> fsModTime == old(fsModTime) && fsHash == old(fsHash)
      ensures fi.Some? ==> fsModTime == Some(fi.value.modTime) && fsHash == h
      ensures !IsFileButNotDir() ==> forall e :: e in erows ==> e.states == old(e.states)
      ensures IsFileButNotDir() ==> forall e :: e in erows ==> e.states == old(e.states)[FsDiffer := h != savedHash]
    {
      if fi.None? {
        return;
      }
      fsModTime := Some(fi.value.modTime);
      fsHash := h;
      UpdateFsDifferRowState();
    }

    /** AddERow: appends a view; registering one twice panics. */
    method AddERow(erow: ERow) returns (st: Status)
      requires Valid()
      modifies this`erows
      ensures Valid()
      ensures erow in old(erows) ==> st == Panic("adding same erow twice") && erows == old(erows)
      ensures erow !in old(erows) ==> st == Done && erows == old(erows) + [erow]
    {
      var i := 0;
      while i < |erows|
        invariant 0 <= i <= |erows|
        invariant erow !in erows[..i]
      {
        if erows[i] == erow {
          return Panic("adding same erow twice");
        }
        assert erows[..i + 1] == erows[..i] + [erows[i]];
        i := i + 1;
      }
      assert erows[..i] == erows;
      erows := erows + [erow];
      st := Done;
    }

    /** RemoveERow: removes the view, keeping the others in order; an unknown view panics. */
    method RemoveERow(erow: ERow) returns (st: Status)
      requires Valid()
      modifies this`erows
      ensures Valid()
      ensures erows == RemoveFirst(old(erows), erow)
      ensures erow in old(erows) ==> st == Done && erow !in erows
      ensures erow !in old(erows) ==> st == Panic("erow not found") && erows == old(erows)
    {
      var i := 0;
      while i < |erows|
        invariant 0 <= i <= |erows|
        invariant erow !in erows[..i]
      {
        if erows[i] == erow {
          RemoveFirstAt(erows, erow, i);
          DistinctSplice(erows, i);
          erows := erows[..i] + erows[i + 1..];
          return Done;
        }
        assert erows[..i + 1] == erows[..i] + [erows[i]];
        i := i + 1;
      }
      assert erows[..i] == erows;
      RemoveFirstAbsent(erows, erow);
      st := Panic("erow not found");
    }

    /** NewERow of the editor: a new view, registered with this info. */
    method CreateERow() returns (erow: ERow)
      requires Valid()
      modifies this`erows
      ensures Valid()
      ensures fresh(erow) && erows == old(erows) + [erow]
      ensures erow.content == [] && erow.states == map[] && !erow.highlightDuplicates && !erow.disableCB
      ensures old(Idle()) ==> Idle()
    {
      erow := new ERow();
      var st := AddERow(erow);
      assert forall x :: x in erows ==> x in old(erows) || x == erow;
    }

    /**
     * readFsFile: reads the file; on success re-stats it for its new time and records the
     * digest of the bytes read as the disk digest. A failed read changes nothing.
     */
    method ReadFsFile() returns (r: FsResult<Bytes>)
      requires Valid()
      modifies this`fi, this`fiErr, this`fsModTime, this`fsHash, erows`states
      ensures Valid() && r == fs.ReadOf(name)
      ensures r.FsErr? || IsSpecialName(name) ==>
        fi == old(fi) && fiErr == old(fiErr) && fsModTime == old(fsModTime) && fsHash == old(fsHash) &&
        forall e :: e in erows ==> e.states == old(e.states)
      ensures r.FsOk? && !IsSpecialName(name) ==>
        fi == Some(fs.StatOf(name).value) && IsFileButNotDir() && fiErr == None &&
        fsModTime == Some(fi.value.modTime) && fsHash == hash(r.value) &&
        forall e :: e in erows ==> e.states == old(e.states)[NotExist := false][FsDiffer := fsHash != savedHash]
    {
      r := fs.ReadOf(name);
      if r.FsErr? {
        return;
      }
      var h := hash(r.value);
      ReadFileInfo();
      SetFsHash(h);
    }

    /**
     * saveFsFile: writes the bytes; on success re-stats the file for its new time and records
     * their digest both as the disk digest and, with their size, as the saved one. A failed
     * write changes neither hash nor the recorded file information, though the file on disk may
     * already be truncated.
     */
    method SaveFsFile(b: Bytes) returns (err: Option<Error>)
      requires Valid()
      modifies fs, this`fi, this`fiErr, this`fsModTime, this`fsHash, this`savedSize, this`savedHash, erows`states
      ensures Valid() && err == old(fs.WriteError(name, b))
      ensures old(fs.OpenError(name)).Some? ==> unchanged(fs)
      ensures old(fs.OpenError(name)).None? ==>
        fs.clock == old(fs.clock) + 1 && fs.nodes == old(fs.nodes)[name := FileNode(b[..fs.Written(name, b)], fs.clock)]
      ensures err.Some? ==>
        fi == old(fi) && fiErr == old(fiErr) && fsModTime == old(fsModTime) &&
        fsHash == old(fsHash) && savedSize == old(savedSize) && savedHash == old(savedHash) &&
        forall e :: e in erows ==> e.states == old(e.states)
      ensures err.None? ==>
        fs.clock == old(fs.clock) + 1 && fs.nodes == old(fs.nodes)[name := FileNode(b, fs.clock)] &&
        savedSize == |b| && savedHash == hash(b)
      ensures err.None? && IsSpecialName(name) ==>
        fi == old(fi) && fiErr == old(fiErr) && fsModTime == old(fsModTime) && fsHash == old(fsHash) &&
        forall e :: e in erows ==> e.states == old(e.states)
      ensures err.None? && !IsSpecialName(name) ==>
        fi == Some(FileInfo(false, fs.clock)) && fiErr == None &&
        fsModTime == Some(fs.clock) && fsHash == savedHash &&
        forall e :: e in erows ==> e.states == old(e.states)[NotExist := false][FsDiffer := false]
    {
      err := fs.WriteFile(name, b);
      if err.Some? {
        return;
      }
      var h := hash(b);
      ReadFileInfo();
      SetFsHash(h);
      SetSavedHash(h, |b|);
    }

    /**
     * saveFile: refuses anything but a file; runs goimports over a Go file's bytes, keeping the
     * original bytes when it fails; writes the result and returns it.
     */
    method SaveBytes(b: Bytes) returns (out: Bytes, changes: bool, err: Option<Error>)
      requires Valid()
      modifies fs, this`fi, this`fiErr, this`fsModTime, this`fsHash, this`savedSize, this`savedHash, erows`states
      ensures Valid()
      ensures !old(IsFileButNotDir()) ==>
        out == [] && !changes && err == Some(ErrMsg("not a file: " + name)) &&
        unchanged(fs) && unchanged(this) && forall e :: e in erows ==> e.states == old(e.states)
      ensures old(IsFileButNotDir()) ==>
        changes == PreSave(b).1 && err == old(fs.WriteError(name, PreSave(b).0))
      ensures old(IsFileButNotDir()) && err.Some? ==>
        out == [] && unchanged(this) && forall e :: e in erows ==> e.states == old(e.states)
      ensures old(IsFileButNotDir()) && err.Some? && old(fs.OpenError(name)).Some? ==> unchanged(fs)
      ensures old(IsFileButNotDir()) && err.Some? && old(fs.OpenError(name)).None? ==>
        var w := PreSave(b).0;
        fs.clock == old(fs.clock) + 1 && fs.nodes == old(fs.nodes)[name := FileNode(w[..fs.Written(name, w)], fs.clock)]
      ensures old(IsFileButNotDir()) && err.None? ==>
        out == PreSave(b).0 && fs.nodes == old(fs.nodes)[name := FileNode(out, fs.clock)] &&
        savedSize == |out| && savedHash == hash(out) && fsHash == savedHash &&
        fi == Some(FileInfo(false, fs.clock)) && fsModTime == Some(fs.clock) &&
        forall e :: e in erows ==> e.states == old(e.states)[NotExist := false][FsDiffer := false]
    {
      if !IsFileButNotDir() {
        return [], false, Some(ErrMsg("not a file: " + name));
      }
      out, changes := b, false;
      if IsGoFile(name) {
        var u := goImports(b, PathDir(name));
        if u.Some? {
          changes := true;
          out := u.value;
        }
      }
      err := SaveFsFile(out);
      if err.Some? {
        out := [];
      }
    }

    /** updateFsHashIfNeeded: re-reads a file only when its time is not the one its digest was read at. */
    method UpdateFsHashIfNeeded()
      requires Valid()
      modifies this`fi, this`fiErr, this`fsModTime, this`fsHash, erows`states
      ensures Valid()
      ensures !old(IsFileButNotDir()) || old(fsModTime) == Some(old(fi).value.modTime) ==>
        unchanged(this) && forall e :: e in erows ==> e.states == old(e.states)
      ensures old(IsFileButNotDir()) && old(fsModTime) != Some(old(fi).value.modTime) ==>
        var r := fs.ReadOf(name);
        (r.FsErr? ==> unchanged(this) && forall e :: e in erows ==> e.states == old(e.states)) &&
        (r.FsOk? ==> fsHash == hash(r.value) && fsModTime == Some(fs.StatOf(name).value.modTime) &&
                     forall e :: e in erows ==> e.states == old(e.states)[NotExist := false][FsDiffer := fsHash != savedHash])
    {
      if !IsFileButNotDir() {
        return;
      }
      if fi.None? {
        return;
      }
      if fsModTime != Some(fi.value.modTime) {
        var _ := ReadFsFile();
      }
    }

    /**
     * UpdateDiskEvent: re-stats the file and, when it is a file whose time moved since its
     * digest was read, re-reads it and refreshes FsDiffer; a failed re-read keeps the old digest
     * and the time it was read at.
     */
    method UpdateDiskEvent()
      requires Valid()
      modifies this`fi, this`fiErr, this`fsModTime, this`fsHash, erows`states
      ensures Valid()
      ensures IsSpecialName(name) ==> unchanged(this) && forall e :: e in erows ==> e.states == old(e.states)
      ensures !IsSpecialName(name) ==> RowsSay(NotExist, fs.StatOf(name) == FsErr(ErrNotExist))
      ensures !IsSpecialName(name) && fs.StatOf(name).FsErr? ==> fsHash == old(fsHash) && fsModTime == old(fsModTime)
      ensures !IsSpecialName(name) && fs.StatOf(name).FsOk? && fs.StatOf(name).value.isDir ==>
        fsHash == old(fsHash) && fsModTime == old(fsModTime)
      ensures !IsSpecialName(name) && fs.StatOf(name).FsOk? && !fs.StatOf(name).value.isDir ==>
        var t := Some(fs.StatOf(name).value.modTime);
        (old(fsModTime) == t ==> fsHash == old(fsHash) && fsModTime == old(fsModTime)) &&
        (old(fsModTime) != t && fs.ReadOf(name).FsErr? ==> fsHash == old(fsHash) && fsModTime == old(fsModTime)) &&
        (old(fsModTime) != t && fs.ReadOf(name).FsOk? ==>
           fsModTime == t && fsHash == hash(fs.ReadOf(name).value) && RowsSay(FsDiffer, fsHash != savedHash))
    {
      ReadFileInfo();
      if IsFileButNotDir() {
        UpdateFsHashIfNeeded();
      }
    }

    /** The disableCB closure of SetRowsStrFromMaster: sets every view's flag. */
    method SetCallbacksDisabled(v: bool)
      modifies erows`disableCB
      ensures forall e :: e in erows ==> e.disableCB == v
    {
      var i := 0;
      while i < |erows|
        invariant 0 <= i <= |erows|
        invariant forall e :: e in erows[..i] ==> e.disableCB == v
      {
        erows[i].disableCB := v;
        assert erows[..i + 1] == erows[..i] + [erows[i]];
        i := i + 1;
      }
    }

    /**
     * updateDuplicatesBytes: copies the master's bytes into every other view. `triggered` says
     * whether any of those copies would have run the receiving view's mirroring callback; with
     * every flag set, none does.
     */
    method UpdateDuplicatesBytes(m: ERow) returns (triggered: bool)
      requires forall e :: e in erows ==> e.disableCB
      modifies erows`content
      ensures m.content == old(m.content) && !triggered
      ensures forall e :: e in erows ==> e.content == m.content
    {
      triggered := false;
      var i := 0;
      while i < |erows|
        invariant 0 <= i <= |erows| && m.content == old(m.content) && !triggered
        invariant forall e :: e in erows[..i] && e != m ==> e.content == m.content
      {
        var e := erows[i];
        if e != m {
          e.content := m.content;
          triggered := triggered || !e.disableCB;
        }
        assert erows[..i + 1] == erows[..i] + [erows[i]];
        i := i + 1;
      }
    }

    /**
     * SetRowsStrFromMaster: for a file, with every view's mirroring switched off, gives every
     * view the master's bytes and refreshes Edited; the flags are all off again afterwards.
     */
    method SetRowsStrFromMaster(m: ERow)
      modifies erows`content, erows`disableCB, erows`states
      ensures !IsFileButNotDir() ==> unchanged(erows)
      ensures IsFileButNotDir() ==> forall e :: e in erows ==> e.content == old(m.content) && !e.disableCB
      ensures IsFileButNotDir() && m !in erows ==> m.content == old(m.content)
      ensures IsFileButNotDir() && |erows| > 0 ==>
        forall e :: e in erows ==> e.states == old(e.states)[Edited := IsEdited(old(m.content))]
    {
      if !IsFileButNotDir() {
        return;
      }
      SetCallbacksDisabled(true);
      var _ := UpdateDuplicatesBytes(m);
      UpdateEditedRowState();
      SetCallbacksDisabled(false);
    }

    /**
     * SetRowsBytes: for a file with views, sets the first view's bytes; its mirroring callback,
     * unless switched off, then brings every other view to them.
     */
    method SetRowsBytes(b: Bytes)
      modifies erows`content, erows`disableCB, erows`states
      ensures !IsFileButNotDir() || |erows| == 0 ==> unchanged(erows)
      ensures IsFileButNotDir() && |erows| > 0 && old(erows[0].disableCB) ==>
        erows[0].content == b && erows[0].disableCB && erows[0].states == old(erows[0].states) &&
        forall e :: e in erows && e != erows[0] ==> unchanged(e)
      ensures IsFileButNotDir() && |erows| > 0 && !old(erows[0].disableCB) ==>
        (forall e :: e in erows ==> e.content == b && !e.disableCB) &&
        forall e :: e in erows ==> e.states == old(e.states)[Edited := IsEdited(b)]
    {
      if !IsFileButNotDir() {
        return;
      }
      if |erows| > 0 {
        var e0 := erows[0];
        e0.content := b;
        if !e0.disableCB {
          SetRowsStrFromMaster(e0);
        }
      }
    }

    /**
     * SaveFile: with no view nothing happens; otherwise the first view's bytes are saved and
     * the saved bytes, possibly reorganised, are given to every view.
     */
    method SaveFile() returns (err: Option<Error>)
      requires Valid() && Idle()
      modifies fs, this`fi, this`fiErr, this`fsModTime, this`fsHash, this`savedSize, this`savedHash
      modifies erows`content, erows`disableCB, erows`states
      ensures Valid() && Idle()
      ensures |erows| == 0 ==> err == None && unchanged(fs) && unchanged(this)
      ensures |erows| > 0 && !old(IsFileButNotDir()) ==>
        err == Some(ErrMsg("not a file: " + name)) && unchanged(fs) && unchanged(this) && unchanged(erows)
      ensures |erows| > 0 && old(IsFileButNotDir()) ==>
        err == old(fs.WriteError(name, PreSave(erows[0].content).0))
      ensures |erows| > 0 && old(IsFileButNotDir()) && err.Some? ==> unchanged(this) && unchanged(erows)
      ensures |erows| > 0 && old(IsFileButNotDir()) && err.Some? && old(fs.OpenError(name)).Some? ==> unchanged(fs)
      ensures |erows| > 0 && old(IsFileButNotDir()) && err.Some? && old(fs.OpenError(name)).None? ==>
        var w := PreSave(old(erows[0].content)).0;
        fs.clock == old(fs.clock) + 1 && fs.nodes == old(fs.nodes)[name := FileNode(w[..fs.Written(name, w)], fs.clock)]
      ensures |erows| > 0 && old(IsFileButNotDir()) && err.None? ==>
        var b := PreSave(old(erows[0].content)).0;
        fs.nodes == old(fs.nodes)[name := FileNode(b, fs.clock)] &&
        savedSize == |b| && savedHash == hash(b) && fsHash == savedHash && fsModTime == Some(fs.clock) &&
        (forall e :: e in erows ==> e.content == b) &&
        forall e :: e in erows ==> e.states == old(e.states)[NotExist := false][FsDiffer := false][Edited := false]
    {
      if |erows| == 0 {
        return None;
      }
      var b := erows[0].content;
      var b2, _, e := SaveBytes(b);
      if e.Some? {
        return e;
      }
      SetRowsBytes(b2);
      err := None;
    }

    /** ReloadFile: reads the file, takes its digest as the saved one and gives every view its bytes. */
    method ReloadFile() returns (err: Option<Error>)
      requires Valid() && Idle()
      modifies this`fi, this`fiErr, this`fsModTime, this`fsHash, this`savedSize, this`savedHash
      modifies erows`content, erows`disableCB, erows`states
      ensures Valid() && Idle()
      ensures fs.ReadOf(name).FsErr? ==>
        err == Some(fs.ReadOf(name).err) && unchanged(this) && unchanged(erows)
      ensures fs.ReadOf(name).FsOk? ==> err == None
      ensures fs.ReadOf(name).FsOk? && !IsSpecialName(name) ==>
        var b := fs.ReadOf(name).value;
        savedSize == |b| && savedHash == hash(b) && fsHash == savedHash &&
        fsModTime == Some(fs.StatOf(name).value.modTime) &&
        (forall e :: e in erows ==> e.content == b) &&
        forall e :: e in erows ==> e.states == old(e.states)[NotExist := false][FsDiffer := false][Edited := false]
    {
      var r := ReadFsFile();
      if r.FsErr? {
        return Some(r.err);
      }
      var b := r.value;
      label Read:
      SetSavedHash(fsHash, |b|);
      label Saved:
      SetRowsBytes(b);
      err := None;
      if !IsSpecialName(name) {
        assert !IsEdited(b);
        forall e | e in erows
          ensures e.states == old(e.states)[NotExist := false][FsDiffer := false][Edited := false]
        {
          assert old@Saved(e.states) == old(e.states)[NotExist := false][FsDiffer := false];
        }
      }
    }

    /**
     * NewFileERow: a further view takes the bytes of the first one; the first view of a file
     * takes them from disk, whose digest becomes the saved one.
     */
    method NewFileERow() returns (erow: ERow?, err: Option<Error>)
      requires Valid() && Idle()
      modifies this`erows, this`fi, this`fiErr, this`fsModTime, this`fsHash, this`savedSize, this`savedHash
      modifies erows`content, erows`disableCB, erows`states
      ensures Valid() && Idle()
      ensures |old(erows)| > 0 ==>
        err == None && erow != null && fresh(erow) && erows == old(erows) + [erow] && fi == old(fi)
      ensures |old(erows)| > 0 && IsFileButNotDir() ==>
        forall e :: e in erows ==> e.content == old(erows[0].content)
      ensures |old(erows)| == 0 && fs.ReadOf(name).FsErr? ==>
        erow == null && err == Some(fs.ReadOf(name).err) && erows == []
      ensures |old(erows)| == 0 && fs.ReadOf(name).FsOk? ==>
        err == None && erow != null && fresh(erow) && erows == [erow] && erow.content == fs.ReadOf(name).value
      ensures |old(erows)| == 0 && fs.ReadOf(name).FsOk? && !IsSpecialName(name) ==>
        var b := fs.ReadOf(name).value;
        savedSize == |b| && savedHash == hash(b) && fsHash == savedHash
    {
      if |erows| > 0 {
        var erow0 := erows[0];
        erow := CreateERow();
        SetRowsStrFromMaster(erow0);
        return erow, None;
      }
      var r := ReadFsFile();
      if r.FsErr? {
        return null, Some(r.err);
      }
      SetSavedHash(fsHash, |r.value|);
      erow := CreateERow();
      erow.content := r.value;
      err := None;
    }

    /** NewDirERow: a view of a directory; anything else is refused. */
    method NewDirERow() returns (erow: ERow?, err: Option<Error>)
      requires Valid()
      modifies this`erows
      ensures Valid()
      ensures !IsDir() ==> erow == null && err == Some(ErrMsg("not a directory")) && erows == old(erows)
      ensures IsDir() ==> err == None && erow != null && fresh(erow) && erows == old(erows) + [erow]
      ensures old(Idle()) ==> Idle()
    {
      if !IsDir() {
        return null, Some(ErrMsg("not a directory"));
      }
      erow := CreateERow();
      err := None;
    }

    /**
     * NewERow: a special name gets a plain view, a directory a directory view and a file a file
     * view; a name with no file info is refused.
     */
    method NewERow() returns (erow: ERow?, err: Option<Error>)
      requires Valid() && Idle()
      modifies this`erows, this`fi, this`fiErr, this`fsModTime, this`fsHash, this`savedSize, this`savedHash
      modifies erows`content, erows`disableCB, erows`states
      ensures Valid() && Idle()
      ensures err.None? ==> erow != null && fresh(erow) && erows == old(erows) + [erow]
      ensures err.Some? ==> erow == null && erows == old(erows)
      ensures IsSpecialName(name) || old(IsDir()) ==> err == None
      ensures !IsSpecialName(name) && old(IsFileButNotDir()) ==>
        (err.None? <==> |old(erows)| > 0 || fs.ReadOf(name).FsOk?)
      ensures !IsSpecialName(name) && old(IsFileButNotDir()) && |old(erows)| == 0 && fs.ReadOf(name).FsErr? ==>
        err == Some(fs.ReadOf(name).err)
      ensures !IsSpecialName(name) && old(IsFileButNotDir()) && |old(erows)| == 0 && fs.ReadOf(name).FsOk? ==>
        var b := fs.ReadOf(name).value;
        erow.content == b && savedSize == |b| && savedHash == hash(b) && fsHash == savedHash
      ensures !IsSpecialName(name) && old(IsFileButNotDir()) && |old(erows)| > 0 ==>
        forall e :: e in erows ==> e.content == old(erows[0].content)
      ensures !IsSpecialName(name) && old(fi).None? ==>
        err == Some(ErrMsg("unexpected erow type")) && unchanged(this)
    {
      if IsSpecialName(name) {
        erow := CreateERow();
        err := None;
      } else if IsDir() {
        erow, err := NewDirERow();
      } else if IsFileButNotDir() {
        erow, err := NewFileERow();
      } else {
        erow, err := null, Some(ErrMsg("unexpected erow type"));
      }
    }

    /** NewERowCreateOnErr: when NewERow fails, a plain view is created anyway, with the error. */
    method NewERowCreateOnErr() returns (erow: ERow, err: Option<Error>)
      requires Valid() && Idle()
      modifies this`erows, this`fi, this`fiErr, this`fsModTime, this`fsHash, this`savedSize, this`savedHash
      modifies erows`content, erows`disableCB, erows`states
      ensures Valid() && Idle()
      ensures fresh(erow) && erows == old(erows) + [erow]
      ensures IsSpecialName(name) || old(IsDir()) ==> err == None
      ensures !IsSpecialName(name) && old(IsFileButNotDir()) ==>
        (err.None? <==> |old(erows)| > 0 || fs.ReadOf(name).FsOk?)
      ensures !IsSpecialName(name) && old(IsFileButNotDir()) && |old(erows)| == 0 && fs.ReadOf(name).FsErr? ==>
        err == Some(fs.ReadOf(name).err)
      ensures !IsSpecialName(name) && old(IsFileButNotDir()) && |old(erows)| == 0 && fs.ReadOf(name).FsOk? ==>
        var b := fs.ReadOf(name).value;
        erow.content == b && savedSize == |b| && savedHash == hash(b) && fsHash == savedHash
      ensures !IsSpecialName(name) && old(IsFileButNotDir()) && |old(erows)| > 0 ==>
        forall e :: e in erows ==> e.content == old(erows[0].content)
      ensures !IsSpecialName(name) && old(fi).None? ==> err == Some(ErrMsg("unexpected erow type"))
    {
      var e;
      e, err := NewERow();
      if err.Some? {
        erow := CreateERow();
      } else {
        erow := e;
      }
    }
  }
}
