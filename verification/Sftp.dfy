/**
  SFTP file handles: buffers written at random offsets, and published to the filesystem
  when the handle is closed.
 */
module Sftp {
  import opened Paths
  import opened Text
  import opened Overlay
  import opened Refinement
  import opened Merging
  import Tree
  import FS = Filesystem

  datatype Handle = Handle(path: Path, buffer: string, isWrite: bool)

  datatype Flags = Flags(write: bool, creat: bool, trunc: bool)

  datatype Config = Config(allowUpload: bool, allowDownload: bool, limit: nat)

  datatype Error = BadHandle | Denied | NoSuchFile

  datatype Result<+T> = Ok(value: T) | Err(error: Error)

  datatype Session = Session(handles: map<string, Handle>, next: nat)

  const NUL: char := 0 as char

  function HandleName(k: nat): string {
    "h" + Decimal(k)
  }

  // ----- buffers -----

  function Zeros(n: nat): (z: string)
    ensures |z| == n && forall i :: 0 <= i < n ==> z[i] == NUL
  {
    if n == 0 then "" else [NUL] + Zeros(n - 1)
  }

  /** One write: the buffer is first extended with zeros to the end of the data. */
  function WriteAt(buffer: string, offset: nat, data: string): (r: string)
    ensures |r| == if offset + |data| > |buffer| then offset + |data| else |buffer|
  {
    var end := offset + |data|;
    var grown := if end > |buffer| then buffer + Zeros(end - |buffer|) else buffer;
    grown[..offset] + data + grown[end..]
  }

  datatype Write = Write(offset: nat, data: string)

  function Written(init: string, ws: seq<Write>): string {
    if ws == [] then init
    else WriteAt(Written(init, ws[..|ws| - 1]), ws[|ws| - 1].offset, ws[|ws| - 1].data)
  }

  predicate Covers(w: Write, i: nat) {
    w.offset <= i < w.offset + |w.data|
  }

  /** The last write that covers a position, or -1. */
  function LastCovering(ws: seq<Write>, i: nat): (k: int)
    ensures -1 <= k < |ws|
    ensures k >= 0 ==> Covers(ws[k], i)
    ensures forall j :: k < j < |ws| ==> !Covers(ws[j], i)
  {
    if ws == [] then -1
    else if Covers(ws[|ws| - 1], i) then |ws| - 1
    else LastCovering(ws[..|ws| - 1], i)
  }

  function MaxEnd(init: nat, ws: seq<Write>): (m: nat)
    ensures m >= init && forall j :: 0 <= j < |ws| ==> ws[j].offset + |ws[j].data| <= m
    ensures m == init || exists j :: 0 <= j < |ws| && m == ws[j].offset + |ws[j].data|
  {
    if ws == [] then init
    else
      var before, w := MaxEnd(init, ws[..|ws| - 1]), ws[|ws| - 1];
      if w.offset + |w.data| > before then w.offset + |w.data| else before
  }

  lemma WriteAtByte(buffer: string, offset: nat, data: string, i: nat)
    requires i < |WriteAt(buffer, offset, data)|
    ensures WriteAt(buffer, offset, data)[i] ==
      if offset <= i < offset + |data| then data[i - offset]
      else if i < |buffer| then buffer[i]
      else NUL
  {
  }

  /** After any writes, byte `i` comes from the last write that covers it, else from the
      initial content, else is zero; the length is the largest end reached. */
  lemma {:induction false} WrittenByte(init: string, ws: seq<Write>, i: nat)
    ensures |Written(init, ws)| == MaxEnd(|init|, ws)
    ensures i < |Written(init, ws)| ==>
      var k := LastCovering(ws, i);
      Written(init, ws)[i] ==
        if k >= 0 then ws[k].data[i - ws[k].offset] else if i < |init| then init[i] else 0 as char
    decreases |ws|
  {
    hide WriteAt;
    if ws != [] {
      var w := ws[|ws| - 1];
      var before := Written(init, ws[..|ws| - 1]);
      WrittenByte(init, ws[..|ws| - 1], i);
      if i < |Written(init, ws)| {
        WriteAtByte(before, w.offset, w.data, i);
      }
    }
  }

  // ----- the requests -----

  predicate IsWrite(f: Flags) {
    f.write || f.creat || f.trunc
  }

  function OpenFile(c: Config, s: Session, fs: Fs, p: Path, f: Flags): (Session, Result<string>) {
    var w := IsWrite(f);
    if (w && !c.allowUpload) || (!w && !c.allowDownload) then (s, Err(Denied))
    else if w && IsDir(fs, p) then (s, Err(Denied))
    else if !w && !Exists(fs, p) then (s, Err(NoSuchFile))
    else
      var content := if w && (f.trunc || !Exists(fs, p)) then "" else GetContent(fs, p);
      var name := HandleName(s.next);
      (Session(s.handles[name := Handle(p, content, w)], s.next + 1), Ok(name))
  }

  function ReadFile(s: Session, h: string, offset: nat, size: nat): Result<string> {
    if h !in s.handles then Err(BadHandle)
    else
      var b := s.handles[h].buffer;
      if offset >= |b| then Ok("") else Ok(b[offset..if offset + size < |b| then offset + size else |b|])
  }

  function WriteFile(c: Config, s: Session, h: string, w: Write): (Session, Result<nat>) {
    if h !in s.handles then (s, Err(BadHandle))
    else if !s.handles[h].isWrite then (s, Err(Denied))
    else if |s.handles[h].buffer| + |w.data| > c.limit then (s, Err(Denied))
    else
      var fh := s.handles[h];
      (s.(handles := s.handles[h := fh.(buffer := WriteAt(fh.buffer, w.offset, w.data))]), Ok(|w.data|))
  }

  /** Closing a handle opened for writing stores its buffer as a file. */
  function CloseFile(s: Session, fs: Fs, h: string): (Session, Fs) {
    if h !in s.handles then (s, fs)
    else
      var fh := s.handles[h];
      (s.(handles := s.handles - {h}), if fh.isWrite then MkFile(fs, fh.path, fh.buffer, ROOT_FILE) else fs)
  }

  // ----- runs over the handle table -----

  datatype Request =
    | Open(path: Path, flags: Flags)
    | Put(handle: string, w: Write)
    | Close(handle: string)

  datatype State = State(s: Session, fs: Fs)

  function Apply(c: Config, st: State, r: Request): State {
    match r
    case Open(p, f) => State(OpenFile(c, st.s, st.fs, p, f).0, st.fs)
    case Put(h, w) => State(WriteFile(c, st.s, h, w).0, st.fs)
    case Close(h) =>
      var (s, fs) := CloseFile(st.s, st.fs, h);
      State(s, fs)
  }

  function Run(c: Config, st: State, rs: seq<Request>): State {
    if rs == [] then st else Apply(c, Run(c, st, rs[..|rs| - 1]), rs[|rs| - 1])
  }

  /** Every open handle was issued under an earlier number. */
  ghost predicate Issued(s: Session) {
    forall h :: h in s.handles ==> exists k: nat :: k < s.next && h == HandleName(k)
  }

  lemma HandleNameInjective(j: nat, k: nat)
    requires HandleName(j) == HandleName(k)
    ensures j == k
  {
    assert HandleName(j)[1..] == Decimal(j) && HandleName(k)[1..] == Decimal(k);
    DecimalInjective(j, k);
  }

  /** A new handle differs from every handle issued before, open or closed. */
  lemma NeverReused(c: Config, s: Session, fs: Fs, p: Path, f: Flags)
    requires Issued(s)
    ensures Issued(OpenFile(c, s, fs, p, f).0) && s.next <= OpenFile(c, s, fs, p, f).0.next
    ensures OpenFile(c, s, fs, p, f).1.Err? ==> OpenFile(c, s, fs, p, f).0 == s
    ensures OpenFile(c, s, fs, p, f).1.Ok? ==>
      var (t, r) := OpenFile(c, s, fs, p, f);
      && (forall k: nat :: k < s.next ==> HandleName(k) != r.value)
      && t.next == s.next + 1 && t.handles.Keys == s.handles.Keys + {r.value} && r.value !in s.handles
      && (forall h :: h in s.handles ==> t.handles[h] == s.handles[h])
  {
    var (t, r) := OpenFile(c, s, fs, p, f);
    if r.Ok? {
      forall k: nat | k < s.next ensures HandleName(k) != r.value {
        if HandleName(k) == HandleName(s.next) { HandleNameInjective(k, s.next); }
      }
      forall h | h in t.handles ensures exists k: nat :: k < t.next && h == HandleName(k) {
        if h == r.value {
          assert h == HandleName(s.next);
        } else {
          var k: nat :| k < s.next && h == HandleName(k);
        }
      }
    }
  }

  lemma {:induction false} RunIssued(c: Config, st: State, rs: seq<Request>)
    requires Issued(st.s)
    ensures Issued(Run(c, st, rs).s) && st.s.next <= Run(c, st, rs).s.next
    decreases |rs|
  {
    hide Issued;
    if rs != [] {
      var before, r := Run(c, st, rs[..|rs| - 1]), rs[|rs| - 1];
      RunIssued(c, st, rs[..|rs| - 1]);
      match r {
        case Open(p, f) => NeverReused(c, before.s, before.fs, p, f);
        case Put(h, w) => StillIssued(before.s, WriteFile(c, before.s, h, w).0);
        case Close(h) => StillIssued(before.s, CloseFile(before.s, before.fs, h).0);
      }
    }
  }

  lemma StillIssued(s: Session, t: Session)
    requires Issued(s) && t.next == s.next && t.handles.Keys <= s.handles.Keys
    ensures Issued(t)
  {
  }

  /** The writes to one handle that succeed in a run. */
  function Successful(c: Config, st: State, rs: seq<Request>, h: string): seq<Write> {
    if rs == [] then []
    else
      var before, r := Successful(c, st, rs[..|rs| - 1], h), rs[|rs| - 1];
      if r.Put? && r.handle == h && WriteFile(c, Run(c, st, rs[..|rs| - 1]).s, h, r.w).1.Ok? then before + [r.w]
      else before
  }

  ghost predicate NeverCloses(rs: seq<Request>, h: string) {
    forall i :: 0 <= i < |rs| ==> rs[i] != Close(h)
  }

  /** One request leaves a handle alone unless it closes it or successfully writes to it. */
  lemma ApplyBuffer(c: Config, st: State, r: Request, h: string)
    requires Issued(st.s) && h in st.s.handles && r != Close(h)
    ensures
      var after, was := Apply(c, st, r).s, st.s.handles[h];
      && h in after.handles
      && after.handles[h] ==
           if r.Put? && r.handle == h && WriteFile(c, st.s, h, r.w).1.Ok?
           then was.(buffer := WriteAt(was.buffer, r.w.offset, r.w.data))
           else was
  {
    hide Issued, WriteAt, OpenFile;
    if r.Open? {
      NeverReused(c, st.s, st.fs, r.path, r.flags);
    }
  }

  /** In any run that does not close a handle, whatever happens to the others, its buffer is
      its initial buffer with exactly the successful writes to it applied in order. */
  lemma {:induction false} RunBuffer(c: Config, st: State, rs: seq<Request>, h: string)
    requires Issued(st.s) && h in st.s.handles && NeverCloses(rs, h)
    ensures
      var after := Run(c, st, rs).s;
      h in after.handles &&
      after.handles[h] == st.s.handles[h].(buffer := Written(st.s.handles[h].buffer, Successful(c, st, rs, h)))
    decreases |rs|
  {
    hide Issued, WriteAt, Apply, OpenFile, WriteFile;
    if rs != [] {
      var prefix, r := rs[..|rs| - 1], rs[|rs| - 1];
      assert forall i :: 0 <= i < |prefix| ==> prefix[i] == rs[i];
      RunBuffer(c, st, prefix, h);
      RunIssued(c, st, prefix);
      var ws := Successful(c, st, prefix, h);
      ApplyBuffer(c, Run(c, st, prefix), r, h);
      if r.Put? { assert (ws + [r.w])[..|ws|] == ws; }
    }
  }

  /** A read returns the slice of the buffer at the offset, cut at its end. */
  lemma ReadIsSlice(s: Session, h: string, offset: nat, size: nat)
    requires h in s.handles
    ensures
      var b, r := s.handles[h].buffer, ReadFile(s, h, offset, size);
      && r.Ok?
      && |r.value| == (if offset >= |b| then 0 else if |b| - offset < size then |b| - offset else size)
      && forall i :: 0 <= i < |r.value| ==> r.value[i] == b[offset + i]
  {
  }

  /** A successful write keeps the buffer within its former length or the limit exactly when
      it ends within them; a write that leaves no gap always does. */
  lemma LimitHolds(c: Config, s: Session, h: string, w: Write)
    requires h in s.handles && WriteFile(c, s, h, w).1.Ok?
    ensures
      var b, after := s.handles[h].buffer, WriteFile(c, s, h, w).0.handles[h].buffer;
      var bound := if |b| > c.limit then |b| else c.limit;
      && (|after| <= bound <==> w.offset + |w.data| <= bound)
      && (w.offset <= |b| ==> |after| <= bound)
  {
  }

  /** Every successful write to the handle starts within its buffer. */
  ghost predicate WithoutGaps(c: Config, st: State, rs: seq<Request>, h: string)
    decreases |rs|
  {
    rs == [] ||
    (var before, r := Run(c, st, rs[..|rs| - 1]).s, rs[|rs| - 1];
     && WithoutGaps(c, st, rs[..|rs| - 1], h)
     && (r.Put? && r.handle == h && h in before.handles ==> r.w.offset <= |before.handles[h].buffer|))
  }

  /** With contiguous offsets a buffer never outgrows its initial length or the limit. */
  lemma {:induction false} RunWithinLimit(c: Config, st: State, rs: seq<Request>, h: string)
    requires Issued(st.s) && h in st.s.handles && NeverCloses(rs, h) && WithoutGaps(c, st, rs, h)
    ensures h in Run(c, st, rs).s.handles
    ensures
      var length := |st.s.handles[h].buffer|;
      |Run(c, st, rs).s.handles[h].buffer| <= if length > c.limit then length else c.limit
    decreases |rs|
  {
    hide Issued, WriteAt, Apply, OpenFile, WriteFile;
    if rs != [] {
      var prefix, r := rs[..|rs| - 1], rs[|rs| - 1];
      assert forall i :: 0 <= i < |prefix| ==> prefix[i] == rs[i];
      RunWithinLimit(c, st, prefix, h);
      RunIssued(c, st, prefix);
      var before := Run(c, st, prefix);
      ApplyBuffer(c, before, r, h);
      if r.Put? && r.handle == h && WriteFile(c, before.s, h, r.w).1.Ok? {
        LimitHolds(c, before.s, h, r.w);
        WrittenBuffer(c, before.s, h, r.w);
      }
    }
  }

  lemma WrittenBuffer(c: Config, s: Session, h: string, w: Write)
    requires h in s.handles && WriteFile(c, s, h, w).1.Ok?
    ensures
      var t := WriteFile(c, s, h, w).0;
      h in t.handles && t.handles[h].buffer == WriteAt(s.handles[h].buffer, w.offset, w.data)
  {
  }

  /** A gap is not counted: a one-byte write far out passes the check and exceeds the limit. */
  lemma GapExceedsLimit(c: Config, s: Session, h: string)
    requires c.limit > 0 && h in s.handles && s.handles[h].isWrite && s.handles[h].buffer == ""
    ensures
      var (t, r) := WriteFile(c, s, h, Write(c.limit, "x"));
      r.Ok? && |t.handles[h].buffer| == c.limit + 1
  {
  }

  /** Closing publishes exactly the buffer when the path's parent is a directory, and
      nothing otherwise. */
  lemma ClosePublishes(s: Session, fs: Fs, h: string)
    requires Inv(fs) && h in s.handles && s.handles[h].isWrite
    requires Canonical(s.handles[h].path) && s.handles[h].path != []
    ensures
      var p, (t, after) := s.handles[h].path, CloseFile(s, fs, h);
      && h !in t.handles && Inv(after)
      && Abs(after) == (if IsDir(fs, Parent(p)) then Abs(fs)[p := Tree.F(s.handles[h].buffer)] else Abs(fs))
  {
    var p := s.handles[h].path;
    MkFileRefines(fs, p, s.handles[h].buffer, ROOT_FILE);
    AbsAt(fs, Parent(p));
  }

  // ----- what the requests answer -----

  /** A file opens for writing where uploads are allowed and the path is no directory, and for
      reading where downloads are allowed and it exists. The handle is the next number's and
      starts with the path's content, or with nothing when the file is new or truncated. */
  lemma OpenExact(c: Config, s: Session, fs: Fs, p: Path, f: Flags)
    requires Inv(fs)
    ensures
      var (t, r) := OpenFile(c, s, fs, p, f);
      var w, tree := f.write || f.creat || f.trunc, Abs(fs);
      && (r.Ok? <==> if w then c.allowUpload && !Tree.DirAt(tree, p) else c.allowDownload && p in tree)
      && (r.Err? ==> t == s && r.error == if !w && c.allowDownload then NoSuchFile else Denied)
      && (r.Ok? ==>
            && r.value == "h" + Decimal(s.next) && t.next == s.next + 1
            && t.handles == s.handles[r.value := t.handles[r.value]]
            && t.handles[r.value].path == p && t.handles[r.value].isWrite == w
            && (f.trunc || p !in tree ==> t.handles[r.value].buffer == "")
            && (!f.trunc && p in tree && !tree[p].D? ==> t.handles[r.value].buffer == tree[p].content))
  {
    hide Inv, Abs, Exists, IsDir, IsFile, GetContent;
    AbsAt(fs, p);
  }

  /** A write is accepted on an open handle for writing that the data, added to what is there,
      does not take over the limit, and then reports its length. */
  lemma WriteAnswers(c: Config, s: Session, h: string, w: Write)
    ensures
      var (t, r) := WriteFile(c, s, h, w);
      && (r.Ok? <==> h in s.handles && s.handles[h].isWrite && |s.handles[h].buffer| + |w.data| <= c.limit)
      && (r.Ok? ==> r.value == |w.data|)
      && (r.Err? ==> t == s && (r.error.BadHandle? <==> h !in s.handles) && !r.error.NoSuchFile?)
  {
  }

  /** Reading fails exactly on a handle that is not open, and closing one that was opened for
      reading, or is not open, leaves the filesystem alone. */
  lemma ReadAndCloseAnswer(s: Session, fs: Fs, h: string, offset: nat, size: nat)
    ensures ReadFile(s, h, offset, size) == Err(BadHandle) <==> h !in s.handles
    ensures CloseFile(s, fs, h).0 == s.(handles := s.handles - {h})
    ensures h !in s.handles || !s.handles[h].isWrite ==> CloseFile(s, fs, h).1 == fs
  {
  }

  /** The stored file belongs to root and has the default permissions. */
  lemma ClosedAttributes(s: Session, fs: Fs, h: string)
    requires Inv(fs) && h in s.handles && s.handles[h].isWrite && s.handles[h].path != []
    ensures
      var p, buffer := s.handles[h].path, s.handles[h].buffer;
      Merged(CloseFile(s, fs, h).1) ==
        if Tree.DirAt(Abs(fs), Parent(p)) then Merged(fs)[p := Entry(File, buffer, Attrs("root", "root", "-rw-r--r--"))]
        else Merged(fs)
  {
    hide Inv, Abs, Merged, MkFile;
    MkFileMerged(fs, s.handles[h].path, s.handles[h].buffer, ROOT_FILE);
  }

  // ----- the handler object -----

  class SftpHandler {
    const config: Config
    const fs: FS.FakeFilesystem
    var fileHandles: map<string, Handle>
    var nextHandleId: nat

    constructor (config: Config, fs: FS.FakeFilesystem)
      ensures this.config == config && this.fs == fs && State() == Session(map[], 0)
    {
      this.config, this.fs := config, fs;
      fileHandles, nextHandleId := map[], 0;
    }

    ghost function State(): Session
      reads this
    {
      Session(fileHandles, nextHandleId)
    }

    method OpenPath(p: Path, flags: Flags) returns (r: Result<string>)
      modifies this
      ensures (State(), r) == OpenFile(config, old(State()), old(fs.State()), p, flags)
    {
      var w := IsWrite(flags);
      var now := Fs(fs.memoryOverlay, fs.deletedPaths, fs.base);
      if w && !config.allowUpload { return Err(Denied); }
      if !w && !config.allowDownload { return Err(Denied); }
      if w && IsDir(now, p) { return Err(Denied); }
      var content := "";
      if w {
        if !flags.trunc && Exists(now, p) { content := GetContent(now, p); }
      } else {
        if !Exists(now, p) { return Err(NoSuchFile); }
        content := GetContent(now, p);
      }
      var name := HandleName(nextHandleId);
      nextHandleId := nextHandleId + 1;
      fileHandles := fileHandles[name := Handle(p, content, w)];
      r := Ok(name);
    }

    method ReadAt(h: string, offset: nat, size: nat) returns (r: Result<string>)
      ensures r == ReadFile(State(), h, offset, size)
    {
      if h !in fileHandles { return Err(BadHandle); }
      var buffer := fileHandles[h].buffer;
      if offset >= |buffer| { return Ok(""); }
      var end := if offset + size < |buffer| then offset + size else |buffer|;
      r := Ok(buffer[offset..end]);
    }

    method WriteBytes(h: string, offset: nat, data: string) returns (r: Result<nat>)
      modifies this`fileHandles
      ensures (State(), r) == WriteFile(config, old(State()), h, Write(offset, data))
    {
      if h !in fileHandles { return Err(BadHandle); }
      var fh := fileHandles[h];
      if !fh.isWrite { return Err(Denied); }
      if |fh.buffer| + |data| > config.limit { return Err(Denied); }
      var end := offset + |data|;
      var buffer := fh.buffer;
      if end > |buffer| {
        buffer := buffer + Zeros(end - |buffer|);
      }
      buffer := buffer[..offset] + data + buffer[end..];
      fileHandles := fileHandles[h := fh.(buffer := buffer)];
      r := Ok(|data|);
    }

    method CloseHandle(h: string)
      modifies this`fileHandles, fs
      ensures (State(), fs.State()) == CloseFile(old(State()), old(fs.State()), h)
    {
      if h !in fileHandles { return; }
      var fh := fileHandles[h];
      fileHandles := fileHandles - {h};
      if fh.isWrite {
        var _ := fs.MkFile(fh.path, fh.buffer, ROOT_FILE);
      }
    }
  }
}
