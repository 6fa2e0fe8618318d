/** Listing a directory: virtual subdirectories first, then the entries of the real one (vfs.c). */
module VfsListing {
  import opened Options
  import opened CStrings
  import opened Sequences
  import opened Sorting
  import opened StringLists
  import opened Paths
  import opened VfsTree
  import opened VfsCore
  import opened VfsAccess

  const MAX_NAME := 255

  datatype EntryType = DtReg | DtDir | DtLnk | DtOther

  /** What the next read of a directory stream yields. */
  datatype StreamItem = Item(name: CString, entryType: EntryType) | Fault

  datatype Timespec = Timespec(seconds: int, nanoseconds: nat)

  datatype FileStatus = FileStatus(kind: FileKind, mode: bv16, uid: nat, gid: nat, size: nat,
                                   mtime: Timespec, ctime: Timespec, atime: Timespec)

  /** `fstatat` relative to the open directory. */
  type StatAt = CString -> Option<FileStatus>

  /** Where there is no open directory, nothing is found. */
  const NO_STATUS: StatAt := (name: CString) => None

  /** `struct vfs_dirent_t` */
  datatype Dirent = Dirent(filename: CString, eof: bool, isFile: bool, uid: nat, gid: nat, filesize: nat,
                           permissions: bv16, mtime: Timespec, ctime: Timespec, atime: Timespec)

  const NO_TIME := Timespec(0, 0)

  const ZEROED := Dirent("", false, false, 0, 0, 0, 0, NO_TIME, NO_TIME, NO_TIME)

  /** A file name as it fits into a directory entry. */
  function Fitted(name: CString): (fitted: CString)
    ensures fitted <= name && |fitted| == if |name| <= 255 then |name| else 255
  {
    if |name| <= MAX_NAME then name else name[..MAX_NAME]
  }

  /** `vfs_stat_virtual_directory` */
  function VirtualDirent(name: CString, flags: Flags): Dirent {
    ZEROED.(filename := Fitted(name), permissions := if flags & READ_ONLY != 0 then 0x16D else 0x1ED)
  }

  /** Owners are cut to the 16 bits that a directory entry has for them. */
  function ToUint16(x: nat): nat { x % 0x1_0000 }

  /** `vfs_stat_statbuf` */
  function RealDirent(name: CString, status: FileStatus, flags: Flags): Dirent {
    Dirent(Fitted(name), false, status.kind == RegularFile, ToUint16(status.uid), ToUint16(status.gid), status.size,
           if flags & READ_ONLY != 0 then status.mode & 0x1FF & !0x92 else status.mode & 0x1FF,
           status.mtime, status.ctime, status.atime)
  }

  datatype HandleType = FileHandle | DirectoryHandle

  /** What a read depends on: the inode's child list, if there is an inode, and the handle itself. */
  datatype ListingState = ListingState(
    handleType: HandleType, list: Option<ListState>, index: nat,
    stream: Option<seq<StreamItem>>, statAt: StatAt, flags: Flags)
  {
    function Names(): seq<CString> {
      if list.Some? then list.value.strings else []
    }
    function Unread(): seq<StreamItem> {
      if stream.Some? then stream.value else []
    }
    /** There is something to list: an inode, an open directory, or both. */
    predicate Listable() {
      handleType == DirectoryHandle && (list.Some? || stream.Some?)
    }
    predicate AtEnd() {
      index >= |Names()| && Unread() == [] && Listable()
    }
  }

  /** An entry that is passed over without touching the child list. */
  predicate Ignored(item: StreamItem)
    requires item.Item?
  {
    item.name == "." || item.name == ".." || item.entryType == DtOther
  }

  /** A real entry that is listed: supported, not shadowed by a virtual one, and a file or directory. */
  predicate Listed(item: StreamItem, names: seq<CString>, statAt: StatAt) {
    && item.Item? && !Ignored(item) && item.name !in names
    && var status := statAt(Fitted(item.name));
       status.Some? && status.value.kind != OtherKind
  }

  datatype ReadResult = ReadResult(state: ListingState, dirent: Dirent, failed: bool)

  /** The state after an entry has been considered; asking the child list may sort it. */
  function StateAfter(s: ListingState, item: StreamItem): ListingState
    requires item.Item?
  {
    if Ignored(item) || s.list == None then s else s.(list := Some(s.list.value.AfterContains()))
  }

  /** What considering an entry leaves in the caller's buffer. */
  function DirentAfter(s: ListingState, item: StreamItem, dirent: Dirent): Dirent
    requires item.Item?
  {
    if Ignored(item) || item.name in s.Names() then dirent
    else if Listed(item, s.Names(), s.statAt) then
      RealDirent(item.name, s.statAt(Fitted(item.name)).value, s.flags)
    else dirent.(filename := Fitted(item.name))
  }

  /** Reading on in the stream until an entry is listed. */
  function ReadStream(s: ListingState, dirent: Dirent): ReadResult
    decreases |s.Unread()|
  {
    if s.Unread() == [] then ReadResult(s, dirent.(eof := true), false)
    else
      var item, next := s.Unread()[0], s.(stream := Some(s.Unread()[1..]));
      if item.Fault? then ReadResult(next, dirent, true)
      else if Listed(item, s.Names(), s.statAt) then
        ReadResult(StateAfter(next, item), DirentAfter(s, item, dirent), false)
      else ReadStream(StateAfter(next, item), DirentAfter(s, item, dirent))
  }

  /** One call of `vfs_readdir`. */
  function Read(s: ListingState, dirent: Dirent): ReadResult {
    if !s.Listable() then ReadResult(s, dirent, true)
    else if s.index < |s.Names()| then
      ReadResult(s.(index := s.index + 1), VirtualDirent(s.Names()[s.index], s.flags), false)
    else ReadStream(s, dirent)
  }

  //
  // The handle
  //

  /** An open directory stream of the host. */
  class DirStream {
    const items: seq<StreamItem>
    const statAt: StatAt
    var pos: nat

    constructor (items: seq<StreamItem>, statAt: StatAt)
      ensures this.items == items && this.statAt == statAt && pos == 0
    {
      this.items, this.statAt, pos := items, statAt, 0;
    }

    /** `readdir`: the next item, or None at the end. */
    method Next() returns (item: Option<StreamItem>)
      requires pos <= |items|
      modifies this
      ensures pos <= |items|
      ensures if old(pos) == |items| then item == None && pos == old(pos)
              else item == Some(items[old(pos)]) && pos == old(pos) + 1
    {
      if pos == |items| {
        return None;
      }
      item := Some(items[pos]);
      pos := pos + 1;
    }
  }

  /** A directory handle: what `vfs_opendir` leaves in `struct vfs_handle_t`. */
  class DirHandle {
    const handleType: HandleType
    const inode: Inode?
    const dir: DirStream?
    const flags: Flags
    var internalNodeIndex: nat

    constructor (handleType: HandleType, inode: Inode?, dir: DirStream?, flags: Flags)
      ensures this.handleType == handleType && this.inode == inode && this.dir == dir && this.flags == flags
      ensures internalNodeIndex == 0
    {
      this.handleType, this.inode, this.dir, this.flags, internalNodeIndex := handleType, inode, dir, flags, 0;
    }

    /** The objects a read goes through. */
    ghost function Footprint(): set<object> {
      {this as object} + (if inode == null then {} else {inode.virtualSubdirs}) + if dir == null then {} else {dir}
    }

    ghost predicate Valid()
      reads this, Footprint()
    {
      && (dir != null ==> dir.pos <= |dir.items|)
      && (inode != null ==> inode.virtualSubdirs.State().Valid())
    }

    ghost function State(): ListingState
      requires Valid()
      reads this, Footprint()
    {
      ListingState(
        handleType,
        if inode == null then None else Some(inode.virtualSubdirs.State()),
        internalNodeIndex,
        if dir == null then None else Some(dir.items[dir.pos..]),
        if dir == null then NO_STATUS else dir.statAt,
        flags)
    }

    /** `vfs_readdir` */
    method Readdir(before: Dirent) returns (failed: bool, dirent: Dirent)
      requires Valid()
      modifies Footprint()
      ensures Valid()
      ensures ReadResult(State(), dirent, failed) == Read(old(State()), before)
    {
      dirent := before;
      if handleType != DirectoryHandle {
        return true, dirent;
      }
      if inode == null && dir == null {
        return true, dirent;
      }
      if inode != null {
        if internalNodeIndex < |inode.virtualSubdirs.strings| {
          var virtualDirname := inode.virtualSubdirs.strings[internalNodeIndex];
          internalNodeIndex := internalNodeIndex + 1;
          return false, VirtualDirent(virtualDirname, flags);
        }
      }
      failed, dirent := ReadOn(dirent);
    }

    /** The loop over the stream. */
    method ReadOn(before: Dirent) returns (failed: bool, dirent: Dirent)
      requires Valid()
      modifies Footprint()
      ensures Valid()
      ensures ReadResult(State(), dirent, failed) == ReadStream(old(State()), before)
    {
      dirent := before;
      while dir != null
        invariant Valid()
        invariant ReadStream(State(), dirent) == ReadStream(old(State()), before)
        decreases if dir == null then 0 else |dir.items| - dir.pos
      {
        var done;
        done, failed, dirent := ReadEntry(dirent);
        if done {
          return;
        }
      }
      dirent := dirent.(eof := true);
      return false, dirent;
    }

    /** One round of the loop: reads an entry, and is done at the end, at a fault and with a listed entry. */
    method ReadEntry(before: Dirent) returns (done: bool, failed: bool, dirent: Dirent)
      requires Valid() && dir != null
      modifies Footprint()
      ensures Valid()
      ensures done ==> ReadResult(State(), dirent, failed) == ReadStream(old(State()), before)
      ensures !done ==> dir.pos > old(dir.pos) && ReadStream(State(), dirent) == ReadStream(old(State()), before)
    {
      dirent := before;
      ghost var s := State();
      var item := dir.Next();
      if item == None {
        return true, false, dirent.(eof := true);
      }
      assert State() == s.(stream := Some(s.Unread()[1..])) && s.Unread() != [] && item.value == s.Unread()[0];
      if item.value.Fault? {
        return true, true, dirent;
      }
      done, dirent := Consider(item.value, dirent);
      failed := false;
    }

    /** Decides about one entry, and fills it in. */
    method Consider(item: StreamItem, before: Dirent) returns (listed: bool, dirent: Dirent)
      requires Valid() && item.Item? && dir != null
      modifies if inode == null then {} else {inode.virtualSubdirs}
      ensures Valid() && State() == StateAfter(old(State()), item)
      ensures listed <==> Listed(item, old(State()).Names(), dir.statAt)
      ensures dirent == DirentAfter(old(State()), item, before)
    {
      dirent := before;
      if Ignored(item) {
        return false, dirent;
      }
      if inode != null {
        ContainsKeepsOrder(inode.virtualSubdirs.State());
        var shadowed := inode.virtualSubdirs.Contains(item.name);
        if shadowed {
          return false, dirent;
        }
      }
      dirent := dirent.(filename := Fitted(item.name));
      var status := dir.statAt(dirent.filename);
      if status == None {
        return false, dirent;
      }
      if status.value.kind == OtherKind {
        return false, dirent;
      }
      return true, RealDirent(item.name, status.value, flags);
    }
  }

  /** Asking for membership keeps a list's elements and leaves its flag truthful. */
  lemma ContainsKeepsOrder(list: ListState)
    requires list.Valid()
    ensures list.AfterContains().Valid()
    ensures multiset(list.AfterContains().strings) == multiset(list.strings)
    ensures forall s :: s in list.AfterContains().strings <==> s in list.strings
    ensures |list.AfterContains().strings| == |list.strings|
  {
    SortByCorrect(list.strings, Itself);
    SameElements(list.AfterContains().strings, list.strings);
  }

  //
  // Draining a handle
  //

  function Remaining(s: ListingState): nat {
    (if s.index < |s.Names()| then |s.Names()| - s.index else 0) + |s.Unread()|
  }

  lemma StateAfterKeeps(s: ListingState, item: StreamItem)
    requires item.Item? && (s.list.Some? ==> s.list.value.Valid())
    ensures var after := StateAfter(s, item);
            && after.Unread() == s.Unread() && |after.Names()| == |s.Names()| && after.index == s.index
            && (after.list.Some? <==> s.list.Some?) && (after.list.Some? ==> after.list.value.Valid())
            && forall name :: name in after.Names() <==> name in s.Names()
  {
    if s.list.Some? {
      ContainsKeepsOrder(s.list.value);
    }
  }

  predicate Usable(s: ListingState) {
    s.list.Some? ==> s.list.value.Valid()
  }

  lemma {:induction false} ReadStreamProgress(s: ListingState, dirent: Dirent)
    requires Usable(s) && s.index >= |s.Names()|
    ensures var r := ReadStream(s, dirent);
            && Usable(r.state) && r.state.index >= |r.state.Names()|
            && (r.failed || !r.dirent.eof ==> |r.state.Unread()| < |s.Unread()|)
    decreases |s.Unread()|
  {
    if s.Unread() != [] {
      var item, next := s.Unread()[0], s.(stream := Some(s.Unread()[1..]));
      if item.Item? {
        StateAfterKeeps(next, item);
        if !Listed(item, s.Names(), s.statAt) {
          ReadStreamProgress(StateAfter(next, item), DirentAfter(s, item, dirent));
        }
      }
    }
  }

  lemma ReadProgress(s: ListingState, dirent: Dirent)
    requires Usable(s)
    ensures var r := Read(s, dirent);
            Usable(r.state) && (!r.failed && !r.dirent.eof ==> Remaining(r.state) < Remaining(s))
  {
    if s.index >= |s.Names()| {
      ReadStreamProgress(s, dirent);
    }
  }

  datatype Drained = Drained(entries: seq<Dirent>, state: ListingState, failed: bool)

  /** Reading until the end or a failure, always into the same buffer. */
  function Drain(s: ListingState, dirent: Dirent): Drained
    requires Usable(s)
    decreases Remaining(s)
  {
    ReadProgress(s, dirent);
    var r := Read(s, dirent);
    if r.failed || r.dirent.eof then Drained([], r.state, r.failed)
    else
      var rest := Drain(r.state, r.dirent);
      Drained([r.dirent] + rest.entries, rest.state, rest.failed)
  }

  /** `whole` is what has been collected so far, followed by draining the rest. */
  ghost predicate DrainedSoFar(whole: Drained, entries: seq<Dirent>, s: ListingState, dirent: Dirent) {
    Usable(s) && whole == Drained(entries + Drain(s, dirent).entries, Drain(s, dirent).state, Drain(s, dirent).failed)
  }

  lemma DrainBegins(s: ListingState, dirent: Dirent)
    requires Usable(s)
    ensures DrainedSoFar(Drain(s, dirent), [], s, dirent)
  {
    Neutral(Drain(s, dirent).entries);
  }

  lemma DrainOneMore(whole: Drained, entries: seq<Dirent>, s: ListingState, dirent: Dirent)
    requires DrainedSoFar(whole, entries, s, dirent)
    ensures var r := Read(s, dirent);
            if r.failed || r.dirent.eof then whole == Drained(entries, r.state, r.failed)
            else DrainedSoFar(whole, entries + [r.dirent], r.state, r.dirent) && Remaining(r.state) < Remaining(s)
  {
    ReadProgress(s, dirent);
    var r := Read(s, dirent);
    if r.failed || r.dirent.eof {
      assert entries + [] == entries;
    } else {
      var rest := Drain(r.state, r.dirent).entries;
      assert entries + ([r.dirent] + rest) == (entries + [r.dirent]) + rest;
    }
  }

  /** The listing loop of a client, e.g. the debugging shell's `ls`. */
  method ListAll(handle: DirHandle) returns (entries: seq<Dirent>, failed: bool)
    requires handle.Valid()
    modifies handle.Footprint()
    ensures handle.Valid()
    ensures exists buffer :: Drained(entries, handle.State(), failed) == Drain(old(handle.State()), buffer)
  {
    var dirent := ZEROED;
    ghost var buffer := dirent;
    ghost var whole := Drain(handle.State(), buffer);
    entries, failed := [], false;
    DrainBegins(handle.State(), dirent);
    while true
      invariant handle.Valid() && DrainedSoFar(whole, entries, handle.State(), dirent)
      decreases Remaining(handle.State())
    {
      DrainOneMore(whole, entries, handle.State(), dirent);
      failed, dirent := handle.Readdir(dirent);
      if failed || dirent.eof {
        return;
      }
      entries := entries + [dirent];
    }
  }

  //
  // What a full drain returns
  //

  predicate NoFaults(items: seq<StreamItem>) {
    forall k | 0 <= k < |items| :: items[k].Item?
  }

  /** The virtual subdirectories from position `from` on. */
  function VirtualPart(names: seq<CString>, from: nat, flags: Flags): seq<Dirent>
    requires from <= |names|
  {
    seq(|names| - from, k requires 0 <= k < |names| - from => VirtualDirent(names[from + k], flags))
  }

  lemma VirtualPartFirst(names: seq<CString>, from: nat, flags: Flags)
    requires from < |names|
    ensures VirtualPart(names, from, flags)
         == [VirtualDirent(names[from], flags)] + VirtualPart(names, from + 1, flags)
  {
  }

  /** The listed entries of the real directory, in stream order. */
  function RealPart(items: seq<StreamItem>, names: seq<CString>, statAt: StatAt, flags: Flags): seq<Dirent> {
    if items == [] then []
    else
      var rest := RealPart(items[1..], names, statAt, flags);
      if Listed(items[0], names, statAt)
      then [RealDirent(items[0].name, statAt(Fitted(items[0].name)).value, flags)] + rest
      else rest
  }

  lemma {:induction false} RealPartByMembership(items: seq<StreamItem>, names: seq<CString>, names': seq<CString>,
                                                statAt: StatAt, flags: Flags)
    requires forall name :: name in names <==> name in names'
    ensures RealPart(items, names, statAt, flags) == RealPart(items, names', statAt, flags)
  {
    if items != [] {
      RealPartByMembership(items[1..], names, names', statAt, flags);
    }
  }

  /** What is still to come once the virtual subdirectories are through. */
  function RealRest(s: ListingState): seq<Dirent> {
    RealPart(s.Unread(), s.Names(), s.statAt, s.flags)
  }

  /** The virtual subdirectories are through, and the rest of the stream is free of errors. */
  predicate Streaming(s: ListingState) {
    Usable(s) && s.index >= |s.Names()| && NoFaults(s.Unread()) && s.Listable()
  }

  lemma StreamStep(s: ListingState)
    requires Streaming(s) && s.Unread() != []
    ensures var item := s.Unread()[0];
            var after := StateAfter(s.(stream := Some(s.Unread()[1..])), item);
            && Streaming(after) && |after.Unread()| < |s.Unread()|
            && RealRest(s) == if Listed(item, s.Names(), s.statAt)
                              then [RealDirent(item.name, s.statAt(Fitted(item.name)).value, s.flags)] + RealRest(after)
                              else RealRest(after)
  {
    var item, next := s.Unread()[0], s.(stream := Some(s.Unread()[1..]));
    var after := StateAfter(next, item);
    StateAfterKeeps(next, item);
    assert RealRest(after) == RealPart(s.Unread()[1..], s.Names(), s.statAt, s.flags) by {
      RealPartByMembership(after.Unread(), after.Names(), s.Names(), s.statAt, s.flags);
    }
  }

  /** Each read delivers the next listed entry, or the end when there is none. */
  lemma {:induction false} ReadStreamDelivers(s: ListingState, dirent: Dirent)
    requires Streaming(s)
    ensures var r := ReadStream(s, dirent);
            && !r.failed && Streaming(r.state)
            && if RealRest(s) == [] then r.dirent.eof && r.state.AtEnd()
               else !r.dirent.eof && [r.dirent] + RealRest(r.state) == RealRest(s)
    decreases |s.Unread()|
  {
    if s.Unread() != [] {
      var item, next := s.Unread()[0], s.(stream := Some(s.Unread()[1..]));
      StreamStep(s);
      if !Listed(item, s.Names(), s.statAt) {
        ReadStreamDelivers(StateAfter(next, item), DirentAfter(s, item, dirent));
      }
    }
  }

  lemma {:induction false} DrainReal(s: ListingState, dirent: Dirent)
    requires Streaming(s)
    ensures var d := Drain(s, dirent); !d.failed && d.state.AtEnd() && d.entries == RealRest(s)
    decreases Remaining(s)
  {
    ReadProgress(s, dirent);
    ReadStreamDelivers(s, dirent);
    var r := Read(s, dirent);
    if RealRest(s) != [] {
      DrainReal(r.state, r.dirent);
    }
  }

  lemma DrainVirtual(s: ListingState, dirent: Dirent)
    requires Usable(s) && s.index < |s.Names()| && s.handleType == DirectoryHandle
    ensures var first, next := VirtualDirent(s.Names()[s.index], s.flags), s.(index := s.index + 1);
            && Drain(s, dirent) == Drain(next, first).(entries := [first] + Drain(next, first).entries)
            && VirtualPart(s.Names(), s.index, s.flags) == [first] + VirtualPart(s.Names(), s.index + 1, s.flags)
  {
    VirtualPartFirst(s.Names(), s.index, s.flags);
  }

  /**
   Over an error-free stream, draining a handle returns every virtual subdirectory in
   list order, then every listed real entry in stream order, and ends at the end; the
   sorting that membership tests trigger comes too late to disturb the virtual part.
   */
  lemma {:induction false} DrainReturns(s: ListingState, dirent: Dirent)
    requires Usable(s) && s.index <= |s.Names()| && NoFaults(s.Unread()) && s.Listable()
    ensures var d := Drain(s, dirent);
            !d.failed && d.state.AtEnd() && d.entries == VirtualPart(s.Names(), s.index, s.flags) + RealRest(s)
    decreases |s.Names()| - s.index
  {
    if s.index < |s.Names()| {
      DrainVirtual(s, dirent);
      DrainReturns(s.(index := s.index + 1), VirtualDirent(s.Names()[s.index], s.flags));
    } else {
      DrainReal(s, dirent);
      assert VirtualPart(s.Names(), s.index, s.flags) == [];
    }
  }

  /** What the caller sees of a read. */
  datatype Output = Output(dirent: Dirent, failed: bool)

  /** A handle after some reads, with what they returned. */
  datatype Progress = Progress(state: ListingState, outputs: seq<Output>)

  function ReadOnce(p: Progress, dirent: Dirent): Progress {
    var r := Read(p.state, dirent);
    Progress(r.state, p.outputs + [Output(r.dirent, r.failed)])
  }

  /** `n` reads through one handle alone. */
  function Alone(s: ListingState, dirent: Dirent, n: nat): Progress {
    if n == 0 then Progress(s, []) else ReadOnce(Alone(s, dirent, n - 1), dirent)
  }

  /** At the end, however often one reads again, the end is reported and nothing changes. */
  lemma {:induction false} EndIsFinal(s: ListingState, dirent: Dirent, n: nat)
    requires s.AtEnd()
    ensures var p := Alone(s, dirent, n);
            && p.state == s && |p.outputs| == n
            && forall k | 0 <= k < n :: p.outputs[k] == Output(dirent.(eof := true), false)
  {
    if n > 0 {
      EndIsFinal(s, dirent, n - 1);
    }
  }

  function Filenames(entries: seq<Dirent>): seq<CString> {
    if entries == [] then [] else [entries[0].filename] + Filenames(entries[1..])
  }

  lemma {:induction false} FilenamesAppend(a: seq<Dirent>, b: seq<Dirent>)
    ensures Filenames(a + b) == Filenames(a) + Filenames(b)
  {
    if a == [] {
      assert a + b == b;
    } else {
      var ab := a + b;
      assert Filenames(ab[1..]) == Filenames(a[1..]) + Filenames(b) by {
        FilenamesAppend(a[1..], b);
        assert ab[1..] == a[1..] + b;
      }
      assert ab[0] == a[0];
    }
  }

  predicate ListedAs(items: seq<StreamItem>, names: seq<CString>, statAt: StatAt, filename: CString) {
    exists k | 0 <= k < |items| :: Listed(items[k], names, statAt) && Fitted(items[k].name) == filename
  }

  /** A real entry is returned iff it is listed. */
  lemma {:induction false} RealPartMembers(items: seq<StreamItem>, names: seq<CString>, statAt: StatAt, flags: Flags,
                                           filename: CString)
    ensures filename in Filenames(RealPart(items, names, statAt, flags)) <==> ListedAs(items, names, statAt, filename)
  {
    if items != [] {
      var rest := items[1..];
      RealPartMembers(rest, names, statAt, flags, filename);
      assert forall k | 0 < k < |items| :: items[k] == rest[k - 1];
      assert ListedAs(items, names, statAt, filename)
        <==> (Listed(items[0], names, statAt) && Fitted(items[0].name) == filename)
             || ListedAs(rest, names, statAt, filename) by {
        if ListedAs(rest, names, statAt, filename) {
          var k :| 0 <= k < |rest| && Listed(rest[k], names, statAt) && Fitted(rest[k].name) == filename;
          assert items[k + 1] == rest[k];
        }
      }
    }
  }

  /** The names of a stream of distinct, fitting names. */
  predicate DistinctNames(items: seq<StreamItem>) {
    && NoFaults(items)
    && (forall k | 0 <= k < |items| :: |items[k].name| <= 255)
    && forall i, j | 0 <= i < j < |items| :: items[i].name != items[j].name
  }

  lemma {:induction false} RealNamesDistinct(items: seq<StreamItem>, names: seq<CString>, statAt: StatAt, flags: Flags)
    requires DistinctNames(items)
    ensures var reals := Filenames(RealPart(items, names, statAt, flags));
            && NoDuplicates(reals)
            && forall x | x in reals :: x !in names && x != "." && x != ".."
  {
    if items != [] {
      var rest := Filenames(RealPart(items[1..], names, statAt, flags));
      RealNamesDistinct(items[1..], names, statAt, flags);
      if Listed(items[0], names, statAt) {
        var first := items[0].name;
        RealPartMembers(items[1..], names, statAt, flags, first);
        assert forall k | 0 <= k < |items[1..]| :: items[1..][k].name == items[k + 1].name;
        assert first !in rest;
        assert Filenames(RealPart(items, names, statAt, flags)) == [first] + rest;
      }
    }
  }

  lemma FilenamesFirst(first: Dirent, rest: seq<Dirent>)
    ensures Filenames([first] + rest) == [first.filename] + Filenames(rest)
  {
    HeadTail(first, rest);
  }

  lemma {:induction false} VirtualNames(names: seq<CString>, from: nat, flags: Flags)
    requires from <= |names| && forall name | name in names :: |name| <= MAX_NAME
    ensures Filenames(VirtualPart(names, from, flags)) == names[from..]
    decreases |names| - from
  {
    if from < |names| {
      VirtualNames(names, from + 1, flags);
      VirtualPartFirst(names, from, flags);
      FilenamesFirst(VirtualDirent(names[from], flags), VirtualPart(names, from + 1, flags));
      DropFirst(names, from);
      assert names[from] in names;
    } else {
      assert VirtualPart(names, from, flags) == [];
    }
  }

  /**
   No name is listed twice and never "." or "..", whatever the host directory holds,
   provided names are distinct on either side and fit into an entry.
   */
  lemma ListedNamesDistinct(names: seq<CString>, items: seq<StreamItem>, statAt: StatAt, flags: Flags)
    requires NoDuplicates(names) && DistinctNames(items)
    requires forall name | name in names :: |name| <= 255 && name != "." && name != ".."
    ensures var listing := Filenames(VirtualPart(names, 0, flags) + RealPart(items, names, statAt, flags));
            NoDuplicates(listing) && "." !in listing && ".." !in listing && names <= listing
  {
    var reals := Filenames(RealPart(items, names, statAt, flags));
    var listing := Filenames(VirtualPart(names, 0, flags) + RealPart(items, names, statAt, flags));
    RealNamesDistinct(items, names, statAt, flags);
    FilenamesAppend(VirtualPart(names, 0, flags), RealPart(items, names, statAt, flags));
    VirtualNames(names, 0, flags);
    assert names[0..] == names;
    assert forall k | 0 <= k < |names| :: names[k] in names;
    assert listing == names + reals;
  }

  lemma ChildNames(vfs: Vfs, n: Inode)
    requires vfs.Valid() && n in vfs.inodes
    ensures NoDuplicates(n.virtualSubdirs.strings) && n.virtualSubdirs.State().Valid()
    ensures forall name: CString :: name in n.virtualSubdirs.strings <==> n.dir + [name] in vfs.view
    ensures forall name | name in n.virtualSubdirs.strings :: IsComponent(name)
  {
    assert ListsChildren(n.virtualSubdirs.State(), vfs.view, n.dir);
    forall name | name in n.virtualSubdirs.strings ensures IsComponent(name) {
      var child := n.dir + [name];
      assert HasPath(vfs.inodes, child);
      var c :| c in vfs.inodes && c.dir == child;
      assert InodeOk(c) && c.dir[|n.dir|] == name;
    }
  }

  /**
   A fresh handle on an inode of a sound file system, drained over an error-free stream:
   each registered subdirectory and each listed real entry not shadowed by one appears
   exactly once, nothing else does, and the handle then stays at the end.
   */
  lemma FullListing(vfs: Vfs, n: Inode, items: seq<StreamItem>, statAt: StatAt, flags: Flags, dirent: Dirent)
    requires vfs.Valid() && n in vfs.inodes && DistinctNames(items)
    requires forall name | name in n.virtualSubdirs.strings :: |name| <= 255
    ensures n.virtualSubdirs.State().Valid()
    ensures var start := ListingState(DirectoryHandle, Some(n.virtualSubdirs.State()), 0, Some(items), statAt, flags);
            var d := Drain(start, dirent);
            var listing := Filenames(d.entries);
            && !d.failed && d.state.AtEnd()
            && NoDuplicates(listing) && "." !in listing && ".." !in listing
            && forall name: CString :: name in listing <==>
                 n.dir + [name] in vfs.view || AddsName(vfs.view, n.dir, items, statAt, name)
  {
    ChildNames(vfs, n);
    assert ListsChildren(n.virtualSubdirs.State(), vfs.view, n.dir);
    forall name: CString | n.dir + [name] in vfs.view ensures name in n.virtualSubdirs.strings {
    }
    DrainIsComplete(ListingState(DirectoryHandle, Some(n.virtualSubdirs.State()), 0, Some(items), statAt, flags),
                    vfs.view, n.dir, dirent);
  }

  /** The names of a listing: those of the subdirectories, and those of the listed real entries. */
  lemma ListingNames(names: seq<CString>, items: seq<StreamItem>, statAt: StatAt, flags: Flags)
    requires NoDuplicates(names) && DistinctNames(items)
    requires forall name | name in names :: |name| <= MAX_NAME && name != "." && name != ".."
    ensures var listing := Filenames(VirtualPart(names, 0, flags) + RealPart(items, names, statAt, flags));
            && NoDuplicates(listing) && "." !in listing && ".." !in listing
            && forall name: CString :: name in listing <==> name in names || ListedAs(items, names, statAt, name)
  {
    var virtuals, others := VirtualPart(names, 0, flags), RealPart(items, names, statAt, flags);
    ListedNamesDistinct(names, items, statAt, flags);
    FilenamesAppend(virtuals, others);
    VirtualNames(names, 0, flags);
    TakeAll(names);
    forall name: CString
      ensures name in Filenames(others) <==> ListedAs(items, names, statAt, name)
    {
      RealPartMembers(items, names, statAt, flags, name);
    }
  }

  /**
   The real directory adds a name: that of an entry which is, or links to, a file or directory,
   is not "." or "..", is not shadowed by anything registered, and can be examined.
   */
  predicate AddsName(view: View, dir: seq<string>, items: seq<StreamItem>, statAt: StatAt, name: CString) {
    && name != "." && name != ".." && dir + [name] !in view
    && statAt(name).Some? && statAt(name).value.kind in {RegularFile, Directory}
    && exists k | 0 <= k < |items| ::
         items[k].Item? && items[k].name == name && items[k].entryType in {DtReg, DtDir, DtLnk}
  }

  /** Every registered subdirectory and every name that the real directory adds, each once, and nothing else. */
  ghost predicate IsCompleteListing(listing: seq<CString>, view: View, dir: seq<string>, items: seq<StreamItem>,
                                    statAt: StatAt)
  {
    && NoDuplicates(listing) && "." !in listing && ".." !in listing
    && forall name: CString :: name in listing <==> dir + [name] in view || AddsName(view, dir, items, statAt, name)
  }

  /** The subdirectories registered in a directory have names that fit into a directory entry. */
  ghost predicate NamesFitIn(view: View, dir: seq<string>) {
    forall name: CString | dir + [name] in view :: |name| <= 255 && name != "." && name != ".."
  }

  /** What a read goes by is the child list of `dir`, or no list where nothing is registered below. */
  ghost predicate ListsDirectory(s: ListingState, view: View, dir: seq<string>) {
    if s.list.Some? then ListsChildren(s.list.value, view, dir) else forall name: CString :: dir + [name] !in view
  }

  /** Draining a handle just opened on a directory gives its complete listing. */
  lemma DrainIsComplete(s: ListingState, view: View, dir: seq<string>, dirent: Dirent)
    requires s.Listable() && s.index == 0 && DistinctNames(s.Unread())
    requires ListsDirectory(s, view, dir) && NamesFitIn(view, dir)
    ensures Usable(s)
    ensures var d := Drain(s, dirent);
            !d.failed && d.state.AtEnd() && IsCompleteListing(Filenames(d.entries), view, dir, s.Unread(), s.statAt)
  {
    DrainReturns(s, dirent);
    ListingNames(s.Names(), s.Unread(), s.statAt, s.flags);
    forall name: CString
      ensures ListedAs(s.Unread(), s.Names(), s.statAt, name) <==> AddsName(view, dir, s.Unread(), s.statAt, name)
    {
      SameNames(s, view, dir, name);
    }
  }

  /** What it takes for an entry with a fitting name to be listed. */
  lemma ListedMeans(item: StreamItem, names: seq<CString>, statAt: StatAt)
    requires item.Item? && |item.name| <= 255
    ensures Listed(item, names, statAt) <==>
            && item.entryType in {DtReg, DtDir, DtLnk} && item.name != "." && item.name != ".." && item.name !in names
            && statAt(item.name).Some? && statAt(item.name).value.kind in {RegularFile, Directory}
  {
  }

  lemma SameNames(s: ListingState, view: View, dir: seq<string>, name: CString)
    requires ListsDirectory(s, view, dir) && DistinctNames(s.Unread())
    ensures ListedAs(s.Unread(), s.Names(), s.statAt, name) <==> AddsName(view, dir, s.Unread(), s.statAt, name)
  {
    var items := s.Unread();
    if ListedAs(items, s.Names(), s.statAt, name) {
      var k :| 0 <= k < |items| && Listed(items[k], s.Names(), s.statAt) && Fitted(items[k].name) == name;
      ListedMeans(items[k], s.Names(), s.statAt);
      assert name in s.Names() <==> dir + [name] in view;
    }
    if AddsName(view, dir, items, s.statAt, name) {
      var k :| 0 <= k < |items|
        && items[k].Item? && items[k].name == name && items[k].entryType in {DtReg, DtDir, DtLnk};
      ListedMeans(items[k], s.Names(), s.statAt);
      assert name in s.Names() <==> dir + [name] in view;
    }
  }

  //
  // What a drain returns in detail
  //

  /** The entry of a virtual subdirectory: a directory that nobody can write to if the handle is read-only. */
  ghost predicate IsVirtualEntry(e: Dirent, names: seq<CString>, flags: Flags) {
    && (exists name | name in names :: e.filename == Fitted(name))
    && !e.isFile && e.filesize == 0 && e.uid == e.gid == 0 && e.mtime == e.ctime == e.atime == Timespec(0, 0)
    && e.permissions == if flags & 1 != 0 then 0x16D else 0x1ED
  }

  /** The entry of a real file or directory: what the host says about it, less write permissions if read-only. */
  ghost predicate IsRealEntry(e: Dirent, items: seq<StreamItem>, statAt: StatAt, flags: Flags) {
    && (exists k | 0 <= k < |items| :: items[k].Item? && e.filename == Fitted(items[k].name))
    && statAt(e.filename).Some?
    && var status := statAt(e.filename).value;
       && (e.isFile <==> status.kind == RegularFile) && (!e.isFile <==> status.kind == Directory)
       && e.filesize == status.size && e.uid == status.uid % 0x1_0000 && e.gid == status.gid % 0x1_0000
       && e.mtime == status.mtime && e.ctime == status.ctime && e.atime == status.atime
       && e.permissions & !0x1FF == 0 && e.permissions & 0x16D == status.mode & 0x16D
       && e.permissions & 0x92 == if flags & 1 != 0 then 0 else status.mode & 0x92
  }

  lemma PermissionBits(mode: bv16)
    ensures mode & 0x1FF & !0x92 & !0x1FF == 0 && mode & 0x1FF & !0x1FF == 0
    ensures mode & 0x1FF & !0x92 & 0x16D == mode & 0x16D && mode & 0x1FF & 0x16D == mode & 0x16D
    ensures mode & 0x1FF & !0x92 & 0x92 == 0 && mode & 0x1FF & 0x92 == mode & 0x92
  {
  }

  lemma {:induction false} RealEntries(items: seq<StreamItem>, names: seq<CString>, statAt: StatAt, flags: Flags)
    ensures forall e | e in RealPart(items, names, statAt, flags) :: !e.eof && IsRealEntry(e, items, statAt, flags)
  {
    if items != [] {
      var rest := items[1..];
      RealEntries(rest, names, statAt, flags);
      assert forall k | 0 <= k < |rest| :: rest[k] == items[k + 1];
      if Listed(items[0], names, statAt) {
        var status := statAt(Fitted(items[0].name)).value;
        var first := RealDirent(items[0].name, status, flags);
        PermissionBits(status.mode);
        assert IsRealEntry(first, items, statAt, flags);
      }
    }
  }

  lemma {:induction false} VirtualEntries(names: seq<CString>, from: nat, flags: Flags)
    requires from <= |names|
    ensures forall e | e in VirtualPart(names, from, flags) :: !e.eof && IsVirtualEntry(e, names, flags)
    decreases |names| - from
  {
    if from < |names| {
      VirtualEntries(names, from + 1, flags);
      VirtualPartFirst(names, from, flags);
      assert names[from] in names;
      assert IsVirtualEntry(VirtualDirent(names[from], flags), names, flags);
    }
  }

  lemma WriteBits(e: Dirent, names: seq<CString>, items: seq<StreamItem>, statAt: StatAt, flags: Flags)
    requires IsVirtualEntry(e, names, flags) || IsRealEntry(e, items, statAt, flags)
    ensures flags & 1 != 0 ==> e.permissions & 0x92 == 0
  {
  }

  /** Each entry that a drain returns is that of a virtual subdirectory or of a real file or directory. */
  lemma DrainedEntries(s: ListingState, dirent: Dirent)
    requires Usable(s) && s.index <= |s.Names()| && NoFaults(s.Unread()) && s.Listable()
    ensures forall e | e in Drain(s, dirent).entries ::
              !e.eof && (IsVirtualEntry(e, s.Names(), s.flags) || IsRealEntry(e, s.Unread(), s.statAt, s.flags))
    ensures s.flags & 1 != 0 ==> forall e | e in Drain(s, dirent).entries :: e.permissions & 0x92 == 0
  {
    DrainReturns(s, dirent);
    RealEntries(s.Unread(), s.Names(), s.statAt, s.flags);
    forall e | IsVirtualEntry(e, s.Names(), s.flags) || IsRealEntry(e, s.Unread(), s.statAt, s.flags)
      ensures s.flags & 1 != 0 ==> e.permissions & 0x92 == 0
    {
      WriteBits(e, s.Names(), s.Unread(), s.statAt, s.flags);
    }
    VirtualEntries(s.Names(), s.index, s.flags);
  }

  /** The stream fails at item `k`, and not before. */
  predicate FailsAt(items: seq<StreamItem>, k: nat) {
    k < |items| && items[k] == Fault && NoFaults(items[..k])
  }

  /** The listed entries before the failure. */
  function RealBefore(s: ListingState, k: nat): seq<Dirent>
    requires k <= |s.Unread()|
  {
    RealPart(s.Unread()[..k], s.Names(), s.statAt, s.flags)
  }

  lemma FaultStep(s: ListingState, k: nat)
    requires Usable(s) && s.index >= |s.Names()| && s.Listable() && FailsAt(s.Unread(), k) && k > 0
    ensures s.Unread()[0].Item?
    ensures var item := s.Unread()[0];
            var after := StateAfter(s.(stream := Some(s.Unread()[1..])), item);
            && Usable(after) && after.index >= |after.Names()| && after.Listable() && FailsAt(after.Unread(), k - 1)
            && |after.Unread()| < |s.Unread()|
            && RealBefore(s, k) == (if Listed(item, s.Names(), s.statAt)
                                    then [RealDirent(item.name, s.statAt(Fitted(item.name)).value, s.flags)] else [])
                                   + RealBefore(after, k - 1)
  {
    var items := s.Unread();
    var item, next := items[0], s.(stream := Some(items[1..]));
    TakeTail(items, k);
    assert forall i | 0 <= i < k - 1 :: items[..k][1..][i] == items[..k][i + 1];
    var after := StateAfter(next, item);
    StateAfterKeeps(next, item);
    RealPartByMembership(items[1..][..k - 1], after.Names(), s.Names(), s.statAt, s.flags);
    Neutral(RealBefore(after, k - 1));
  }

  /** A read delivers the next listed entry before the failure, or fails. */
  lemma {:induction false} ReadStreamFails(s: ListingState, dirent: Dirent, k: nat) returns (k': nat)
    requires Usable(s) && s.index >= |s.Names()| && s.Listable() && FailsAt(s.Unread(), k)
    ensures var r := ReadStream(s, dirent);
            if RealBefore(s, k) == [] then r.failed
            else
              && !r.failed && !r.dirent.eof && Usable(r.state) && r.state.index >= |r.state.Names()|
              && r.state.Listable() && FailsAt(r.state.Unread(), k')
              && [r.dirent] + RealBefore(r.state, k') == RealBefore(s, k)
    decreases |s.Unread()|
  {
    k' := 0;
    if k > 0 {
      var item := s.Unread()[0];
      FaultStep(s, k);
      var after := StateAfter(s.(stream := Some(s.Unread()[1..])), item);
      if Listed(item, s.Names(), s.statAt) {
        k' := k - 1;
      } else {
        Neutral(RealBefore(after, k - 1));
        k' := ReadStreamFails(after, DirentAfter(s, item, dirent), k - 1);
      }
    }
  }

  lemma {:induction false} DrainRealFails(s: ListingState, dirent: Dirent, k: nat)
    requires Usable(s) && s.index >= |s.Names()| && s.Listable() && FailsAt(s.Unread(), k)
    ensures var d := Drain(s, dirent); d.failed && d.entries == RealBefore(s, k)
    decreases Remaining(s)
  {
    ReadProgress(s, dirent);
    var k' := ReadStreamFails(s, dirent, k);
    if RealBefore(s, k) != [] {
      var r := Read(s, dirent);
      DrainRealFails(r.state, r.dirent, k');
    }
  }

  /**
   Over a stream that fails, draining a handle returns the virtual subdirectories and the
   listed entries before the failure, and then fails.
   */
  lemma {:induction false} DrainFails(s: ListingState, dirent: Dirent, k: nat)
    requires Usable(s) && s.index <= |s.Names()| && s.Listable() && FailsAt(s.Unread(), k)
    ensures var d := Drain(s, dirent);
            d.failed && d.entries == VirtualPart(s.Names(), s.index, s.flags) + RealBefore(s, k)
    decreases |s.Names()| - s.index
  {
    if s.index < |s.Names()| {
      var first, next := VirtualDirent(s.Names()[s.index], s.flags), s.(index := s.index + 1);
      DrainVirtual(s, dirent);
      DrainFails(next, first, k);
      VirtualPartFirst(s.Names(), s.index, s.flags);
      Assoc([first], VirtualPart(s.Names(), s.index + 1, s.flags), RealBefore(s, k));
    } else {
      DrainRealFails(s, dirent, k);
      assert VirtualPart(s.Names(), s.index, s.flags) == [];
    }
  }

  //
  // Listing and the tree
  //

  /** Reading keeps the elements of the child list, though it may sort them. */
  lemma {:induction false} ReadStreamKeepsList(s: ListingState, dirent: Dirent)
    requires Usable(s) && s.list.Some?
    ensures var after := ReadStream(s, dirent).state;
            Usable(after) && after.list.Some? && multiset(after.Names()) == multiset(s.Names())
    decreases |s.Unread()|
  {
    if s.Unread() != [] {
      var item, next := s.Unread()[0], s.(stream := Some(s.Unread()[1..]));
      if item.Item? {
        ContainsKeepsOrder(s.list.value);
        if !Listed(item, s.Names(), s.statAt) {
          ReadStreamKeepsList(StateAfter(next, item), DirentAfter(s, item, dirent));
        }
      }
    }
  }

  lemma ReadKeepsList(s: ListingState, dirent: Dirent)
    requires Usable(s) && s.list.Some?
    ensures var after := Read(s, dirent).state;
            Usable(after) && after.list.Some? && multiset(after.Names()) == multiset(s.Names())
  {
    ReadStreamKeepsList(s, dirent);
  }

  lemma ListsChildrenReordered(before: ListState, after: ListState, view: View, dir: seq<string>)
    requires ListsChildren(before, view, dir) && after.Valid()
    requires multiset(before.strings) == multiset(after.strings)
    ensures ListsChildren(after, view, dir)
  {
    SameElements(before.strings, after.strings);
    NoDuplicatesReordered(before.strings, after.strings);
  }

  /** Reading a directory of a sound file system, whatever sorting it triggers, leaves the file system sound. */
  method ReadInTree(vfs: Vfs, handle: DirHandle, before: Dirent) returns (failed: bool, dirent: Dirent)
    requires vfs.Valid() && handle.Valid() && (handle.inode != null ==> handle.inode in vfs.inodes)
    modifies handle.Footprint()
    ensures vfs.Valid() && handle.Valid()
    ensures ReadResult(handle.State(), dirent, failed) == Read(old(handle.State()), before)
  {
    ghost var s, view := handle.State(), vfs.view;
    failed, dirent := handle.Readdir(before);
    if handle.inode != null {
      assert ListsChildren(s.list.value, view, handle.inode.dir);
      ListAfterRead(s, before, handle.inode.virtualSubdirs.State(), view, handle.inode.dir);
    }
    forall n | n in vfs.inodes ensures ListsChildren(n.virtualSubdirs.State(), view, n.dir) {
      assert n != handle.inode ==> n.virtualSubdirs.State() == old(n.virtualSubdirs.State());
    }
  }

  lemma ListAfterRead(s: ListingState, dirent: Dirent, after: ListState, view: View, dir: seq<string>)
    requires s.list.Some? && ListsChildren(s.list.value, view, dir)
    requires Read(s, dirent).state.list == Some(after)
    ensures ListsChildren(after, view, dir)
  {
    ReadKeepsList(s, dirent);
    ListsChildrenReordered(s.list.value, after, view, dir);
  }

  /** One step of draining a directory of a sound file system. */
  method DrainStep(vfs: Vfs, handle: DirHandle, before: Dirent, ghost whole: Drained, ghost entries: seq<Dirent>)
    returns (failed: bool, dirent: Dirent)
    requires vfs.Valid() && handle.Valid() && (handle.inode != null ==> handle.inode in vfs.inodes)
    requires DrainedSoFar(whole, entries, handle.State(), before)
    modifies handle.Footprint()
    ensures vfs.Valid() && handle.Valid()
    ensures if failed || dirent.eof then whole == Drained(entries, handle.State(), failed)
            else DrainedSoFar(whole, entries + [dirent], handle.State(), dirent)
                 && Remaining(handle.State()) < Remaining(old(handle.State()))
  {
    DrainOneMore(whole, entries, handle.State(), before);
    failed, dirent := ReadInTree(vfs, handle, before);
  }

  /** Draining a directory of a sound file system leaves it sound. */
  method DrainInTree(vfs: Vfs, handle: DirHandle, ghost whole: Drained)
    returns (entries: seq<Dirent>, failed: bool)
    requires vfs.Valid() && handle.Valid() && (handle.inode != null ==> handle.inode in vfs.inodes)
    requires DrainedSoFar(whole, [], handle.State(), ZEROED)
    modifies handle.Footprint()
    ensures vfs.Valid() && handle.Valid()
    ensures whole == Drained(entries, handle.State(), failed)
  {
    var dirent := ZEROED;
    entries, failed := [], false;
    while true
      invariant vfs.Valid() && handle.Valid() && DrainedSoFar(whole, entries, handle.State(), dirent)
      decreases Remaining(handle.State())
    {
      failed, dirent := DrainStep(vfs, handle, dirent, whole, entries);
      if failed || dirent.eof {
        return;
      }
      entries := entries + [dirent];
    }
  }
}
