/** Opening directories, and whole sessions: setting up, moving around, listing, opening (vfs.c). */
module VfsSessions {
  import opened Options
  import opened CStrings
  import opened Paths
  import opened PathSplitting
  import opened VfsTree
  import opened VfsView
  import opened VfsCore
  import opened VfsAccess
  import opened VfsListing

  /** What the host finds at a real directory. */
  datatype HostDir = HostDir(items: seq<StreamItem>, statAt: StatAt)

  /** `opendir`; a virtual directory without real counterpart hands it no path. */
  type HostOpendir = Option<CString> -> Option<HostDir>

  /** The stream of a directory handle just opened is what the host has there. */
  ghost predicate Streams(handle: DirHandle, host: Option<HostDir>)
    reads handle, handle.dir
  {
    && (handle.dir != null <==> host.Some?)
    && (handle.dir != null ==>
          handle.dir.items == host.value.items && handle.dir.statAt == host.value.statAt && handle.dir.pos == 0)
  }

  /** `vfs_opendir`: a handle exactly when the request is granted, even if the host has no such directory. */
  method OpenDir(vfs: Vfs, path: Option<CString>, lstat: Lstat, opendir: HostOpendir)
    returns (error: Option<VfsError>, handle: DirHandle?)
    requires vfs.Valid()
    ensures error.Some? ==> handle == null && OpenOutcome(vfs, path, lstat) == Denied(error.value)
    ensures error == None ==>
              var granted := OpenOutcome(vfs, path, lstat);
              && granted.Granted? && handle != null && fresh(handle) && (handle.dir != null ==> fresh(handle.dir))
              && handle.Valid() && handle.flags == granted.flags && (granted.isVirtual <==> granted.dir in vfs.view)
              && OpenedOn(vfs, handle, granted.dir, opendir(granted.mapped))
  {
    var node;
    error, node := OpenNode(vfs, path, lstat);
    if error.Some? {
      return error, null;
    }
    var host := opendir(node.mappedPath);
    var stream: DirStream? := null;
    if host.Some? {
      stream := new DirStream(host.value.items, host.value.statAt);
    }
    assert node.inode != null ==> ListsChildren(node.inode.virtualSubdirs.State(), vfs.view, node.inode.dir);
    handle := new DirHandle(DirectoryHandle, node.inode, stream, node.flags);
    return None, handle;
  }

  lemma RegisteredNames(vfs: Vfs, dir: seq<string>, name: CString)
    requires vfs.Valid() && dir + [name] in vfs.view
    ensures IsComponent(name) && dir in vfs.view
  {
    assert HasPath(vfs.inodes, dir + [name]);
    var c :| c in vfs.inodes && c.dir == dir + [name];
    assert InodeOk(c) && c.dir[|dir|] == name;
    ViewClosed(vfs.inodes, vfs.view);
    assert Parent(dir + [name]) == dir;
  }

  /**
   Something can be listed; the host's stream is free of errors; and all names are distinct
   and fit into a directory entry.
   */
  ghost predicate IsOrderly(view: View, dir: seq<string>, host: Option<HostDir>) {
    && (dir in view || host.Some?)
    && (host.Some? ==> DistinctNames(host.value.items))
    && forall name: CString | dir + [name] in view :: |name| <= 255
  }

  /** The complete listing of a directory for which the host has `host`. */
  ghost predicate ListsAll(listing: seq<CString>, view: View, dir: seq<string>, host: Option<HostDir>) {
    match host
    case None => IsCompleteListing(listing, view, dir, [], NO_STATUS)
    case Some(h) => IsCompleteListing(listing, view, dir, h.items, h.statAt)
  }

  /** A handle just opened on `dir`, with its child list, or with none if `dir` is not registered. */
  ghost predicate OpenedOn(vfs: Vfs, handle: DirHandle, dir: seq<string>, host: Option<HostDir>)
    reads vfs, handle, handle.dir
  {
    && handle.handleType == DirectoryHandle && handle.internalNodeIndex == 0 && Streams(handle, host)
    && (handle.inode != null <==> dir in vfs.view)
    && (handle.inode != null ==> handle.inode in vfs.inodes && handle.inode.dir == dir)
  }

  lemma OpenedListsAll(vfs: Vfs, handle: DirHandle, dir: seq<string>, host: Option<HostDir>) returns (whole: Drained)
    requires vfs.Valid() && handle.Valid() && OpenedOn(vfs, handle, dir, host)
    ensures DrainedSoFar(whole, [], handle.State(), ZEROED)
    ensures IsOrderly(vfs.view, dir, host) ==>
              !whole.failed && ListsAll(Filenames(whole.entries), vfs.view, dir, host)
  {
    whole := Drain(handle.State(), ZEROED);
    DrainBegins(handle.State(), ZEROED);
    if IsOrderly(vfs.view, dir, host) {
      forall name: CString | dir + [name] in vfs.view ensures name != "." && name != ".." && dir in vfs.view {
        RegisteredNames(vfs, dir, name);
      }
      assert handle.inode != null ==> ListsChildren(handle.inode.virtualSubdirs.State(), vfs.view, dir);
      DrainIsComplete(handle.State(), vfs.view, dir, ZEROED);
    }
  }

  /** Reads a directory just opened to the end. */
  method ListOpened(vfs: Vfs, handle: DirHandle, ghost dir: seq<string>, ghost host: Option<HostDir>)
    returns (entries: seq<Dirent>, failed: bool)
    requires vfs.Valid() && handle.Valid() && OpenedOn(vfs, handle, dir, host)
    modifies handle.Footprint()
    ensures vfs.Valid()
    ensures IsOrderly(vfs.view, dir, host) ==> !failed && ListsAll(Filenames(entries), vfs.view, dir, host)
  {
    ghost var view := vfs.view;
    ghost var whole := OpenedListsAll(vfs, handle, dir, host);
    entries, failed := DrainInTree(vfs, handle, whole);
    assert vfs.view == view && entries == whole.entries && failed == whole.failed;
  }

  /**
   Opening a directory and reading it to the end: whatever sorting that triggers, the file
   system stays sound, and where everything is orderly the listing is complete.
   */
  method ListDirectory(vfs: Vfs, path: CString, lstat: Lstat, opendir: HostOpendir)
    returns (error: Option<VfsError>, entries: seq<Dirent>, failed: bool)
    requires vfs.Valid()
    modifies Lists(vfs.inodes)
    ensures vfs.Valid()
    ensures error.Some? ==> OpenOutcome(vfs, Some(path), lstat) == Denied(error.value)
    ensures error == None ==>
              var granted := OpenOutcome(vfs, Some(path), lstat);
              && granted.Granted?
              && var host := opendir(granted.mapped);
                 IsOrderly(vfs.view, granted.dir, host) ==>
                   !failed && ListsAll(Filenames(entries), vfs.view, granted.dir, host)
  {
    var handle;
    error, handle := OpenDir(vfs, Some(path), lstat, opendir);
    if error.Some? {
      return error, [], false;
    }
    ghost var granted := OpenOutcome(vfs, Some(path), lstat);
    entries, failed := ListOpened(vfs, handle, granted.dir, opendir(granted.mapped));
    assert OpenOutcome(vfs, Some(path), lstat) == granted;
  }

  /** Something a client does, with the host as it is then. */
  datatype Action =
    | ChangeDir(path: CString, lstat: Lstat, stat: Stat)
    | ReadDir(path: CString, lstat: Lstat, opendir: HostOpendir, times: nat)

  /** Reads some of a directory. */
  method ReadSome(vfs: Vfs, handle: DirHandle, times: nat)
    requires vfs.Valid() && handle.Valid() && (handle.inode != null ==> handle.inode in vfs.inodes)
    modifies handle.Footprint()
    ensures vfs.Valid()
  {
    var dirent := ZEROED;
    for k := 0 to times
      invariant vfs.Valid() && handle.Valid()
    {
      var failed;
      failed, dirent := ReadInTree(vfs, handle, dirent);
    }
  }

  /** Opens a directory and reads some of it. */
  method OpenAndRead(vfs: Vfs, path: CString, lstat: Lstat, opendir: HostOpendir, times: nat)
    requires vfs.Valid()
    modifies Lists(vfs.inodes)
    ensures vfs.Valid()
  {
    var error, handle := OpenDir(vfs, Some(path), lstat, opendir);
    if error == None {
      assert handle.inode != null ==> handle.inode in vfs.inodes && handle.inode.virtualSubdirs in Lists(vfs.inodes);
      ReadSome(vfs, handle, times);
    }
  }

  /** The mount that a real path lies below comes from an addition. */
  lemma MappedByStep(steps: seq<Setup>, cs: seq<string>, mapped: string)
    requires LiesBelowMount(ViewAfter(Attempts(steps)), cs, mapped)
    ensures exists j: nat, depth: nat | j < |steps| && depth <= |cs| ::
              && steps[j].Add? && steps[j].targetPath.Some?
              && Components(steps[j].virtualPath) == cs[..depth]
              && Components(mapped) == Components(steps[j].targetPath.value) + cs[depth..]
  {
    var view := ViewAfter(Attempts(steps));
    var depth: nat :| depth <= |cs| && IsMount(view, cs[..depth])
      && Components(mapped) == Components(view[cs[..depth]].target.value) + cs[depth..];
    var j := MountHasStep(steps, cs[..depth]);
  }

  /**
   From setup to real path: after any run of additions and freezes, any directory changes
   and any listings, complete or not, opening any path yields nothing outside the mounts
   that the run has registered.
   */
  method Session(steps: seq<Setup>, actions: seq<Action>, path: CString, lstat: Lstat)
    returns (vfs: Vfs, error: Option<VfsError>, handle: Handle?)
    requires forall k | 0 <= k < |steps| :: WellFormed(steps[k])
    ensures vfs.Valid() && vfs.view == ViewAfter(Attempts(steps))
    ensures error.Some? ==> OpenOutcome(vfs, Some(path), lstat) == Denied(error.value)
    ensures error == None ==> Freeze in steps && handle != null && OpenOutcome(vfs, Some(path), lstat).Granted?
    ensures error == None ==>
              var cs := RequestComponents(vfs.cwd, path);
              && handle.virtualPath == PathText(cs) && AllComponents(cs)
              && (handle.inode != null <==> cs in vfs.view)
              && (handle.mappedPath.Some? ==>
                    LiesBelowMount(vfs.view, cs, handle.mappedPath.value)
                    && exists j: nat, depth: nat | j < |steps| && depth <= |cs| ::
                         && steps[j].Add? && steps[j].targetPath.Some?
                         && Components(steps[j].virtualPath) == cs[..depth]
                         && Components(handle.mappedPath.value)
                            == Components(steps[j].targetPath.value) + cs[depth..])
              && (handle.mappedPath == None ==> handle.inode != null)
  {
    vfs := Configure(steps);
    for k := 0 to |actions|
      invariant fresh(vfs) && vfs.Valid() && forall n | n in vfs.inodes :: fresh(n.virtualSubdirs)
      invariant vfs.view == ViewAfter(Attempts(steps)) && (vfs.frozen <==> Freeze in steps)
    {
      match actions[k]
      case ChangeDir(dir, lstatNow, statNow) =>
        var refused := Chdir(vfs, Some(dir), lstatNow, statNow);
      case ReadDir(dir, lstatNow, opendirNow, times) =>
        OpenAndRead(vfs, dir, lstatNow, opendirNow, times);
    }
    error, handle := OpenNode(vfs, Some(path), lstat);
    if error == None {
      ResolveIsCanonical(AbsolutePath(vfs.cwd, path));
      GrantedIsPermitted(vfs.view, vfs.baseFlags, RequestComponents(vfs.cwd, path), lstat);
      if handle.mappedPath.Some? {
        HandleBelowMount(vfs, path, lstat, handle);
        MappedByStep(steps, RequestComponents(vfs.cwd, path), handle.mappedPath.value);
      }
    }
  }
}
