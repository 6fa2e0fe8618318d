/** Mapping virtual paths to real ones, opening nodes and changing directory (vfs.c). */
module VfsAccess {
  import opened Options
  import opened Sequences
  import opened CStrings
  import opened Paths
  import opened PathChecks
  import opened PathSplitting
  import opened VfsTree
  import opened VfsView
  import opened VfsCore

  //
  // Mapping
  //

  /** The part of a canonical path below its first `depth` components; "/" for the root itself. */
  function Below(cs: seq<string>, depth: nat): string
    requires depth <= |cs|
  {
    if cs == [] then "/" else Render(cs[depth..])
  }

  /** The real path of directory `cs`, mounted at its first `depth` components. */
  function Mapped(view: View, cs: seq<string>, depth: nat): string
    requires depth <= |cs| && IsMount(view, cs[..depth])
  {
    view[cs[..depth]].target.value + Below(cs, depth)
  }

  lemma RenderBelow(cs: seq<string>, depth: nat)
    requires AllComponents(cs) && depth <= |cs|
    ensures '\0' !in Render(cs) && '\0' !in PathText(cs) && '\0' !in Below(cs, depth)
    ensures var v, vlen := PathText(cs), |Render(cs[..depth])|;
            && vlen <= |v| && v[vlen..] == Below(cs, depth)
            && (vlen < |v| ==> v[vlen] == '/')
  {
    var top, rest := cs[..depth], cs[depth..];
    RenderShape(cs);
    RenderShape(rest);
    RenderAppend(top, rest);
    assert cs == top + rest;
    if cs != [] && rest != [] {
      assert Render(cs)[|Render(top)|..] == Render(rest);
      assert Render(rest)[0] == '/';
    }
  }

  /** Copies a target path, a slash and a suffix into one buffer. */
  method JoinPaths(target: CString, tlen: nat, suffix: CString) returns (text: CString)
    requires tlen == |target|
    ensures text == target + "/" + suffix
  {
    var result := new char[tlen + 1 + |suffix| + 1](_ => '\0');
    forall k | 0 <= k < tlen {
      result[k] := target[k];
    }
    result[tlen] := '/';
    forall k | 0 <= k < |suffix| {
      result[tlen + 1 + k] := suffix[k];
    }
    assert result[..tlen + 1 + |suffix|] == target + "/" + suffix;
    text := Terminate(result, tlen + 1 + |suffix|);
  }

  /**
   `vfs_map_path`: the mountpoint's target followed by what the virtual path has behind
   the mountpoint's own path; NULL on missing or unsuitable arguments.
   */
  method MapPath(lookup: Option<LookupResult>, virtualPath: Option<CString>) returns (r: Option<CString>)
    requires lookup.Some? && lookup.value.mountpoint != null ==>
               var m := lookup.value.mountpoint;
               m.targetPath.Some? && m.tlen == |m.targetPath.value| && m.vlen == |m.virtualPath|
    ensures r.Some? <==> && lookup.Some? && lookup.value.mountpoint != null
                         && virtualPath.Some? && IsAbsolute(virtualPath.value)
                         && |virtualPath.value| >= |lookup.value.mountpoint.virtualPath|
    ensures r.Some? ==>
              var m, v := lookup.value.mountpoint, virtualPath.value;
              var vlen := |m.virtualPath|;
              r.value == m.targetPath.value + if |v| > vlen then "/" + v[vlen + 1..] else ""
  {
    if lookup == None || virtualPath == None {
      return None;
    }
    var m, v := lookup.value.mountpoint, virtualPath.value;
    if !IsAbsolute(v) || m == null {
      return None;
    }
    if |v| < m.vlen {
      return None;
    }
    var target := m.targetPath.value;
    if |v| > m.vlen {
      var result := JoinPaths(target, m.tlen, v[m.vlen + 1..]);
      return Some(result);
    } else {
      assert target + "" == target;
      return Some(target);
    }
  }

  /** On the result of a lookup, mapping gives the real path of the directory looked up. */
  lemma MappedByLookup(target: string, cs: seq<string>, depth: nat)
    requires AllComponents(cs) && depth <= |cs|
    ensures var v, vlen := PathText(cs), |Render(cs[..depth])|;
            && vlen <= |v|
            && target + (if |v| > vlen then "/" + v[vlen + 1..] else "") == target + Below(cs, depth)
            && target + Below(cs, depth) == target + v[vlen..]
  {
    RenderBelow(cs, depth);
    var v, vlen := PathText(cs), |Render(cs[..depth])|;
    if vlen < |v| {
      assert v[vlen..] == [v[vlen]] + v[vlen + 1..];
    }
  }

  lemma PathTextParts(cs: seq<string>, depth: nat)
    requires depth <= |cs|
    ensures PathText(cs) == Render(cs[..depth]) + Below(cs, depth)
  {
    assert cs == cs[..depth] + cs[depth..];
    RenderAppend(cs[..depth], cs[depth..]);
  }

  /** Directories under one mount never share a real path. */
  lemma MappingInjective(view: View, cs: seq<string>, ds: seq<string>, depth: nat)
    requires AllComponents(cs) && AllComponents(ds) && depth <= |cs| && depth <= |ds|
    requires cs[..depth] == ds[..depth] && IsMount(view, cs[..depth])
    requires Mapped(view, cs, depth) == Mapped(view, ds, depth)
    ensures cs == ds
  {
    var t := view[cs[..depth]].target.value;
    assert Below(cs, depth) == Mapped(view, cs, depth)[|t|..] == Below(ds, depth);
    PathTextParts(cs, depth);
    PathTextParts(ds, depth);
    ComponentsOfRender(cs);
    ComponentsOfRender(ds);
  }

  lemma RenderLast(cs: seq<string>, name: string)
    ensures Render(cs + [name]) == Render(cs) + "/" + name
  {
    InitLast(cs, name);
  }

  lemma BelowDescends(target: string, cs: seq<string>, name: string, depth: nat)
    requires cs != [] && depth <= |cs|
    ensures target + Below(cs + [name], depth) == target + Below(cs, depth) + "/" + name
  {
    Prefixes(cs, [name], depth);
    RenderLast(cs[depth..], name);
    Assoc(target, Render(cs[depth..]), "/");
    Assoc(target, Render(cs[depth..]) + "/", name);
  }

  lemma DepthDescends(view: View, cs: seq<string>, name: string)
    requires !IsMount(view, cs + [name])
    ensures MountDepth(view, cs + [name]) == MountDepth(view, cs)
  {
    TakeAll(cs + [name]);
    MountToPrefix(view, cs, cs + [name], |cs| + 1);
  }

  /** Descending into an entry that is not itself a mount descends in the real path too. */
  lemma MappingDescends(view: View, cs: seq<string>, name: string)
    requires cs != [] && MountDepth(view, cs).Some?
    requires !IsMount(view, cs + [name])
    ensures MountDepth(view, cs + [name]) == MountDepth(view, cs)
    ensures var depth := MountDepth(view, cs).value;
            Mapped(view, cs + [name], depth) == Mapped(view, cs, depth) + "/" + name
  {
    DepthDescends(view, cs, name);
    var depth := MountDepth(view, cs).value;
    Prefixes(cs, [name], depth);
    BelowDescends(view[cs[..depth]].target.value, cs, name, depth);
  }

  lemma {:induction false} MountToPrefix(view: View, cs: seq<string>, ds: seq<string>, n: nat)
    requires cs <= ds && n <= |cs| + 1
    ensures MountTo(view, cs, n) == MountTo(view, ds, n)
  {
    if n > 0 {
      MountToPrefix(view, cs, ds, n - 1);
      assert cs[..n - 1] == ds[..n - 1];
    }
  }

  lemma OneComponentMore(text: string, cs: seq<string>, rendered: string, init: seq<string>, name: string)
    requires IsName(name) && Components(text + rendered) == cs + init
    ensures Components(text + (rendered + "/" + name)) == cs + (init + [name])
  {
    SplitNoSlash(name);
    NonEmptyIdentity([name]);
    ComponentsJoin(text + rendered, name);
    assert text + (rendered + "/" + name) == text + rendered + "/" + name;
  }

  /** The components of a real path: the target's, then those below the mountpoint. */
  lemma {:induction false} ComponentsBelow(target: string, ds: seq<string>)
    requires AllComponents(ds)
    ensures Components(target + Render(ds)) == Components(target) + ds
  {
    if ds == [] {
      assert target + Render(ds) == target;
    } else {
      var init, last := ds[..|ds| - 1], ds[|ds| - 1];
      ComponentsBelow(target, init);
      OneComponentMore(target, Components(target), Render(init), init, last);
      assert init + [last] == ds;
    }
  }

  lemma MappedComponents(view: View, cs: seq<string>, depth: nat)
    requires AllComponents(cs) && depth <= |cs| && IsMount(view, cs[..depth])
    ensures Components(Mapped(view, cs, depth)) == Components(view[cs[..depth]].target.value) + cs[depth..]
  {
    var target := view[cs[..depth]].target.value;
    if cs == [] {
      assert target + "/" == target + "/" + "";
      ComponentsJoin(target, "");
      assert Components(target) + [] == Components(target) + cs[depth..];
    } else {
      ComponentsBelow(target, cs[depth..]);
    }
  }

  //
  // Opening a node
  //

  datatype VfsError =
    | OutOfHandles | PermissionDenied | NoSuchFileOrDirectory | NotADirectory | NotAFile | InternalError | IoError

  /** What a request comes to: a directory or file that may be used, or a refusal. */
  datatype Outcome =
    | Granted(dir: seq<string>, flags: Flags, isVirtual: bool, mapped: Option<CString>)
    | Denied(error: VfsError)

  function MappedText(view: View, cs: seq<string>, depth: nat): CString
    requires AllComponents(cs) && depth <= |cs| && IsMount(view, cs[..depth])
  {
    RenderBelow(cs, depth);
    Mapped(view, cs, depth)
  }

  /** The last hurdle: unless symlinks are allowed, the real path must be free of them. */
  function SymlinkOutcome(view: View, flags: Flags, cs: seq<string>, depth: nat, lstat: Lstat): Outcome
    requires AllComponents(cs) && depth <= |cs| && IsMount(view, cs[..depth])
  {
    var mapped := MappedText(view, cs, depth);
    var check := CheckVisits(lstat, Visits(mapped));
    if flags & ALLOW_SYMLINKS == 0 && check.criticalError then Denied(InternalError)
    else if flags & ALLOW_SYMLINKS == 0 && check.containsSymlink then Denied(NoSuchFileOrDirectory)
    else Granted(cs, flags, cs in view, Some(mapped))
  }

  /** What is refused by its flags alone. */
  function Filtered(flags: Flags, cs: seq<string>): Option<VfsError> {
    if flags & FILTER_ALL != 0 then Some(NoSuchFileOrDirectory)
    else if flags & FILTER_HIDDEN != 0 && HasHidden(cs) then Some(PermissionDenied)
    else None
  }

  /** What there is at a directory that is not filtered: something real behind a mount, or something virtual. */
  function Located(view: View, flags: Flags, cs: seq<string>, lstat: Lstat): Outcome
    requires AllComponents(cs)
  {
    var mount := MountDepth(view, cs);
    if mount.Some? then SymlinkOutcome(view, flags, cs, mount.value, lstat)
    else if cs in view then Granted(cs, flags, true, None)
    else Denied(NoSuchFileOrDirectory)
  }

  /**
   Who gets what: filtered directories do not exist, hidden components are refused where
   hidden is filtered, then something must be there, and last come symlinks.
   */
  function Decide(view: View, base: Flags, cs: seq<string>, lstat: Lstat): Outcome
    requires AllComponents(cs)
  {
    var flags := EffectiveFlags(view, base, cs);
    if Filtered(flags, cs).Some? then Denied(Filtered(flags, cs).value) else Located(view, flags, cs, lstat)
  }

  /** The decision on a request made in directory `cwd`. */
  function DecideRequest(view: View, base: Flags, cwd: CString, path: CString, lstat: Lstat): Outcome {
    ResolveIsCanonical(AbsolutePath(cwd, path));
    Decide(view, base, RequestComponents(cwd, path), lstat)
  }

  //
  // Host file system
  //

  datatype Errno = EACCES | ENOENT | OtherErrno

  /** `vfs_errno_to_vfs_error` */
  function ErrnoToVfsError(errnum: Errno): VfsError {
    match errnum
    case EACCES => PermissionDenied
    case ENOENT => NoSuchFileOrDirectory
    case OtherErrno => InternalError
  }

  datatype FileKind = RegularFile | Directory | OtherKind

  datatype StatResult = StatOk(kind: FileKind) | StatFailed(errnum: Errno)

  type Stat = CString -> StatResult

  //
  // Handles
  //

  /** The part of `struct vfs_handle_t` that opening a node fills in. */
  class Handle {
    var virtualPath: CString
    var mappedPath: Option<CString>
    var inode: Inode?
    var flags: Flags

    constructor ()
      ensures virtualPath == "" && mappedPath == None && inode == null && flags == 0
    {
      virtualPath, mappedPath, inode, flags := "", None, null, 0;
    }

    /** The handle carries what was granted. */
    ghost predicate Carries(granted: Outcome, inodes: seq<Inode>)
      requires granted.Granted?
      reads this
    {
      && virtualPath == PathText(granted.dir) && flags == granted.flags && mappedPath == granted.mapped
      && (inode != null <==> granted.isVirtual)
      && (inode != null ==> inode in inodes && inode.dir == granted.dir)
    }
  }

  /** What `vfs_open_node` must answer, given the state of the file system object. */
  ghost function OpenOutcome(vfs: Vfs, path: Option<CString>, lstat: Lstat): Outcome
    reads vfs
  {
    if path == None then Denied(InternalError)
    else if vfs.currentHandles >= vfs.maxHandles then Denied(OutOfHandles)
    else if !vfs.frozen then Denied(InternalError)
    else DecideRequest(vfs.view, vfs.baseFlags, vfs.cwd, path.value, lstat)
  }

  lemma CwdUsable(vfs: Vfs)
    requires vfs.Valid()
    ensures vfs.cwd == "" || IsAbsolute(vfs.cwd)
  {
    RenderShape(vfs.cwdDir);
  }

  /** What a lookup of the canonical path of `cs` says about `cs`. */
  lemma LookupOfCanonical(vfs: Vfs, cs: seq<string>)
    requires vfs.Valid() && AllComponents(cs)
    ensures '\0' !in PathText(cs) && IsAbsolute(PathText(cs))
    ensures Means(LookupFold(vfs.inodes, vfs.baseFlags, Visits(PathText(cs))),
                  vfs.inodes, vfs.view, vfs.baseFlags, cs, |cs| + 1)
  {
    RenderShape(cs);
    CanonicalForms(cs);
    LookupRefinesView(vfs.inodes, vfs.view, vfs.baseFlags, PathText(cs), cs);
  }

  lemma MountOfLookup(vfs: Vfs, lookup: LookupResult, cs: seq<string>)
    requires vfs.Valid() && Means(lookup, vfs.inodes, vfs.view, vfs.baseFlags, cs, |cs| + 1)
    requires lookup.mountpoint != null
    ensures MountDepth(vfs.view, cs).Some?
    ensures var m, dir := lookup.mountpoint, cs[..MountDepth(vfs.view, cs).value];
            && m.virtualPath == Render(dir) && m.vlen == |m.virtualPath|
            && IsMount(vfs.view, dir) && m.targetPath == vfs.view[dir].target && m.tlen == |m.targetPath.value|
  {
    var m := lookup.mountpoint;
    assert InodeOk(m) && vfs.view[m.dir] == EntryOf(m);
  }

  /** Mapping the canonical path of `cs` through its mountpoint gives its real path. */
  method MapLookup(vfs: Vfs, lookup: LookupResult, virtualPath: CString, ghost cs: seq<string>)
    returns (mapped: Option<CString>)
    requires vfs.Valid() && AllComponents(cs) && virtualPath == PathText(cs)
    requires Means(lookup, vfs.inodes, vfs.view, vfs.baseFlags, cs, |cs| + 1) && lookup.mountpoint != null
    ensures MountDepth(vfs.view, cs).Some?
    ensures mapped == Some(MappedText(vfs.view, cs, MountDepth(vfs.view, cs).value))
  {
    MountOfLookup(vfs, lookup, cs);
    ghost var depth := MountDepth(vfs.view, cs).value;
    MappedByLookup(lookup.mountpoint.targetPath.value, cs, depth);
    RenderShape(cs);
    mapped := MapPath(Some(lookup), Some(virtualPath));
  }

  /** Maps the looked-up path and checks it for symlinks. */
  method MapAndCheck(vfs: Vfs, handle: Handle, lookup: LookupResult, lstat: Lstat, ghost cs: seq<string>)
    returns (error: Option<VfsError>)
    requires vfs.Valid() && AllComponents(cs) && handle.virtualPath == PathText(cs)
    requires Means(lookup, vfs.inodes, vfs.view, vfs.baseFlags, cs, |cs| + 1) && lookup.mountpoint != null
    modifies handle`mappedPath
    ensures var outcome := SymlinkOutcome(vfs.view, lookup.flags, cs, MountDepth(vfs.view, cs).value, lstat);
            match error
            case Some(e) => outcome == Denied(e)
            case None => outcome.Granted? && handle.mappedPath == outcome.mapped
  {
    var mapped := MapLookup(vfs, lookup, handle.virtualPath, cs);
    handle.mappedPath := mapped;
    if handle.mappedPath == None {
      return Some(InternalError);
    }
    if lookup.flags & ALLOW_SYMLINKS == 0 {
      var symlink := PathContainsSymlink(handle.mappedPath.value, lstat);
      if symlink.criticalError {
        return Some(InternalError);
      }
      if symlink.containsSymlink {
        return Some(NoSuchFileOrDirectory);
      }
    }
    return None;
  }

  method HiddenInRequest(virtualPath: CString, ghost cs: seq<string>) returns (hidden: bool)
    requires AllComponents(cs) && virtualPath == PathText(cs)
    ensures hidden <==> HasHidden(cs)
  {
    ComponentsOfRender(cs);
    HiddenAmong(cs);
    hidden := PathContainsHidden(virtualPath);
  }

  method CheckFilters(flags: Flags, virtualPath: CString, ghost cs: seq<string>) returns (error: Option<VfsError>)
    requires AllComponents(cs) && virtualPath == PathText(cs)
    ensures error == Filtered(flags, cs)
  {
    if flags & FILTER_ALL != 0 {
      return Some(NoSuchFileOrDirectory);
    }
    if flags & FILTER_HIDDEN != 0 {
      var hidden := HiddenInRequest(virtualPath, cs);
      if hidden {
        return Some(PermissionDenied);
      }
    }
    return None;
  }

  /** Goes through the mountpoint if there is one, and needs an inode otherwise. */
  method Locate(vfs: Vfs, handle: Handle, lookup: LookupResult, lstat: Lstat, ghost cs: seq<string>)
    returns (error: Option<VfsError>)
    requires vfs.Valid() && AllComponents(cs) && handle.virtualPath == PathText(cs)
    requires Means(lookup, vfs.inodes, vfs.view, vfs.baseFlags, cs, |cs| + 1) && handle.mappedPath == None
    requires handle.inode == lookup.inode
    modifies handle`mappedPath
    ensures var outcome := Located(vfs.view, lookup.flags, cs, lstat);
            match error
            case Some(e) => outcome == Denied(e)
            case None => outcome.Granted? && handle.mappedPath == outcome.mapped
  {
    if handle.inode == null && lookup.mountpoint == null {
      return Some(NoSuchFileOrDirectory);
    }
    if lookup.mountpoint != null {
      error := MapAndCheck(vfs, handle, lookup, lstat, cs);
      return error;
    }
    return None;
  }

  /** Turns the lookup of `cs` into a decision, filling in the handle. */
  method ApplyLookup(vfs: Vfs, handle: Handle, lookup: LookupResult, lstat: Lstat, ghost cs: seq<string>)
    returns (error: Option<VfsError>)
    requires vfs.Valid() && AllComponents(cs) && handle.virtualPath == PathText(cs)
    requires Means(lookup, vfs.inodes, vfs.view, vfs.baseFlags, cs, |cs| + 1) && handle.mappedPath == None
    modifies handle`inode, handle`flags, handle`mappedPath
    ensures var outcome := Decide(vfs.view, vfs.baseFlags, cs, lstat);
            match error
            case Some(e) => outcome == Denied(e)
            case None => outcome.Granted? && handle.mappedPath == outcome.mapped
    ensures handle.inode == lookup.inode && handle.flags == lookup.flags
  {
    handle.inode, handle.flags := lookup.inode, lookup.flags;
    error := CheckFilters(lookup.flags, handle.virtualPath, cs);
    if error == None {
      error := Locate(vfs, handle, lookup, lstat, cs);
    }
  }

  ghost predicate HiddenRefused(view: View, base: Flags, cs: seq<string>) {
    BitPrevails(view, base, cs, FILTER_HIDDEN) && exists c | c in cs :: c != "" && c[0] == '.'
  }

  /** Symlinks are not allowed, and the first prefix of the real path that is not plain has this outcome. */
  ghost predicate TroubleOnTheWay(view: View, base: Flags, cs: seq<string>, lstat: Lstat, outcome: LstatResult)
    requires AllComponents(cs)
  {
    match MountDepth(view, cs)
    case None => false
    case Some(depth) =>
      && !BitPrevails(view, base, cs, ALLOW_SYMLINKS)
      && FirstTroubleIs(lstat, Visits(MappedText(view, cs, depth)), outcome)
  }

  /** Exactly when a request for `cs` is refused with this error. */
  ghost predicate RefusedWith(view: View, base: Flags, cs: seq<string>, lstat: Lstat, error: VfsError)
    requires AllComponents(cs)
  {
    var filtered, hidden := BitPrevails(view, base, cs, FILTER_ALL), HiddenRefused(view, base, cs);
    match error
    case PermissionDenied => !filtered && hidden
    case InternalError => !filtered && !hidden && TroubleOnTheWay(view, base, cs, lstat, LstatFailed(false))
    case NoSuchFileOrDirectory => filtered || (!hidden && Missing(view, base, cs, lstat))
    case _ => false
  }

  /** There is nothing, or a symlink stands in the way. */
  ghost predicate Missing(view: View, base: Flags, cs: seq<string>, lstat: Lstat)
    requires AllComponents(cs)
  {
    || (MountDepth(view, cs) == None && cs !in view)
    || TroubleOnTheWay(view, base, cs, lstat, LstatOk(true))
  }

  lemma FilterRefusals(view: View, base: Flags, cs: seq<string>)
    ensures var filtered, hidden := BitPrevails(view, base, cs, FILTER_ALL), HiddenRefused(view, base, cs);
            Filtered(EffectiveFlags(view, base, cs), cs) ==
            if filtered then Some(NoSuchFileOrDirectory) else if hidden then Some(PermissionDenied) else None
  {
    PrevailingFlags(view, base, cs);
    HiddenAmong(cs);
    assert HasHidden(cs) <==> exists c | c in cs :: c != "" && c[0] == '.';
  }

  lemma LocationRefusals(view: View, base: Flags, cs: seq<string>, lstat: Lstat)
    requires AllComponents(cs)
    ensures var outcome := Located(view, EffectiveFlags(view, base, cs), cs, lstat);
            && (outcome == Denied(InternalError) <==> TroubleOnTheWay(view, base, cs, lstat, LstatFailed(false)))
            && (outcome == Denied(NoSuchFileOrDirectory) <==> Missing(view, base, cs, lstat))
            && (outcome.Denied? ==> outcome.error in {InternalError, NoSuchFileOrDirectory})
  {
    PrevailingFlags(view, base, cs);
    var mount := MountDepth(view, cs);
    if mount.Some? {
      TroubleExcludes(lstat, Visits(MappedText(view, cs, mount.value)));
    }
  }

  /** Which error a refusal gives, and which of several reasons comes first. */
  lemma Refusals(view: View, base: Flags, cs: seq<string>, lstat: Lstat, error: VfsError)
    requires AllComponents(cs)
    ensures Decide(view, base, cs, lstat) == Denied(error) <==> RefusedWith(view, base, cs, lstat, error)
  {
    FilterRefusals(view, base, cs);
    LocationRefusals(view, base, cs, lstat);
  }

  /** What the check says, in terms of the first prefix that is not plain. */
  lemma TroubleExcludes(lstat: Lstat, visits: seq<Visit>)
    ensures var check := CheckVisits(lstat, visits);
            && (check.containsSymlink <==> FirstTroubleIs(lstat, visits, LstatOk(true)))
            && (check.criticalError <==> FirstTroubleIs(lstat, visits, LstatFailed(false)))
            && !(check.containsSymlink && check.criticalError)
  {
    BitsMean(lstat, visits);
    FirstTroubleDecides(lstat, visits);
  }

  /** The handle limit and the frozen state are looked at before the request. */
  ghost predicate OpenRefusedWith(vfs: Vfs, path: Option<CString>, lstat: Lstat, error: VfsError)
    reads vfs
  {
    if path == None then error == InternalError
    else if vfs.currentHandles >= vfs.maxHandles then error == OutOfHandles
    else if !vfs.frozen then error == InternalError
    else
      (ResolveIsCanonical(AbsolutePath(vfs.cwd, path.value));
       RefusedWith(vfs.view, vfs.baseFlags, RequestComponents(vfs.cwd, path.value), lstat, error))
  }

  lemma OpenRefusals(vfs: Vfs, path: Option<CString>, lstat: Lstat)
    ensures forall e :: OpenOutcome(vfs, path, lstat) == Denied(e) <==> OpenRefusedWith(vfs, path, lstat, e)
  {
    if path.Some? {
      ResolveIsCanonical(AbsolutePath(vfs.cwd, path.value));
      forall e {
        Refusals(vfs.view, vfs.baseFlags, RequestComponents(vfs.cwd, path.value), lstat, e);
      }
    }
  }

  /** `vfs_open_node`: a handle exactly when the request is granted, carrying what was granted. */
  method OpenNode(vfs: Vfs, path: Option<CString>, lstat: Lstat) returns (error: Option<VfsError>, handle: Handle?)
    requires vfs.Valid()
    ensures error.Some? ==> handle == null && OpenOutcome(vfs, path, lstat) == Denied(error.value)
    ensures error == None ==>
              var granted := OpenOutcome(vfs, path, lstat);
              granted.Granted? && handle != null && fresh(handle) && handle.Carries(granted, vfs.inodes)
    ensures forall e :: error == Some(e) <==> OpenRefusedWith(vfs, path, lstat, e)
  {
    OpenRefusals(vfs, path, lstat);
    if path == None {
      return Some(InternalError), null;
    }
    if vfs.currentHandles >= vfs.maxHandles {
      return Some(OutOfHandles), null;
    }
    var h := new Handle();
    CwdUsable(vfs);
    var sanitized := SanitizePath(vfs.cwd, path.value);
    if sanitized == None {
      return Some(InternalError), null;
    }
    ghost var cs := RequestComponents(vfs.cwd, path.value);
    h.virtualPath := sanitized.value;
    LookupOfCanonical(vfs, cs);
    var ok, lookup := vfs.Lookup(h.virtualPath);
    if !ok {
      return Some(InternalError), null;
    }
    error := ApplyLookup(vfs, h, lookup, lstat, cs);
    if error.Some? {
      return error, null;
    }
    GrantedIsPermitted(vfs.view, vfs.baseFlags, cs, lstat);
    return None, h;
  }

  lemma HiddenAmong(cs: seq<string>)
    ensures HasHidden(cs) <==> exists c | c in cs :: IsHidden(c)
  {
  }

  //
  // What being granted means
  //

  /** A granted request is not filtered, shows no hidden component where those are filtered, and leads somewhere. */
  lemma GrantedIsPermitted(view: View, base: Flags, cs: seq<string>, lstat: Lstat)
    requires AllComponents(cs) && Decide(view, base, cs, lstat).Granted?
    ensures var g := Decide(view, base, cs, lstat);
            && g.dir == cs && g.flags == EffectiveFlags(view, base, cs)
            && g.flags & FILTER_ALL == 0
            && (g.flags & FILTER_HIDDEN != 0 ==> !HasHidden(cs))
            && (g.isVirtual <==> cs in view) && (g.isVirtual || g.mapped.Some?)
  {
  }

  /** Any symlink or failing prefix lies behind a prefix that does not exist. */
  ghost predicate NoSymlinkReached(lstat: Lstat, visits: seq<Visit>) {
    forall k | 0 <= k < |visits| && lstat(visits[k].prefix) in {LstatOk(true), LstatFailed(false)} ::
      exists j | 0 <= j < k :: lstat(visits[j].prefix) == LstatFailed(true)
  }

  lemma CleanCheck(lstat: Lstat, visits: seq<Visit>)
    ensures var check := CheckVisits(lstat, visits);
            !check.criticalError && !check.containsSymlink <==> NoSymlinkReached(lstat, visits)
  {
    FirstTroubleDecides(lstat, visits);
    if k :| 0 <= k < |visits| && !IsPlain(lstat, visits[k]) {
      var j :| 0 <= j < |visits| && !IsPlain(lstat, visits[j])
        && (forall i | 0 <= i < j :: IsPlain(lstat, visits[i]))
        && CheckVisits(lstat, visits) == Verdict(lstat(visits[j].prefix));
      assert lstat(visits[j].prefix) in {LstatOk(true), LstatFailed(false), LstatFailed(true)};
    }
  }

  /** The deepest directory on the way to `cs` that sets or resets the bit sets it and does not reset it. */
  predicate BitPrevails(view: View, base: Flags, cs: seq<string>, bit: Flags) {
    match DeepestTouch(view, cs, |cs| + 1, bit)
    case None => HasBit(base, bit)
    case Some(k) => !HasBit(view[cs[..k]].flagsReset, bit)
  }

  lemma PrevailingFlags(view: View, base: Flags, cs: seq<string>)
    ensures var flags := EffectiveFlags(view, base, cs);
            && (flags & FILTER_ALL != 0 <==> BitPrevails(view, base, cs, FILTER_ALL))
            && (flags & FILTER_HIDDEN != 0 <==> BitPrevails(view, base, cs, FILTER_HIDDEN))
            && (flags & ALLOW_SYMLINKS != 0 <==> BitPrevails(view, base, cs, ALLOW_SYMLINKS))
  {
    DeepestDecidesBit(view, base, cs, |cs| + 1, FILTER_ALL);
    DeepestDecidesBit(view, base, cs, |cs| + 1, FILTER_HIDDEN);
    DeepestDecidesBit(view, base, cs, |cs| + 1, ALLOW_SYMLINKS);
  }

  /** What stands behind a mount is only reached past no symlink, unless symlinks are allowed there. */
  ghost predicate Reachable(view: View, base: Flags, cs: seq<string>, lstat: Lstat)
    requires AllComponents(cs)
  {
    match MountDepth(view, cs)
    case None => cs in view
    case Some(depth) =>
      BitPrevails(view, base, cs, ALLOW_SYMLINKS) || NoSymlinkReached(lstat, Visits(MappedText(view, cs, depth)))
  }

  /**
   Exactly which requests are granted, in terms of what is registered: those not filtered
   by the deepest directory with a say in it, likewise for hidden components, and leading
   somewhere without a forbidden symlink.
   */
  lemma GrantedExactly(view: View, base: Flags, cs: seq<string>, lstat: Lstat)
    requires AllComponents(cs)
    ensures Decide(view, base, cs, lstat).Granted? <==>
            && !BitPrevails(view, base, cs, FILTER_ALL)
            && (BitPrevails(view, base, cs, FILTER_HIDDEN) ==> forall c | c in cs :: !IsHidden(c))
            && Reachable(view, base, cs, lstat)
  {
    PrevailingFlags(view, base, cs);
    HiddenAmong(cs);
    var mount := MountDepth(view, cs);
    if mount.Some? {
      CleanCheck(lstat, Visits(MappedText(view, cs, mount.value)));
    }
  }

  /**
   End to end: whatever the working directory and the request, a mapped path consists of
   the components of the deepest mount's target followed by those of the normalised
   request below that mount, and the latter never contain "." or "..".
   */
  lemma MappedStaysBelowMount(view: View, base: Flags, cwd: CString, path: CString, lstat: Lstat)
    returns (cs: seq<string>, depth: nat)
    requires var g := DecideRequest(view, base, cwd, path, lstat); g.Granted? && g.mapped.Some?
    ensures cs == RequestComponents(cwd, path) && AllComponents(cs)
    ensures depth <= |cs| && IsMount(view, cs[..depth])
    ensures forall k | depth < k <= |cs| :: !IsMount(view, cs[..k])
    ensures Components(DecideRequest(view, base, cwd, path, lstat).mapped.value)
         == Components(view[cs[..depth]].target.value) + cs[depth..]
  {
    cs := RequestComponents(cwd, path);
    ResolveIsCanonical(AbsolutePath(cwd, path));
    depth := MountDepth(view, cs).value;
    MappedComponents(view, cs, depth);
  }

  //
  // Changing directory
  //

  /** Where a granted directory change is still refused: the mapped path must be a real directory. */
  function ChdirError(outcome: Outcome, stat: Stat): Option<VfsError>
    requires outcome.Granted? ==> outcome.isVirtual || outcome.mapped.Some?
  {
    if outcome.Denied? then Some(outcome.error)
    else if outcome.isVirtual then None
    else DirectoryError(stat(outcome.mapped.value))
  }

  function DirectoryError(result: StatResult): Option<VfsError> {
    match result
    case StatFailed(errnum) => Some(ErrnoToVfsError(errnum))
    case StatOk(Directory) => None
    case StatOk(_) => Some(NotADirectory)
  }

  /** What `stat` says about a real path, as the error of a directory change. */
  ghost predicate ErrorTells(error: Option<VfsError>, result: StatResult) {
    && (error == None <==> result == StatOk(Directory))
    && (error == Some(PermissionDenied) <==> result == StatFailed(EACCES))
    && (error == Some(NoSuchFileOrDirectory) <==> result == StatFailed(ENOENT))
    && (error == Some(InternalError) <==> result == StatFailed(OtherErrno))
    && (error == Some(NotADirectory) <==> result == StatOk(RegularFile) || result == StatOk(OtherKind))
  }

  /** What a directory change answers: a refusal to open is passed on, registered directories can be entered. */
  lemma ChdirMeans(vfs: Vfs, path: Option<CString>, lstat: Lstat, stat: Stat)
    ensures (OpenOutcomeLeadsSomewhere(vfs, path, lstat);
             var outcome, error := OpenOutcome(vfs, path, lstat), ChdirError(OpenOutcome(vfs, path, lstat), stat);
             && (outcome.Denied? ==> error == Some(outcome.error))
             && (outcome.Granted? && outcome.dir in vfs.view ==> error == None)
             && (outcome.Granted? && outcome.dir !in vfs.view ==> ErrorTells(error, stat(outcome.mapped.value))))
  {
    OpenOutcomeLeadsSomewhere(vfs, path, lstat);
    if OpenOutcome(vfs, path, lstat).Granted? {
      GrantedIsPermitted(vfs.view, vfs.baseFlags, RequestComponents(vfs.cwd, path.value), lstat);
    }
  }

  /** Virtual directories can always be entered, others have to be directories. */
  method CheckDirectory(handle: Handle, stat: Stat) returns (error: Option<VfsError>)
    requires handle.inode == null ==> handle.mappedPath.Some?
    ensures error == if handle.inode != null then None else DirectoryError(stat(handle.mappedPath.value))
  {
    if handle.inode != null {
      return None;
    }
    var result := stat(handle.mappedPath.value);
    if result.StatFailed? {
      return Some(ErrnoToVfsError(result.errnum));
    }
    if result.kind != Directory {
      return Some(NotADirectory);
    }
    return None;
  }

  lemma OpenOutcomeLeadsSomewhere(vfs: Vfs, path: Option<CString>, lstat: Lstat)
    ensures var o := OpenOutcome(vfs, path, lstat); o.Granted? ==> o.isVirtual || o.mapped.Some?
    ensures var o := OpenOutcome(vfs, path, lstat);
            o.Granted? ==> path.Some? && o.dir == RequestComponents(vfs.cwd, path.value) && AllComponents(o.dir)
  {
    if path.Some? {
      ResolveIsCanonical(AbsolutePath(vfs.cwd, path.value));
    }
  }

  lemma PathAsCwd(cs: seq<string>)
    requires AllComponents(cs)
    ensures '\0' !in PathText(cs) && IsAbsolute(PathText(cs))
    ensures TrimSlashes(PathText(cs)) == Render(cs) && Components(PathText(cs)) == cs
  {
    RenderShape(cs);
    CanonicalForms(cs);
    ComponentsOfRender(cs);
  }

  /** `vfs_chdir`: on success the working directory is the requested one; on failure it stays. */
  method Chdir(vfs: Vfs, path: Option<CString>, lstat: Lstat, stat: Stat) returns (error: Option<VfsError>)
    requires vfs.Valid()
    modifies vfs`cwd, vfs`cwdDir
    ensures vfs.Valid()
    ensures (OpenOutcomeLeadsSomewhere(vfs, path, lstat);
             error == old(ChdirError(OpenOutcome(vfs, path, lstat), stat)))
    ensures var outcome := old(OpenOutcome(vfs, path, lstat));
            && (outcome.Denied? ==> error == Some(outcome.error))
            && (outcome.Granted? && outcome.dir in vfs.view ==> error == None)
            && (outcome.Granted? && outcome.dir !in vfs.view ==>
                  outcome.mapped.Some? && ErrorTells(error, stat(outcome.mapped.value)))
    ensures error.Some? ==> vfs.cwd == old(vfs.cwd)
    ensures error == None ==> path.Some? && vfs.cwdDir == RequestComponents(old(vfs.cwd), path.value)
                              && vfs.cwd == Render(vfs.cwdDir)
  {
    OpenOutcomeLeadsSomewhere(vfs, path, lstat);
    ChdirMeans(vfs, path, lstat, stat);
    var handle;
    error, handle := OpenNode(vfs, path, lstat);
    if error.Some? {
      return error;
    }
    error := CheckDirectory(handle, stat);
    if error.Some? {
      return error;
    }
    ghost var cs := RequestComponents(vfs.cwd, path.value);
    PathAsCwd(cs);
    var success := vfs.SetCwd(handle.virtualPath);
    if !success {
      return Some(InternalError);
    }
    return None;
  }

  /**
   After a successful change into `a`, resolving a relative `b` leads where `a/b` would
   have led from the old working directory; and so the decision is the same.
   */
  lemma ChdirThenRequest(view: View, base: Flags, cwd: CString, a: CString, b: CString, lstat: Lstat)
    requires cwd == "" || IsAbsolute(cwd)
    requires (a != "" || Resolve(cwd) == []) && !IsAbsolute(b)
    ensures '\0' !in Render(RequestComponents(cwd, a))
    ensures RequestComponents(Render(RequestComponents(cwd, a)), b) == RequestComponents(cwd, a + "/" + b)
    ensures DecideRequest(view, base, Render(RequestComponents(cwd, a)), b, lstat)
         == DecideRequest(view, base, cwd, a + "/" + b, lstat)
  {
    ResolveIsCanonical(AbsolutePath(cwd, a));
    RenderShape(RequestComponents(cwd, a));
    ResolutionComposes(cwd, a, b);
  }

  /** A real path is the deepest mount's target followed by the components below that mount. */
  ghost predicate LiesBelowMount(view: View, cs: seq<string>, mapped: string) {
    exists depth: nat | depth <= |cs| ::
      && IsMount(view, cs[..depth])
      && (forall k | depth < k <= |cs| :: !IsMount(view, cs[..k]))
      && Components(mapped) == Components(view[cs[..depth]].target.value) + cs[depth..]
  }

  lemma HandleBelowMount(vfs: Vfs, path: CString, lstat: Lstat, handle: Handle)
    requires var granted := OpenOutcome(vfs, Some(path), lstat); granted.Granted? && handle.Carries(granted, vfs.inodes)
    requires handle.mappedPath.Some?
    ensures LiesBelowMount(vfs.view, RequestComponents(vfs.cwd, path), handle.mappedPath.value)
  {
    var cs, depth := MappedStaysBelowMount(vfs.view, vfs.baseFlags, vfs.cwd, path, lstat);
  }
}
