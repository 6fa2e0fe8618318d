/** The virtual file system object: registering, freezing, looking up, changing directory (vfs.c). */
module VfsCore {
  import opened Options
  import opened CStrings
  import opened Paths
  import opened PathChecks
  import opened PathSplitting
  import opened Sequences
  import opened Sorting
  import opened StringLists
  import opened VfsTree
  import opened VfsView

  //
  // Child lists
  //

  /** The part of a path behind its last slash (`const_basename`). */
  function BaseName(path: CString): (name: CString)
    requires '/' in path
    ensures '/' !in name && |name| < |path|
    ensures path[|path| - |name| - 1] == '/' && path[|path| - |name|..] == name
  {
    var last := path[|path| - 1];
    if last == '/' then "" else
      assert path == path[..|path| - 1] + [last];
      BaseName(path[..|path| - 1]) + [last]
  }

  lemma {:induction false} BaseNameAfterSlash(head: CString, last: CString)
    requires '/' !in last
    ensures BaseName(head + "/" + last) == last
  {
    var s := head + "/" + last;
    if last != "" {
      var init := last[..|last| - 1];
      assert last[|last| - 1] in last;
      assert s[..|s| - 1] == head + "/" + init;
      BaseNameAfterSlash(head, init);
      assert init + [last[|last| - 1]] == last;
    }
  }

  lemma BaseNameOfRender(cs: seq<string>)
    requires AllComponents(cs) && cs != []
    ensures '\0' !in Render(cs) && '/' in Render(cs)
    ensures BaseName(Render(cs)) == cs[|cs| - 1]
  {
    RenderShape(cs);
    RenderShape(Parent(cs));
    BaseNameAfterSlash(Render(Parent(cs)), cs[|cs| - 1]);
  }

  /** A new directory's name goes into its parent's child list, and into no other. */
  lemma ListAfterAdd(before: ListState, after: ListState, view: View, dir: seq<string>, cs: seq<string>, entry: Entry)
    requires ListsChildren(before, view, dir) && AllComponents(cs) && cs !in view
    requires after == if cs != [] && dir == Parent(cs) then before.Insert(cs[|cs| - 1]) else before
    ensures ListsChildren(after, view[cs := entry], dir)
  {
    forall x: CString
      ensures dir + [x] == cs <==> cs != [] && dir == Parent(cs) && x == cs[|cs| - 1]
    {
      assert (dir + [x])[..|dir|] == dir && (dir + [x])[|dir|] == x;
      assert cs != [] ==> cs == Parent(cs) + [cs[|cs| - 1]];
    }
    if cs != [] && dir == Parent(cs) {
      var name: CString := cs[|cs| - 1];
      assert dir + [name] == cs;
      assert name !in before.strings;
    }
  }

  lemma NewListEmpty(view: View, cs: seq<string>, entry: Entry)
    requires Closed(view) && cs !in view
    ensures ListsChildren(ListState([], true), view[cs := entry], cs)
  {
    forall x: CString ensures cs + [x] !in view[cs := entry] {
      assert Parent(cs + [x]) == cs;
      assert |cs + [x]| > |cs|;
    }
  }

  lemma TrimOfDenoted(path: CString, cs: seq<string>)
    requires Denotes(path, cs)
    ensures TrimSlashes(path) == Render(cs) && Components(path) == cs
  {
    RenderShape(cs);
    DenotesComponents(path, cs);
    TrimAt(path, |Render(cs)|);
  }

  /** A target as it is stored: without its trailing slashes, and otherwise as it was given. */
  function TrimTarget(target: Option<CString>): Option<CString> {
    if target.Some? then Some(TrimSlashes(target.value)) else None
  }

  /** A canonical path, up to one trailing slash. */
  predicate IsCanonical(path: CString) {
    Denotes(path, Components(path))
  }

  /** `struct vfs_t` */
  class Vfs {
    var baseFlags: Flags
    var inodes: seq<Inode>
    var frozen: bool
    var cwd: CString
    var currentHandles: nat
    var maxHandles: nat
    /** What the inodes and the working directory stand for. */
    ghost var view: View
    ghost var cwdDir: seq<string>

    ghost predicate Valid()
      reads this, Lists(inodes)
    {
      Sound(inodes, view) && AllComponents(cwdDir) && cwd == Render(cwdDir)
    }

    /** `vfs_init` */
    constructor ()
      ensures Valid() && inodes == [] && view == map[] && !frozen
      ensures cwd == "" && cwdDir == [] && baseFlags == 0 && currentHandles == 0 && maxHandles == 10
    {
      baseFlags, inodes, frozen, cwd, currentHandles, maxHandles := 0, [], false, "", 0, 0;
      view, cwdDir := map[], [];
      new;
      var ok := SetCwd("/");
      maxHandles := 10;
      ComponentsOfRender([]);
      CanonicalForms([]);
    }

    /** `vfs_find_inode`: linear search. */
    method FindInode(path: CString) returns (inode: Inode?)
      ensures inode == FindFirst(inodes, path)
    {
      for i := 0 to |inodes|
        invariant FindFirst(inodes, path) == FindFirst(inodes[i..], path)
      {
        var equal := PathCmp(inodes[i].virtualPath, path);
        if equal {
          return inodes[i];
        }
      }
      return null;
    }

    /** `vfs_set_cwd` */
    method SetCwd(newCwd: CString) returns (ok: bool)
      modifies this`cwd, this`cwdDir
      ensures ok <==> IsAbsolute(newCwd)
      ensures cwd == if ok then TrimSlashes(newCwd) else old(cwd)
      ensures cwdDir == if ok then Components(newCwd) else old(cwdDir)
    {
      if !IsAbsolute(newCwd) {
        return false;
      }
      cwd := TruncatedCopy(newCwd);
      cwdDir := Components(newCwd);
      return true;
    }

    /**
     `vfs_add_single_inode`: appends the inode of a path, and enters its name into its parent's list.
     `cs` are the components of a canonical path, None for others.
     */
    method AddSingleInode(virtualPath: CString, targetPath: Option<CString>, flagsSet: Flags, flagsReset: Flags,
                          parent: Inode?, ghost cs: Option<seq<string>>)
      returns (inode: Inode)
      requires parent != null ==> parent in inodes && '/' in TrimSlashes(virtualPath)
      requires cs.Some? ==> FitsBelow(inodes, view, virtualPath, parent, cs.value)
      modifies this`inodes, this`view, if parent == null then {} else {parent.virtualSubdirs}
      ensures inodes == old(inodes) + [inode] && fresh(inode.virtualSubdirs)
      ensures inode.virtualPath == TrimSlashes(virtualPath)
      ensures EntryOf(inode) == Entry(flagsSet, flagsReset, TrimTarget(targetPath))
      ensures parent != null ==>
                parent.virtualSubdirs.State() == old(parent.virtualSubdirs.State()).Insert(BaseName(inode.virtualPath))
      ensures cs.Some? ==> Sound(inodes, view) && inode.dir == cs.value
      ensures cs.Some? ==> view == old(view)[cs.value := EntryOf(inode)]
    {
      var data := inodes;
      ghost var before := view;
      inode := CreateInode(data, before, virtualPath, targetPath, flagsSet, flagsReset, parent, cs);
      inodes, view := data + [inode], if cs.Some? then before[cs.value := EntryOf(inode)] else before;
    }

    /** `vfs_add_inode_splitter`: the inode of the visited prefix, created if it is not found. */
    method AddInodeSplitter(visit: Visit, leafTarget: Option<CString>, leafSet: Flags, leafReset: Flags,
                            previous: Inode?, ghost cs: Option<seq<string>>, ghost k: nat)
      returns (next: Inode)
      requires previous != null ==> previous in inodes
      requires EntersName(inodes, visit, previous) ==> '/' in TrimSlashes(visit.prefix)
      requires cs.Some? ==> FitsVisit(inodes, view, visit, previous, cs.value, k)
      modifies this`inodes, this`view, Lists(inodes)
      ensures Registered(old(inodes), inodes, next, visit, Entry(leafSet, leafReset, TrimTarget(leafTarget)))
      ensures old(inodes) <= inodes && forall n | n in inodes :: n in old(inodes) || fresh(n.virtualSubdirs)
      ensures EntersName(old(inodes), visit, previous) ==>
                && '/' in next.virtualPath
                && previous.virtualSubdirs.State()
                   == old(previous.virtualSubdirs.State()).Insert(BaseName(next.virtualPath))
      ensures cs.Some? ==> Sound(inodes, view) && next.dir == cs.value[..k]
      ensures cs.Some? ==>
                view == if cs.value[..k] in old(view) then old(view)
                        else old(view)[cs.value[..k] :=
                                         if k == |cs.value| then Entry(leafSet, leafReset, TrimTarget(leafTarget))
                                         else BLANK]
    {
      ghost var dir: Option<seq<string>> := None;
      if cs.Some? {
        dir := Some(cs.value[..k]);
        FindVisited(inodes, view, cs.value, k);
        assert k > 0 ==> Parent(cs.value[..k]) == cs.value[..k - 1];
      }
      var inode := FindInode(visit.prefix);
      if inode == null {
        // Only the last visit creates the leaf itself
        var target, flagsSet, flagsReset := None, 0, 0;
        if visit.isFull {
          target, flagsSet, flagsReset := leafTarget, leafSet, leafReset;
        }
        next := AddSingleInode(visit.prefix, target, flagsSet, flagsReset, previous, dir);
      } else {
        next := inode;
      }
    }

    /**
     Runs the splitter callback on visit number `k`; `rows` and `start` are what was there
     before the first one.
     */
    method TakeVisit(visits: seq<Visit>, k: nat, leafTarget: Option<CString>, leafSet: Flags, leafReset: Flags,
                     previous: Inode?, ghost rows: seq<Row>, ghost start: View, ghost cs: Option<seq<string>>)
      returns (next: Inode)
      requires k < |visits| && visits[0].prefix == "/" && forall j | 0 < j < |visits| :: HasName(visits[j].prefix)
      requires if k == 0 then previous == null else previous != null && previous in inodes
      requires Rows(inodes) == RegisterAll(rows, visits[..k], Entry(leafSet, leafReset, TrimTarget(leafTarget)))
      requires cs.Some? ==>
                 && VisitsOf(visits, cs.value)
                 && Follows(inodes, view, previous, start, cs.value,
                            Entry(leafSet, leafReset, TrimTarget(leafTarget)), k)
      modifies this`inodes, this`view, Lists(inodes)
      ensures Rows(inodes) == RegisterAll(rows, visits[..k + 1], Entry(leafSet, leafReset, TrimTarget(leafTarget)))
      ensures next in inodes
      ensures old(inodes) <= inodes && forall n | n in inodes :: n in old(inodes) || fresh(n.virtualSubdirs)
      ensures cs.Some? ==>
                Follows(inodes, view, next, start, cs.value, Entry(leafSet, leafReset, TrimTarget(leafTarget)), k + 1)
    {
      ghost var leaf, before := Entry(leafSet, leafReset, TrimTarget(leafTarget)), inodes;
      VisitMayRegister(rows, before, visits, leaf, k);
      next := AddInodeSplitter(visits[k], leafTarget, leafSet, leafReset, previous, cs, k);
      VisitRegisters(rows, before, inodes, next, visits, leaf, k);
    }

    /** Runs the splitter callback on all visits. */
    method AddVisits(visits: seq<Visit>, leafTarget: Option<CString>, leafSet: Flags, leafReset: Flags,
                     ghost cs: Option<seq<string>>)
      requires visits != [] && visits[0].prefix == "/"
      requires forall k | 0 < k < |visits| :: HasName(visits[k].prefix)
      requires cs.Some? ==> Sound(inodes, view) && VisitsOf(visits, cs.value)
      modifies this`inodes, this`view, Lists(inodes)
      ensures Rows(inodes) == RegisterAll(old(Rows(inodes)), visits, Entry(leafSet, leafReset, TrimTarget(leafTarget)))
      ensures old(inodes) <= inodes && forall n | n in inodes :: n in old(inodes) || fresh(n.virtualSubdirs)
      ensures cs.Some? ==> Sound(inodes, view)
      ensures cs.Some? ==> view == Extend(old(view), cs.value, Entry(leafSet, leafReset, TrimTarget(leafTarget)))
    {
      var previous: Inode? := null;
      ghost var leaf := Entry(leafSet, leafReset, TrimTarget(leafTarget));
      ghost var rows, start := Rows(inodes), view;
      for k := 0 to |visits|
        invariant old(inodes) <= inodes && forall n | n in inodes :: n in old(inodes) || fresh(n.virtualSubdirs)
        invariant Rows(inodes) == RegisterAll(rows, visits[..k], leaf)
        invariant if k == 0 then previous == null else previous != null && previous in inodes
        invariant cs.Some? ==> Follows(inodes, view, previous, start, cs.value, leaf, k)
      {
        previous := TakeVisit(visits, k, leafTarget, leafSet, leafReset, previous, rows, start, cs);
      }
      TakeAll(visits);
    }

    /** Splits a path and registers all its prefixes. */
    method AddPrefixes(path: CString, leafTarget: Option<CString>, leafSet: Flags, leafReset: Flags,
                       ghost cs: Option<seq<string>>)
      requires IsAbsolute(path) && !("///" <= path)
      requires cs.Some? ==> Sound(inodes, view) && VisitsOf(Visits(path), cs.value)
      modifies this`inodes, this`view, Lists(inodes)
      ensures Rows(inodes) ==
                RegisterAll(old(Rows(inodes)), Visits(path), Entry(leafSet, leafReset, TrimTarget(leafTarget)))
      ensures old(inodes) <= inodes && forall n | n in inodes :: n in old(inodes) || fresh(n.virtualSubdirs)
      ensures cs.Some? ==> Sound(inodes, view)
      ensures cs.Some? ==> view == Extend(old(view), cs.value, Entry(leafSet, leafReset, TrimTarget(leafTarget)))
    {
      var visits := CollectVisits(path);
      VisitsHaveNames(path);
      AddVisits(visits, leafTarget, leafSet, leafReset, cs);
    }

    /**
     `vfs_add_inode`: rejected, leaving everything as it was, unless both paths are absolute and the
     virtual path is not found; otherwise its prefixes are registered. For a canonical path in a sound
     file system, these are the directory and its missing ancestors.
     */
    method AddInode(virtualPath: CString, targetPath: Option<CString>, flagsSet: Flags, flagsReset: Flags)
      returns (ok: bool)
      requires !("///" <= virtualPath)
      modifies this`inodes, this`view, Lists(inodes)
      ensures ok <==> && IsAbsolute(virtualPath) && (targetPath.Some? ==> IsAbsolute(targetPath.value))
                      && !HasRow(old(Rows(inodes)), virtualPath)
      ensures ok ==> Rows(inodes) == RegisterAll(old(Rows(inodes)), Visits(virtualPath),
                                                 Entry(flagsSet, flagsReset, TrimTarget(targetPath)))
      ensures !ok ==> unchanged(this) && forall l | l in Lists(inodes) :: unchanged(l)
      ensures old(inodes) <= inodes && forall n | n in inodes :: n in old(inodes) || fresh(n.virtualSubdirs)
      ensures old(Valid()) && (IsAbsolute(virtualPath) ==> IsCanonical(virtualPath)) ==>
                && Valid()
                && (ok <==> && IsAbsolute(virtualPath) && (targetPath.Some? ==> IsAbsolute(targetPath.value))
                            && Components(virtualPath) !in old(view))
                && (ok ==> view == Extend(old(view), Components(virtualPath),
                                          Entry(flagsSet, flagsReset, TrimTarget(targetPath))))
    {
      if !IsAbsolute(virtualPath) || (targetPath.Some? && !IsAbsolute(targetPath.value)) {
        return false;
      }
      ghost var cs := if Valid() && IsCanonical(virtualPath) then Some(Components(virtualPath)) else None;
      ok := AddIfNew(virtualPath, targetPath, flagsSet, flagsReset, cs);
    }

    /** Registers an absolute path unless it is found. */
    method AddIfNew(path: CString, targetPath: Option<CString>, flagsSet: Flags, flagsReset: Flags,
                    ghost cs: Option<seq<string>>)
      returns (ok: bool)
      requires IsAbsolute(path) && !("///" <= path)
      requires cs.Some? ==> Sound(inodes, view) && IsCanonical(path) && cs.value == Components(path)
      modifies this`inodes, this`view, Lists(inodes)
      ensures ok <==> !HasRow(old(Rows(inodes)), path)
      ensures ok ==> Rows(inodes) == RegisterAll(old(Rows(inodes)), Visits(path),
                                                 Entry(flagsSet, flagsReset, TrimTarget(targetPath)))
      ensures !ok ==> unchanged(this) && forall l | l in Lists(inodes) :: unchanged(l)
      ensures old(inodes) <= inodes && forall n | n in inodes :: n in old(inodes) || fresh(n.virtualSubdirs)
      ensures cs.Some? ==> Sound(inodes, view) && (ok <==> cs.value !in old(view))
      ensures cs.Some? && ok ==>
                view == Extend(old(view), cs.value, Entry(flagsSet, flagsReset, TrimTarget(targetPath)))
    {
      if cs.Some? {
        CanonicalFits(inodes, view, path);
      }
      FindFirstRow(inodes, path);
      var existing := FindInode(path);
      if existing != null {
        return false;
      }
      AddPrefixes(path, targetPath, flagsSet, flagsReset, cs);
      return true;
    }

    /** `vfs_freeze_inodes`: sorts the array by virtual path, again on every call. */
    method FreezeInodes()
      modifies this`inodes, this`frozen
      ensures frozen && (old(Valid()) ==> Valid())
      ensures multiset(inodes) == multiset(old(inodes)) && AscendingBy(inodes, VirtualPathOf)
      ensures forall n :: n in inodes <==> n in old(inodes)
    {
      FrozenOrder(inodes, view);
      if |inodes| > 0 {
        inodes := SortBy(inodes, VirtualPathOf);
      }
      frozen := true;
    }

    /** `vfs_lookup`: refused before freezing and for relative paths. */
    method Lookup(path: CString) returns (ok: bool, result: LookupResult)
      ensures ok <==> frozen && IsAbsolute(path)
      ensures ok ==> result == LookupFold(inodes, baseFlags, Visits(path))
    {
      result := LookupResult(baseFlags, null, null);
      if !frozen || !IsAbsolute(path) {
        return false, result;
      }
      var visits := CollectVisits(path);
      for k := 0 to |visits|
        invariant result == LookupFold(inodes, baseFlags, visits[..k])
      {
        assert visits[..k + 1][..k] == visits[..k];
        result := LookupSplitter(visits[k], result);
      }
      assert visits[..|visits|] == visits;
      return true, result;
    }

    /** `vfs_lookup_splitter` */
    method LookupSplitter(visit: Visit, before: LookupResult) returns (result: LookupResult)
      ensures result == LookupStep(inodes, visit, before)
    {
      result := before;
      var inode := FindInode(visit.prefix);
      if inode != null {
        result := result.(flags := Apply(result.flags, inode.flagsSet, inode.flagsReset));
        if visit.isFull {
          result := result.(inode := inode);
        }
        if inode.targetPath.Some? {
          result := result.(mountpoint := inode);
        }
      }
    }
  }

  /** Searching for a visited directory finds its inode if it has one. */
  lemma FindVisited(inodes: seq<Inode>, view: View, cs: seq<string>, k: nat)
    requires TreeOk(inodes, view) && AllStored(inodes) && AllComponents(cs) && k <= |cs|
    ensures Denotes(CanonicalVisit(cs, k).prefix, cs[..k])
    ensures var found := FindFirst(inodes, CanonicalVisit(cs, k).prefix);
            if cs[..k] in view then found != null && found in inodes && found.dir == cs[..k] else found == null
  {
    CanonicalForms(cs[..k]);
    FindFirstExact(inodes, view, CanonicalVisit(cs, k).prefix, cs[..k]);
  }

  /** The tree of `inodes` stands for `view`, child lists included. */
  ghost predicate Sound(inodes: seq<Inode>, view: View)
    reads Lists(inodes)
  {
    TreeOk(inodes, view) && AllStored(inodes) && SubdirsOk(inodes, view)
  }

  /** Sorting keeps the inodes, and with them what they stand for. */
  lemma FrozenOrder(inodes: seq<Inode>, view: View)
    ensures var sorted := SortBy(inodes, VirtualPathOf);
            && multiset(sorted) == multiset(inodes) && AscendingBy(sorted, VirtualPathOf)
            && (forall n :: n in sorted <==> n in inodes)
            && (Sound(inodes, view) ==> Sound(sorted, view))
  {
    var sorted := SortBy(inodes, VirtualPathOf);
    SortByCorrect(inodes, VirtualPathOf);
    SameElements(inodes, sorted);
    if Sound(inodes, view) {
      TreeOkReordered(inodes, sorted, view);
    }
  }

  /** A canonical path, new to the view, whose parent directory is `parent`. */
  ghost predicate FitsBelow(inodes: seq<Inode>, view: View, virtualPath: CString, parent: Inode?, cs: seq<string>)
    reads Lists(inodes)
  {
    && Sound(inodes, view) && Denotes(virtualPath, cs) && cs !in view
    && if cs == [] then parent == null else parent != null && parent in inodes && parent.dir == Parent(cs)
  }

  /** Visit number `k` of a canonical path, made after its predecessor. */
  ghost predicate FitsVisit(inodes: seq<Inode>, view: View, visit: Visit, previous: Inode?, cs: seq<string>, k: nat)
    reads Lists(inodes)
  {
    && Sound(inodes, view) && AllComponents(cs) && k <= |cs| && visit == CanonicalVisit(cs, k)
    && if k == 0 then previous == null else previous != null && previous in inodes && previous.dir == cs[..k - 1]
  }

  /** All visits of a canonical path. */
  ghost predicate VisitsOf(visits: seq<Visit>, cs: seq<string>) {
    && AllComponents(cs) && |visits| == |cs| + 1
    && forall k | 0 <= k <= |cs| :: visits[k] == CanonicalVisit(cs, k)
  }

  /** After `k` visits of a canonical path, starting from the view `start`. */
  ghost predicate Follows(inodes: seq<Inode>, view: View, previous: Inode?, start: View, cs: seq<string>, leaf: Entry,
                          k: nat)
    reads Lists(inodes)
  {
    && Sound(inodes, view) && k <= |cs| + 1 && view == ExtendUpTo(start, cs, leaf, k)
    && if k == 0 then previous == null else previous != null && previous in inodes && previous.dir == cs[..k - 1]
  }

  lemma CanonicalFits(inodes: seq<Inode>, view: View, path: CString)
    requires Sound(inodes, view) && IsCanonical(path) && path != ""
    ensures VisitsOf(Visits(path), Components(path))
    ensures FindFirst(inodes, path) == null <==> Components(path) !in view
  {
    FindFirstExact(inodes, view, path, Components(path));
    VisitsOfCanonical(path, Components(path));
  }

  /** A visit that creates an inode below another one. */
  ghost predicate EntersName(inodes: seq<Inode>, visit: Visit, previous: Inode?) {
    previous != null && FindFirst(inodes, visit.prefix) == null
  }

  /** A visit has found an inode, or has appended one. */
  ghost predicate Registered(before: seq<Inode>, after: seq<Inode>, next: Inode, visit: Visit, leaf: Entry) {
    if FindFirst(before, visit.prefix) != null then after == before && next == FindFirst(before, visit.prefix)
    else
      && after == before + [next]
      && next.virtualPath == TrimSlashes(visit.prefix) && EntryOf(next) == EntryAt(visit, leaf)
  }

  lemma RegisteredRows(before: seq<Inode>, after: seq<Inode>, next: Inode, visit: Visit, leaf: Entry)
    requires Registered(before, after, next, visit, leaf)
    ensures Rows(after) == Register(Rows(before), visit, leaf) && next in after
  {
    FindFirstRow(before, visit.prefix);
  }

  /** A prefix that is found already, or has a base name. */
  predicate MayRegister(rows: seq<Row>, prefix: string) {
    HasRow(rows, prefix) || '/' in TrimSlashes(prefix)
  }

  lemma RegisterKeepsRoot(rows: seq<Row>, visit: Visit, leaf: Entry)
    requires HasRow(rows, "/") || visit.prefix == "/"
    ensures HasRow(Register(rows, visit, leaf), "/")
  {
    var after := Register(rows, visit, leaf);
    if HasRow(rows, "/") {
      var k :| 0 <= k < |rows| && DropSlash(rows[k].path) == DropSlash("/");
      assert after[k] == rows[k];
    } else {
      assert DropSlash(after[|rows|].path) == DropSlash("/") == "";
    }
  }

  lemma {:induction false} RootRegistered(rows: seq<Row>, visits: seq<Visit>, leaf: Entry, k: nat)
    requires k < |visits| && visits[0].prefix == "/"
    requires forall j | 0 < j < |visits| :: HasName(visits[j].prefix)
    ensures RegisterAll(rows, visits[..k + 1], leaf) == Register(RegisterAll(rows, visits[..k], leaf), visits[k], leaf)
    ensures k > 0 ==> MayRegister(RegisterAll(rows, visits[..k], leaf), visits[k].prefix)
    ensures HasRow(RegisterAll(rows, visits[..k + 1], leaf), "/")
  {
    assert visits[..k + 1] == visits[..k] + [visits[k]];
    RegisterLast(rows, visits[..k], visits[k], leaf);
    if k > 0 {
      RootRegistered(rows, visits, leaf, k - 1);
    }
    RegisterKeepsRoot(RegisterAll(rows, visits[..k], leaf), visits[k], leaf);
  }

  lemma VisitMayRegister(rows: seq<Row>, before: seq<Inode>, visits: seq<Visit>, leaf: Entry, k: nat)
    requires k < |visits| && visits[0].prefix == "/"
    requires forall j | 0 < j < |visits| :: HasName(visits[j].prefix)
    requires Rows(before) == RegisterAll(rows, visits[..k], leaf)
    ensures k > 0 && FindFirst(before, visits[k].prefix) == null ==> '/' in TrimSlashes(visits[k].prefix)
  {
    FindFirstRow(before, visits[k].prefix);
    RootRegistered(rows, visits, leaf, k);
  }

  lemma VisitRegisters(rows: seq<Row>, before: seq<Inode>, after: seq<Inode>, next: Inode, visits: seq<Visit>,
                       leaf: Entry, k: nat)
    requires k < |visits| && Rows(before) == RegisterAll(rows, visits[..k], leaf)
    requires Registered(before, after, next, visits[k], leaf)
    ensures Rows(after) == RegisterAll(rows, visits[..k + 1], leaf) && next in after
  {
    RegisteredRows(before, after, next, visits[k], leaf);
    assert visits[..k + 1] == visits[..k] + [visits[k]];
    RegisterLast(rows, visits[..k], visits[k], leaf);
  }

  predicate HasName(prefix: string) {
    prefix == "/" || '/' in TrimSlashes(prefix)
  }

  lemma PrefixHasName(path: CString, i: nat)
    requires IsAbsolute(path) && !("///" <= path) && 0 < i < |path| && (path[i] == '/' || i == |path| - 1)
    ensures HasName(PrefixAt(path, i))
  {
    var prefix := PrefixAt(path, i);
    assert path[0] == '/';
    if i > 1 || path[i] != '/' {
      if path[1] == '/' {
        assert path[2] != '/' by {
          assert path[..3] == [path[0], path[1], path[2]];
        }
      }
      var k := if path[1] == '/' then 2 else 1;
      assert k < |prefix| && prefix[k] != '/';
      assert TrimSlashes(prefix)[0] == '/';
    }
  }

  lemma {:induction false} PrefixesHaveNames(path: CString, i: nat)
    requires IsAbsolute(path) && !("///" <= path) && 0 < i <= |path|
    ensures forall v | v in VisitsFrom(path, i) :: HasName(v.prefix)
    decreases |path| - i
  {
    if i < |path| {
      PrefixesHaveNames(path, i + 1);
      if path[i] == '/' || i == |path| - 1 {
        PrefixHasName(path, i);
      }
    }
  }

  /** Every visit of an absolute path but the first has a base name after trimming, or is the root's. */
  lemma VisitsHaveNames(path: CString)
    requires IsAbsolute(path) && !("///" <= path)
    ensures Visits(path) != [] && Visits(path)[0].prefix == "/"
    ensures forall k | 0 < k < |Visits(path)| :: HasName(Visits(path)[k].prefix)
  {
    PrefixesHaveNames(path, 1);
    var rest := VisitsFrom(path, 1);
    assert Visits(path) == [Visit("/", |path| == 1)] + rest;
    assert forall k | 0 < k < |Visits(path)| :: Visits(path)[k] == rest[k - 1];
  }

  lemma AbsoluteCanonicalStart(path: CString)
    requires IsAbsolute(path) ==> IsCanonical(path)
    ensures !("///" <= path)
  {
    var cs := Components(path);
    if IsAbsolute(path) && cs != [] {
      PositionInPath(path, cs, 0);
      assert cs[..0] == [];
      assert path[1] != '/';
    }
  }

  /** Creates the inode of a path and links it in, ready to be appended to the array. */
  method CreateInode(inodes: seq<Inode>, ghost view: View, virtualPath: CString, targetPath: Option<CString>,
                     flagsSet: Flags, flagsReset: Flags, parent: Inode?, ghost cs: Option<seq<string>>)
    returns (inode: Inode)
    requires parent != null ==> parent in inodes && '/' in TrimSlashes(virtualPath)
    requires cs.Some? ==> FitsBelow(inodes, view, virtualPath, parent, cs.value)
    modifies if parent == null then {} else {parent.virtualSubdirs}
    ensures fresh(inode.virtualSubdirs) && inode.virtualPath == TrimSlashes(virtualPath)
    ensures parent != null ==>
              parent.virtualSubdirs.State() == old(parent.virtualSubdirs.State()).Insert(BaseName(inode.virtualPath))
    ensures EntryOf(inode) == Entry(flagsSet, flagsReset, TrimTarget(targetPath))
    ensures cs.Some? ==> inode.dir == cs.value && Sound(inodes + [inode], view[cs.value := EntryOf(inode)])
  {
    inode := MakeInode(virtualPath, targetPath, flagsSet, flagsReset, parent);
    if cs.Some? {
      TrimOfDenoted(virtualPath, cs.value);
      ComponentsOfRender(cs.value);
      TreeOkExtended(inodes, view, inode);
      ViewClosed(inodes, view);
      NewListEmpty(view, cs.value, EntryOf(inode));
    }
    EnterName(inodes, view, inode, parent, cs);
  }

  /** The new directory's name, its parent and its empty list fit into the tree. */
  ghost predicate FitsName(inodes: seq<Inode>, view: View, inode: Inode, parent: Inode?, cs: seq<string>)
    reads Lists(inodes), inode.virtualSubdirs
  {
    && Distinct(inodes) && SubdirsOk(inodes, view)
    && AllComponents(cs) && cs !in view && inode.virtualPath == Render(cs) && inode.dir == cs
    && inode.virtualSubdirs !in Lists(inodes)
    && ListsChildren(inode.virtualSubdirs.State(), view[cs := EntryOf(inode)], cs)
    && if cs == [] then parent == null else parent != null && parent in inodes && parent.dir == Parent(cs)
  }

  /** Enters the name of the new inode into its parent's child list; all lists then fit the new view. */
  method EnterName(inodes: seq<Inode>, ghost view: View, inode: Inode, parent: Inode?, ghost cs: Option<seq<string>>)
    requires parent != null ==> '/' in inode.virtualPath && parent.virtualSubdirs != inode.virtualSubdirs
    requires cs.Some? ==> FitsName(inodes, view, inode, parent, cs.value)
    modifies if parent == null then {} else {parent.virtualSubdirs}
    ensures parent != null ==>
              parent.virtualSubdirs.State() == old(parent.virtualSubdirs.State()).Insert(BaseName(inode.virtualPath))
    ensures cs.Some? ==> SubdirsOk(inodes + [inode], view[cs.value := EntryOf(inode)])
  {
    ghost var before := map n | n in inodes :: n.virtualSubdirs.State();
    if parent != null {
      parent.virtualSubdirs.Insert(BaseName(inode.virtualPath));
    }
    if cs.Some? {
      ListsAfterAdd(inodes, before, view, inode, parent, cs.value);
    }
  }

  /** If only the parent's list has changed, by the new name, then all lists fit the new view. */
  lemma ListsAfterAdd(inodes: seq<Inode>, before: map<Inode, ListState>, view: View, inode: Inode, parent: Inode?,
                      cs: seq<string>)
    requires Distinct(inodes) && AllComponents(cs) && cs !in view && inode.virtualPath == Render(cs)
    requires if cs == [] then parent == null
             else parent != null && parent in inodes && parent.dir == Parent(cs) && '/' in inode.virtualPath
    requires forall n | n in inodes :: n in before && ListsChildren(before[n], view, n.dir)
    requires forall n | n in inodes ::
               n.virtualSubdirs.State()
               == if n == parent then before[n].Insert(BaseName(inode.virtualPath)) else before[n]
    requires inode.dir == cs && ListsChildren(inode.virtualSubdirs.State(), view[cs := EntryOf(inode)], cs)
    ensures SubdirsOk(inodes + [inode], view[cs := EntryOf(inode)])
  {
    if cs != [] {
      BaseNameOfRender(cs);
    }
    forall n | n in inodes ensures ListsChildren(n.virtualSubdirs.State(), view[cs := EntryOf(inode)], n.dir) {
      ListAfterAdd(before[n], n.virtualSubdirs.State(), view, n.dir, cs, EntryOf(inode));
    }
  }

  function VirtualPathOf(inode: Inode): string {
    inode.virtualPath
  }

  /** The new inode itself: both paths copied and trimmed, no children yet. */
  method MakeInode(virtualPath: CString, targetPath: Option<CString>, flagsSet: Flags, flagsReset: Flags,
                   parent: Inode?)
    returns (inode: Inode)
    ensures fresh(inode) && fresh(inode.virtualSubdirs)
    ensures inode.virtualPath == TrimSlashes(virtualPath) && inode.dir == Components(inode.virtualPath)
    ensures inode.vlen == |inode.virtualPath| && inode.parent == parent
    ensures inode.tlen == if inode.targetPath.Some? then |inode.targetPath.value| else 0
    ensures EntryOf(inode) == Entry(flagsSet, flagsReset, TrimTarget(targetPath))
    ensures inode.virtualSubdirs.State() == ListState([], true)
    ensures inode.flagsSet == flagsSet && inode.flagsReset == flagsReset
    ensures inode.targetPath.Some? <==> targetPath.Some?
    ensures targetPath.Some? ==>
              var s, t := inode.targetPath.value, targetPath.value;
              s <= t && (s == "" || s[|s| - 1] != '/') && forall k | |s| <= k < |t| :: t[k] == '/'
  {
    var vpathCopy := TruncatedCopy(virtualPath);
    var tpathCopy: Option<CString> := None;
    if targetPath.Some? {
      var t := TruncatedCopy(targetPath.value);
      tpathCopy := Some(t);
    }
    inode := new Inode(parent, flagsSet, flagsReset, vpathCopy, tpathCopy);
  }

  //
  // The tree in terms of its strings
  //

  /** `parent` is the inode one component up; only the root, stored as "", has none. */
  lemma ParentPointers(vfs: Vfs, n: Inode)
    requires vfs.Valid() && n in vfs.inodes
    ensures n.parent == null <==> n.virtualPath == ""
    ensures n.parent != null ==>
              && n.parent in vfs.inodes && '/' in n.virtualPath
              && n.virtualPath == n.parent.virtualPath + "/" + BaseName(n.virtualPath)
  {
    assert ParentOk(vfs.inodes, n) && InodeOk(n);
    if n.dir != [] {
      assert InodeOk(n.parent);
      BaseNameOfRender(n.dir);
    }
  }

  /** `virtual_subdirs` holds exactly the base names of the children, each once. */
  lemma ChildLists(vfs: Vfs, n: Inode, name: CString)
    requires vfs.Valid() && n in vfs.inodes
    ensures NoDuplicates(n.virtualSubdirs.strings)
    ensures name in n.virtualSubdirs.strings <==>
            exists c | c in vfs.inodes :: c.parent == n && c.virtualPath == n.virtualPath + "/" + name
  {
    var child := n.dir + [name];
    assert ListsChildren(n.virtualSubdirs.State(), vfs.view, n.dir) && InodeOk(n);
    assert child[..|n.dir|] == n.dir;
    if name in n.virtualSubdirs.strings {
      assert HasPath(vfs.inodes, child);
      var c :| c in vfs.inodes && c.dir == child;
      assert ParentOk(vfs.inodes, c) && InodeOk(c);
    }
    if c :| c in vfs.inodes && c.parent == n && c.virtualPath == n.virtualPath + "/" + name {
      assert ParentOk(vfs.inodes, c) && InodeOk(c);
      var last := c.dir[|c.dir| - 1];
      assert c.virtualPath[|n.virtualPath| + 1..] == last == name;
      assert c.dir == child;
    }
  }

  lemma VirtualPathsInjective(inodes: seq<Inode>)
    requires Distinct(inodes) && AllStored(inodes)
    ensures InjectiveOn(inodes, VirtualPathOf)
  {
    forall i, j | 0 <= i < |inodes| && 0 <= j < |inodes| && VirtualPathOf(inodes[i]) == VirtualPathOf(inodes[j])
      ensures inodes[i] == inodes[j]
    {
      var m, n := inodes[i], inodes[j];
      assert m in inodes && n in inodes && InodeOk(m) && InodeOk(n);
      RenderInjective(m.dir, n.dir);
    }
  }

  /** Virtual paths being distinct, whatever sorting algorithm freezing uses leaves the same array. */
  lemma FrozenOrderForced(inodes: seq<Inode>, view: View, result: seq<Inode>)
    requires TreeOk(inodes, view) && AllStored(inodes)
    requires multiset(result) == multiset(inodes) && AscendingBy(result, VirtualPathOf)
    ensures result == SortBy(inodes, VirtualPathOf)
  {
    SortByCorrect(inodes, VirtualPathOf);
    VirtualPathsInjective(inodes);
    InjectiveReordered(inodes, SortBy(inodes, VirtualPathOf), VirtualPathOf);
    OrderIsUnique(SortBy(inodes, VirtualPathOf), result, VirtualPathOf);
  }

  //
  // Whole runs
  //

  /** A step in setting up a virtual file system. */
  datatype Setup =
    | Add(virtualPath: CString, targetPath: Option<CString>, flagsSet: Flags, flagsReset: Flags)
    | Freeze

  predicate WellFormed(step: Setup) {
    step.Add? ==> IsAbsolute(step.virtualPath) ==> IsCanonical(step.virtualPath)
  }

  /** An addition with absolute paths. */
  predicate Attempted(step: Setup) {
    step.Add? && IsAbsolute(step.virtualPath) && (step.targetPath.Some? ==> IsAbsolute(step.targetPath.value))
  }

  function RegistrationOf(step: Setup): Registration
    requires step.Add?
  {
    Registration(Components(step.virtualPath), Entry(step.flagsSet, step.flagsReset, TrimTarget(step.targetPath)))
  }

  /** The registrations that a run of setup steps attempts: its additions with absolute paths. */
  function Attempts(steps: seq<Setup>): seq<Registration> {
    if steps == [] then []
    else
      var before, step := Attempts(steps[..|steps| - 1]), steps[|steps| - 1];
      if Attempted(step) then before + [RegistrationOf(step)] else before
  }

  lemma {:induction false} AttemptsFrom(steps: seq<Setup>, k: nat) returns (j: nat)
    requires k < |Attempts(steps)|
    ensures j < |steps| && Attempted(steps[j]) && Attempts(steps)[k] == RegistrationOf(steps[j])
  {
    var init := steps[..|steps| - 1];
    if k < |Attempts(init)| {
      j := AttemptsFrom(init, k);
    } else {
      j := |steps| - 1;
    }
  }

  /** Dropping trailing slashes drops no component. */
  lemma {:induction false} ComponentsOfTrimmed(s: string)
    ensures Components(TrimSlashes(s)) == Components(s)
  {
    if s != "" && s[|s| - 1] == '/' {
      var init := s[..|s| - 1];
      ComponentsOfTrimmed(init);
      ComponentsJoin(init, "");
      assert init + "/" + "" == s;
      Neutral(Components(init));
    }
  }

  /** Every mount comes from an addition of that very directory, with that target. */
  lemma MountHasStep(steps: seq<Setup>, dir: seq<string>) returns (j: nat)
    requires dir in ViewAfter(Attempts(steps)) && ViewAfter(Attempts(steps))[dir].target.Some?
    ensures j < |steps| && steps[j].Add? && steps[j].targetPath.Some? && Components(steps[j].virtualPath) == dir
    ensures Components(ViewAfter(Attempts(steps))[dir].target.value) == Components(steps[j].targetPath.value)
  {
    var regs := Attempts(steps);
    FirstTouchDecides(regs, dir);
    var k: nat :| FirstTouch(regs, dir, k) &&
      ViewAfter(regs)[dir] == if regs[k].path == dir then regs[k].entry else BLANK;
    j := AttemptsFrom(steps, k);
    ComponentsOfTrimmed(steps[j].targetPath.value);
  }

  /** What a step does to the registered directories. */
  function StepView(view: View, step: Setup): View {
    if Attempted(step) && Components(step.virtualPath) !in view
    then Extend(view, Components(step.virtualPath), RegistrationOf(step).entry)
    else view
  }

  lemma AttemptsStep(steps: seq<Setup>)
    requires steps != []
    ensures ViewAfter(Attempts(steps)) == StepView(ViewAfter(Attempts(steps[..|steps| - 1])), steps[|steps| - 1])
  {
    var before, after := Attempts(steps[..|steps| - 1]), Attempts(steps);
    assert after != before ==> after[..|after| - 1] == before;
  }

  lemma AttemptsSoFar(steps: seq<Setup>, k: nat)
    requires k < |steps|
    ensures ViewAfter(Attempts(steps[..k + 1])) == StepView(ViewAfter(Attempts(steps[..k])), steps[k])
    ensures Freeze in steps[..k + 1] <==> Freeze in steps[..k] || steps[k].Freeze?
  {
    AttemptsStep(steps[..k + 1]);
    assert steps[..k + 1][..k] == steps[..k] && steps[..k + 1] == steps[..k] + [steps[k]];
  }

  method TakeStep(vfs: Vfs, step: Setup)
    requires vfs.Valid() && WellFormed(step)
    modifies vfs`inodes, vfs`view, vfs`frozen, Lists(vfs.inodes)
    ensures vfs.Valid() && vfs.view == StepView(old(vfs.view), step)
    ensures forall n | n in vfs.inodes :: n in old(vfs.inodes) || fresh(n.virtualSubdirs)
    ensures vfs.frozen == (old(vfs.frozen) || step.Freeze?)
  {
    match step
    case Add(virtualPath, targetPath, flagsSet, flagsReset) =>
      AbsoluteCanonicalStart(virtualPath);
      var ok := vfs.AddInode(virtualPath, targetPath, flagsSet, flagsReset);
    case Freeze =>
      vfs.FreezeInodes();
  }

  /**
   Any run of additions of canonical paths, with freezes anywhere in between, keeps the
   tree invariant, and the inodes stand for exactly what the run registered.
   */
  method Configure(steps: seq<Setup>) returns (vfs: Vfs)
    requires forall k | 0 <= k < |steps| :: WellFormed(steps[k])
    ensures fresh(vfs) && vfs.Valid() && forall n | n in vfs.inodes :: fresh(n.virtualSubdirs)
    ensures vfs.view == ViewAfter(Attempts(steps))
    ensures vfs.frozen <==> Freeze in steps
  {
    vfs := new Vfs();
    for k := 0 to |steps|
      invariant fresh(vfs) && vfs.Valid() && forall n | n in vfs.inodes :: fresh(n.virtualSubdirs)
      invariant vfs.view == ViewAfter(Attempts(steps[..k]))
      invariant vfs.frozen <==> Freeze in steps[..k]
    {
      AttemptsSoFar(steps, k);
      TakeStep(vfs, steps[k]);
    }
    assert steps[..|steps|] == steps;
  }
}
