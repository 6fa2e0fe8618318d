/** The inode tree of the virtual file system and the map it stands for (vfs.c). */
module VfsTree {
  import opened Folds
  import opened Options
  import opened CStrings
  import opened Paths
  import opened PathChecks
  import opened PathSplitting
  import opened StringLists

  type Flags = bv32

  const READ_ONLY: Flags := 1
  const FILTER_ALL: Flags := 2
  const FILTER_HIDDEN: Flags := 4
  const ALLOW_SYMLINKS: Flags := 64

  /** `struct vfs_inode_t`; only the contents of the child list change after creation. */
  class Inode {
    const parent: Inode?
    const flagsSet: Flags
    const flagsReset: Flags
    const virtualPath: CString
    const targetPath: Option<CString>
    const vlen: nat
    const tlen: nat
    const virtualSubdirs: StringList
    /** The components of `virtualPath`. */
    ghost const dir: seq<string>

    constructor (parent: Inode?, flagsSet: Flags, flagsReset: Flags, virtualPath: CString, targetPath: Option<CString>)
      ensures this.parent == parent && this.flagsSet == flagsSet && this.flagsReset == flagsReset
      ensures this.virtualPath == virtualPath && this.targetPath == targetPath
      ensures vlen == |virtualPath| && tlen == if targetPath.Some? then |targetPath.value| else 0
      ensures dir == Components(virtualPath)
      ensures fresh(virtualSubdirs) && virtualSubdirs.State() == ListState([], true)
    {
      this.parent, this.flagsSet, this.flagsReset := parent, flagsSet, flagsReset;
      this.virtualPath, this.targetPath := virtualPath, targetPath;
      vlen := |virtualPath|;
      tlen := if targetPath.Some? then |targetPath.value| else 0;
      virtualSubdirs := new StringList();
      dir := Components(virtualPath);
    }
  }

  //
  // The abstract view
  //

  /** What is registered at one directory. */
  datatype Entry = Entry(flagsSet: Flags, flagsReset: Flags, target: Option<CString>)

  /** An intermediate directory that nobody registered explicitly. */
  const BLANK := Entry(0, 0, None)

  /** The registered directories, by their components. */
  type View = map<seq<string>, Entry>

  function EntryOf(inode: Inode): Entry {
    Entry(inode.flagsSet, inode.flagsReset, inode.targetPath)
  }

  function Parent(cs: seq<string>): seq<string>
    requires cs != []
  {
    cs[..|cs| - 1]
  }

  ghost predicate InodeOk(inode: Inode) {
    && AllComponents(inode.dir) && inode.virtualPath == Render(inode.dir)
    && inode.vlen == |inode.virtualPath|
    && inode.tlen == (if inode.targetPath.Some? then |inode.targetPath.value| else 0)
  }

  ghost predicate HasPath(inodes: seq<Inode>, cs: seq<string>) {
    exists n | n in inodes :: n.dir == cs
  }

  ghost predicate ParentOk(inodes: seq<Inode>, n: Inode) {
    if n.dir == [] then n.parent == null
    else n.parent != null && n.parent in inodes && n.parent.dir == Parent(n.dir)
  }

  /** Every inode carries the entry of its directory, and every directory has an inode. */
  ghost predicate Represents(inodes: seq<Inode>, view: View) {
    && (forall n | n in inodes :: n.dir in view && view[n.dir] == EntryOf(n))
    && (forall cs {:trigger HasPath(inodes, cs)} | cs in view :: HasPath(inodes, cs))
  }

  /** No two entries of the array share a directory, a child list or the inode itself. */
  ghost predicate Distinct(inodes: seq<Inode>) {
    && (forall m, n | m in inodes && n in inodes && m.dir == n.dir :: m == n)
    && (forall m, n | m in inodes && n in inodes && m.virtualSubdirs == n.virtualSubdirs :: m == n)
    && (forall n | n in inodes :: multiset(inodes)[n] == 1)
  }

  /** Every inode stores its directory's canonical path, and the lengths match. */
  ghost predicate AllStored(inodes: seq<Inode>) {
    forall n | n in inodes :: InodeOk(n)
  }

  /** The inode array represents `view`: one inode for each directory, linked to its parent directory. */
  ghost predicate TreeOk(inodes: seq<Inode>, view: View) {
    && Represents(inodes, view) && Distinct(inodes)
    && forall n {:trigger ParentOk(inodes, n)} | n in inodes :: ParentOk(inodes, n)
  }

  ghost function Lists(inodes: seq<Inode>): set<StringList> {
    set n | n in inodes :: n.virtualSubdirs
  }

  predicate NoDuplicates<T(==)>(s: seq<T>) {
    forall i, j | 0 <= i < j < |s| :: s[i] != s[j]
  }

  /** The child list of an inode names its child directories, each once. */
  ghost predicate ListsChildren(list: ListState, view: View, cs: seq<string>) {
    && list.Valid()
    && NoDuplicates(list.strings)
    && forall name: CString :: name in list.strings <==> cs + [name] in view
  }

  ghost predicate SubdirsOk(inodes: seq<Inode>, view: View)
    reads Lists(inodes)
  {
    forall n | n in inodes :: ListsChildren(n.virtualSubdirs.State(), view, n.dir)
  }

  //
  // Consequences of the invariant
  //

  /** Every directory but the root lies in a registered directory. */
  ghost predicate Closed(view: View) {
    forall cs {:trigger Parent(cs)} | cs in view && cs != [] :: Parent(cs) in view
  }

  lemma ViewClosed(inodes: seq<Inode>, view: View)
    requires TreeOk(inodes, view)
    ensures Closed(view)
  {
    forall cs | cs in view && cs != [] ensures Parent(cs) in view {
      assert HasPath(inodes, cs);
      var n :| n in inodes && n.dir == cs;
      assert ParentOk(inodes, n);
    }
  }

  /** Hence every ancestor of a registered directory is registered. */
  lemma {:induction false} AncestorsInView(view: View, cs: seq<string>, k: nat)
    requires Closed(view) && cs in view && k <= |cs|
    ensures cs[..k] in view
    decreases |cs| - k
  {
    if k == |cs| {
      assert cs[..k] == cs;
    } else {
      AncestorsInView(view, cs, k + 1);
      assert Parent(cs[..k + 1]) == cs[..k];
    }
  }

  /** The array holds no two inodes for one virtual path. */
  lemma VirtualPathsDistinct(inodes: seq<Inode>, view: View, i: nat, j: nat)
    requires TreeOk(inodes, view) && AllStored(inodes) && i < j < |inodes|
    ensures inodes[i].virtualPath != inodes[j].virtualPath
  {
    var m, n := inodes[i], inodes[j];
    OccursOnce(inodes, i, j);
    assert m in inodes && n in inodes && InodeOk(m) && InodeOk(n);
    if m.virtualPath == n.virtualPath {
      RenderInjective(m.dir, n.dir);
    }
  }

  lemma OccursOnce<T>(s: seq<T>, i: nat, j: nat)
    requires i < j < |s| && multiset(s)[s[j]] == 1
    ensures s[i] != s[j]
  {
    assert s == s[..j] + [s[j]] + s[j + 1..];
    assert multiset(s) == multiset(s[..j]) + multiset{s[j]} + multiset(s[j + 1..]);
    assert s[..j][i] == s[i];
    assert s[i] in multiset(s[..j]);
  }

  lemma NoDuplicatesReordered<T>(a: seq<T>, b: seq<T>)
    requires NoDuplicates(a) && multiset(a) == multiset(b)
    ensures NoDuplicates(b)
  {
    forall i, j | 0 <= i < j < |b| ensures b[i] != b[j] {
      if b[i] == b[j] {
        OccursTwice(b, i, j);
        OccursAtMostOnce(a, b[i]);
      }
    }
  }

  lemma OccursTwice<T>(s: seq<T>, i: nat, j: nat)
    requires i < j < |s| && s[i] == s[j]
    ensures multiset(s)[s[i]] >= 2
  {
    assert s == s[..j] + s[j..];
    assert s[i] in s[..j] && s[j] in s[j..] by { assert s[..j][i] == s[i] && s[j..][0] == s[j]; }
    assert multiset(s) == multiset(s[..j]) + multiset(s[j..]);
  }

  lemma {:induction false} OccursAtMostOnce<T>(s: seq<T>, x: T)
    requires NoDuplicates(s)
    ensures multiset(s)[x] <= 1
  {
    if s != [] {
      var rest := s[1..];
      OccursAtMostOnce(rest, x);
      assert s == [s[0]] + rest;
      assert s[0] !in rest;
    }
  }

  /** Only the elements of the array matter, not their order. */
  lemma TreeOkReordered(inodes: seq<Inode>, inodes': seq<Inode>, view: View)
    requires TreeOk(inodes, view) && multiset(inodes) == multiset(inodes')
    ensures TreeOk(inodes', view)
    ensures forall n :: n in inodes <==> n in inodes'
  {
    forall n ensures n in inodes <==> n in inodes' {
      assert n in inodes <==> n in multiset(inodes);
      assert n in inodes' <==> n in multiset(inodes');
    }
    forall cs | cs in view ensures HasPath(inodes', cs) {
      assert HasPath(inodes, cs);
    }
    forall n | n in inodes' ensures ParentOk(inodes', n) {
      assert ParentOk(inodes, n);
    }
  }

  lemma RepresentsExtended(inodes: seq<Inode>, view: View, inode: Inode)
    requires Represents(inodes, view) && inode.dir !in view
    ensures Represents(inodes + [inode], view[inode.dir := EntryOf(inode)])
  {
    var inodes', view' := inodes + [inode], view[inode.dir := EntryOf(inode)];
    assert forall n :: n in inodes' <==> n in inodes || n == inode;
    forall cs | cs in view' ensures HasPath(inodes', cs) {
      if cs != inode.dir {
        assert HasPath(inodes, cs);
        var n :| n in inodes && n.dir == cs;
        assert n in inodes';
      }
    }
  }

  lemma DistinctExtended(inodes: seq<Inode>, inode: Inode)
    requires Distinct(inodes) && inode !in inodes
    requires !HasPath(inodes, inode.dir)
    requires inode.virtualSubdirs !in Lists(inodes)
    ensures Distinct(inodes + [inode])
  {
    assert forall n :: n in inodes + [inode] <==> n in inodes || n == inode;
    assert forall n | n in inodes :: n.virtualSubdirs in Lists(inodes);
    assert inode !in multiset(inodes);
  }

  /** A new directory below an existing one (or the root) can be added. */
  lemma TreeOkExtended(inodes: seq<Inode>, view: View, inode: Inode)
    requires TreeOk(inodes, view) && inode !in inodes
    requires inode.dir !in view && ParentOk(inodes, inode)
    requires inode.virtualSubdirs !in Lists(inodes)
    ensures TreeOk(inodes + [inode], view[inode.dir := EntryOf(inode)])
  {
    RepresentsExtended(inodes, view, inode);
    DistinctExtended(inodes, inode);
    forall n | n in inodes + [inode] ensures ParentOk(inodes + [inode], n) {
      assert n != inode ==> ParentOk(inodes, n);
    }
  }

  //
  // Finding inodes
  //

  /** The first inode whose virtual path equals `path` up to one trailing slash. */
  function FindFirst(inodes: seq<Inode>, path: CString): (found: Inode?)
    ensures found == null <==> forall n | n in inodes :: DropSlash(n.virtualPath) != DropSlash(path)
    ensures found != null ==> found in inodes && DropSlash(found.virtualPath) == DropSlash(path)
  {
    if inodes == [] then null
    else if DropSlash(inodes[0].virtualPath) == DropSlash(path) then inodes[0]
    else FindFirst(inodes[1..], path)
  }

  lemma DenotesComponents(path: CString, cs: seq<string>)
    requires Denotes(path, cs)
    ensures Components(path) == cs
  {
    RenderShape(cs);
    ComponentsOfRender(cs);
    if path != Render(cs) {
      assert path == Render(cs) + "/" + "";
      ComponentsJoin(Render(cs), "");
    }
  }

  /** Looking up a canonical path, wherever it lies in the array, finds exactly its directory. */
  lemma FindFirstExact(inodes: seq<Inode>, view: View, path: CString, cs: seq<string>)
    requires TreeOk(inodes, view) && AllStored(inodes) && Denotes(path, cs)
    ensures var found := FindFirst(inodes, path);
            if cs in view then found != null && found in inodes && found.dir == cs else found == null
  {
    forall n | n in inodes ensures DropSlash(n.virtualPath) == DropSlash(path) <==> n.dir == cs {
      CanonicalForms(n.dir);
      if DropSlash(n.virtualPath) == DropSlash(path) {
        RenderInjective(n.dir, cs);
      }
    }
    if cs in view {
      assert HasPath(inodes, cs);
    }
  }

  //
  // Registration of any path, in terms of what inodes store
  //

  /** The stored path and the registration of an inode. */
  datatype Row = Row(path: string, entry: Entry)

  function Rows(inodes: seq<Inode>): (rows: seq<Row>)
    ensures |rows| == |inodes|
    ensures forall k | 0 <= k < |rows| :: rows[k] == Row(inodes[k].virtualPath, EntryOf(inodes[k]))
  {
    seq(|inodes|, k requires 0 <= k < |inodes| => Row(inodes[k].virtualPath, EntryOf(inodes[k])))
  }

  predicate HasRow(rows: seq<Row>, path: string) {
    exists k | 0 <= k < |rows| :: DropSlash(rows[k].path) == DropSlash(path)
  }

  lemma FindFirstRow(inodes: seq<Inode>, path: CString)
    ensures FindFirst(inodes, path) != null <==> HasRow(Rows(inodes), path)
  {
    if FindFirst(inodes, path) != null {
      var k :| 0 <= k < |inodes| && inodes[k] == FindFirst(inodes, path);
      assert Rows(inodes)[k].path == inodes[k].virtualPath;
    }
    if HasRow(Rows(inodes), path) {
      var k :| 0 <= k < |inodes| && DropSlash(Rows(inodes)[k].path) == DropSlash(path);
      assert inodes[k] in inodes;
    }
  }

  /** Only the full visit brings the leaf's entry. */
  function EntryAt(visit: Visit, leaf: Entry): Entry {
    if visit.isFull then leaf else BLANK
  }

  /** A visit registers its prefix unless that is found. */
  function Register(rows: seq<Row>, visit: Visit, leaf: Entry): seq<Row> {
    if HasRow(rows, visit.prefix) then rows else rows + [Row(TrimSlashes(visit.prefix), EntryAt(visit, leaf))]
  }

  function Registering(leaf: Entry): (seq<Row>, Visit) -> seq<Row> {
    (rows, visit) => Register(rows, visit, leaf)
  }

  function RegisterAll(rows: seq<Row>, visits: seq<Visit>, leaf: Entry): seq<Row> {
    Fold(Registering(leaf), rows, visits)
  }

  lemma RegisterLast(rows: seq<Row>, init: seq<Visit>, visit: Visit, leaf: Entry)
    ensures RegisterAll(rows, init + [visit], leaf) == Register(RegisterAll(rows, init, leaf), visit, leaf)
  {
    FoldLast(Registering(leaf), rows, init, visit);
  }
}
