/**
 Registration of a directory whose path ends in any number of slashes: what becomes of
 its flags and target, and how many inodes it gets (vfs.c, strings.c).
 */
module VfsSlashes {
  import opened Sequences
  import opened Folds
  import opened Options
  import opened CStrings
  import opened Paths
  import opened PathChecks
  import opened PathSplitting
  import opened VfsTree
  import opened VfsCore

  function Slashes(k: nat): (s: CString)
    ensures |s| == k && forall i | 0 <= i < k :: s[i] == '/'
  {
    seq(k, _ => '/')
  }

  //
  // The visits
  //

  /** The visits of all directories above `cs`. */
  function Above(cs: seq<string>): seq<Visit>
    requires AllComponents(cs)
  {
    seq(|cs|, k requires 0 <= k < |cs| => CanonicalVisit(cs, k))
  }

  /** The visits behind the first slash that follows `stored`, when there are `k` slashes. */
  function Behind(stored: CString, k: nat): seq<Visit>
    requires k > 0
  {
    seq(k - 1, i requires 0 <= i < k - 1 => Visit(stored + Slashes(i + 1), i + 1 == k - 1))
  }

  /** The visits of the directory itself. */
  function OwnVisits(stored: CString, k: nat): seq<Visit> {
    if k <= 1 then [Visit(stored, true)] else [Visit(stored, false)] + Behind(stored, k)
  }

  lemma SamePrefix(p: CString, q: CString, i: nat)
    requires p <= q && i < |p| && p[i] == '/'
    ensures q[i] == '/' && PrefixAt(p, i) == PrefixAt(q, i)
  {
    assert p[..i] == q[..i];
  }

  /** `ws` is `vs` with its last visit turned from a full one into a partial one, and `tail`. */
  predicate Longer(vs: seq<Visit>, ws: seq<Visit>, prefix: CString, tail: seq<Visit>) {
    vs != [] && vs[|vs| - 1] == Visit(prefix, true) && ws == vs[..|vs| - 1] + [Visit(prefix, false)] + tail
  }

  lemma LongerLast(prefix: CString, tail: seq<Visit>)
    ensures Longer([Visit(prefix, true)], [Visit(prefix, false)] + tail, prefix, tail)
  {
  }

  lemma LongerCons(visit: Visit, vs: seq<Visit>, ws: seq<Visit>, prefix: CString, tail: seq<Visit>)
    requires Longer(vs, ws, prefix, tail)
    ensures Longer([visit] + vs, [visit] + ws, prefix, tail)
  {
    assert ([visit] + vs)[..|vs|] == [visit] + vs[..|vs| - 1];
  }

  lemma VisitAtSlash(s: CString, i: nat)
    requires i < |s| && s[i] == '/'
    ensures VisitsFrom(s, i) == [Visit(PrefixAt(s, i), i == |s| - 1)] + VisitsFrom(s, i + 1)
  {
  }

  /** What follows the slash at the end of `p`. */
  lemma {:induction false} LongerPath(p: CString, q: CString, i: nat)
    requires i < |p| < |q| && p <= q && p[|p| - 1] == '/'
    ensures Longer(VisitsFrom(p, i), VisitsFrom(q, i), PrefixAt(p, |p| - 1), VisitsFrom(q, |p|))
    decreases |p| - i
  {
    var prefix, tail := PrefixAt(p, |p| - 1), VisitsFrom(q, |p|);
    if p[i] == '/' {
      SamePrefix(p, q, i);
      VisitAtSlash(p, i);
      VisitAtSlash(q, i);
    }
    if i == |p| - 1 {
      assert VisitsFrom(p, |p|) == [];
      Neutral([Visit(prefix, true)]);
      LongerLast(prefix, tail);
    } else {
      LongerPath(p, q, i + 1);
      if p[i] == '/' {
        LongerCons(Visit(PrefixAt(p, i), false), VisitsFrom(p, i + 1), VisitsFrom(q, i + 1), prefix, tail);
      }
    }
  }

  lemma {:induction false} VisitsBehind(stored: CString, path: CString, k: nat, j: nat)
    requires 0 < j <= k && stored != "" && path == stored + Slashes(k)
    ensures VisitsFrom(path, |stored| + j) == Behind(stored, k)[j - 1..]
    decreases k - j
  {
    var behind := Behind(stored, k);
    if j == k {
      assert |path| == |stored| + k && |behind| == k - 1;
      DropAll(behind);
    } else {
      VisitsBehind(stored, path, k, j + 1);
      PathBehind(stored, path, k, j);
      VisitAtSlash(path, |stored| + j);
      assert behind[j - 1] == Visit(stored + Slashes(j), j == k - 1);
      DropFirst(behind, j - 1);
    }
  }

  lemma PathBehind(stored: CString, path: CString, k: nat, j: nat)
    requires 0 < j < k && stored != "" && path == stored + Slashes(k)
    ensures |path| == |stored| + k && path[|stored| + j] == '/'
    ensures PrefixAt(path, |stored| + j) == stored + Slashes(j)
  {
    assert path[..|stored| + j] == stored + Slashes(j);
  }

  /** With at most one slash, the directory itself is visited once. */
  lemma VisitsOnce(cs: seq<string>, stored: CString, path: CString)
    requires AllComponents(cs) && cs != [] && stored == Render(cs) && (path == stored || path == stored + "/")
    ensures Visits(path) == Above(cs) + [Visit(stored, true)]
  {
    RenderShape(cs);
    CanonicalForms(cs);
    VisitsOfCanonical(path, cs);
    assert cs[..|cs|] == cs;
    assert CanonicalVisit(cs, |cs|) == Visit(stored, true);
  }

  /** With more slashes, the visits behind come on top, and the first visit is partial. */
  lemma VisitsMore(cs: seq<string>, stored: CString, path: CString, k: nat)
    requires AllComponents(cs) && cs != [] && stored == Render(cs) && stored != ""
    requires k > 1 && path == stored + Slashes(k)
    ensures Visits(path) == Above(cs) + [Visit(stored, false)] + Behind(stored, k)
  {
    var once: CString := stored + "/";
    VisitsOnce(cs, stored, once);
    var vs := VisitsFrom(once, 0);
    assert vs[..|vs| - 1] == Above(cs);
    assert PrefixAt(once, |stored|) == stored;
    assert once <= path;
    LongerPath(once, path, 0);
    VisitsBehind(stored, path, k, 1);
    TakeAll(Behind(stored, k));
  }

  lemma VisitsWithSlashes(cs: seq<string>, stored: CString, path: CString, k: nat)
    requires AllComponents(cs) && cs != [] && stored == Render(cs) && path == stored + Slashes(k)
    ensures Visits(path) == Above(cs) + OwnVisits(stored, k)
  {
    if k <= 1 {
      assert path == if k == 0 then stored else stored + "/";
      VisitsOnce(cs, stored, path);
    } else {
      RenderShape(cs);
      VisitsMore(cs, stored, path, k);
      Assoc(Above(cs), [Visit(stored, false)], Behind(stored, k));
    }
  }

  //
  // What they register
  //

  predicate IsTrimmed(path: string) {
    DropSlash(path) == path
  }

  /** As every registration leaves it: no stored path ends in a slash. */
  predicate AllTrimmed(rows: seq<Row>) {
    forall k | 0 <= k < |rows| :: IsTrimmed(rows[k].path)
  }

  lemma HasRowAppend(rows: seq<Row>, row: Row, path: string)
    ensures HasRow(rows + [row], path) <==> HasRow(rows, path) || DropSlash(row.path) == DropSlash(path)
  {
    var after := rows + [row];
    assert after[|rows|] == row;
    assert forall k | 0 <= k < |rows| :: after[k] == rows[k];
  }

  /** How many rows there are for a path. */
  function CountPath(rows: seq<Row>, path: string): nat {
    if rows == [] then 0
    else CountPath(rows[..|rows| - 1], path) + if rows[|rows| - 1].path == path then 1 else 0
  }

  lemma CountLast(rows: seq<Row>, row: Row, path: string)
    ensures CountPath(rows + [row], path) == CountPath(rows, path) + if row.path == path then 1 else 0
  {
    assert (rows + [row])[..|rows|] == rows;
  }

  /** What the rows say about one path: whether it is found, and how often it is stored. */
  ghost predicate SameFor(rows: seq<Row>, after: seq<Row>, stored: string) {
    (HasRow(after, stored) <==> HasRow(rows, stored)) && CountPath(after, stored) == CountPath(rows, stored)
  }

  /** A visit of another directory makes no difference. */
  lemma RegisterOther(rows: seq<Row>, visit: Visit, leaf: Entry, stored: string)
    requires AllTrimmed(rows) && IsTrimmed(stored) && TrimSlashes(visit.prefix) != stored
    ensures var after := Register(rows, visit, leaf); AllTrimmed(after) && SameFor(rows, after, stored)
  {
    if !HasRow(rows, visit.prefix) {
      var row := Row(TrimSlashes(visit.prefix), EntryAt(visit, leaf));
      HasRowAppend(rows, row, stored);
      CountLast(rows, row, stored);
    }
  }

  lemma AboveIsOther(cs: seq<string>, k: nat)
    requires AllComponents(cs) && k < |cs|
    ensures TrimSlashes(CanonicalVisit(cs, k).prefix) == Render(cs[..k]) != Render(cs)
  {
    CanonicalForms(cs[..k]);
    if Render(cs[..k]) == Render(cs) {
      RenderInjective(cs[..k], cs);
    }
  }

  /** The directories above bring no row for `cs` itself. */
  lemma {:induction false} AboveLeavesOut(rows: seq<Row>, cs: seq<string>, k: nat, leaf: Entry)
    requires AllComponents(cs) && k <= |cs| && AllTrimmed(rows) && IsTrimmed(Render(cs))
    ensures var after := RegisterAll(rows, Above(cs)[..k], leaf);
            AllTrimmed(after) && SameFor(rows, after, Render(cs))
  {
    if k > 0 {
      var last, before := CanonicalVisit(cs, k - 1), RegisterAll(rows, Above(cs)[..k - 1], leaf);
      AboveLeavesOut(rows, cs, k - 1, leaf);
      assert RegisterAll(rows, Above(cs)[..k], leaf) == Register(before, last, leaf) by {
        TakeLast(Above(cs), k);
        RegisterLast(rows, Above(cs)[..k - 1], last, leaf);
      }
      AboveIsOther(cs, k - 1);
      RegisterOther(before, last, leaf, Render(cs));
    }
  }

  /**
   The rows that `k` slashes behind a path register for it: a first one unless it has one,
   and one more for each slash but two; the last visit brings the leaf's entry.
   */
  function OwnRows(present: bool, stored: string, leaf: Entry, k: nat): seq<Row> {
    (if present then [] else [Row(stored, if k <= 1 then leaf else BLANK)])
    + FurtherRows(stored, leaf, k, if k > 1 then k - 2 else 0)
  }

  function FurtherRows(stored: string, leaf: Entry, k: nat, n: nat): seq<Row> {
    if n == 0 then []
    else FurtherRows(stored, leaf, k, n - 1) + [Row(stored, if n == k - 2 then leaf else BLANK)]
  }

  /** A path as it is stored for a directory below the root. */
  predicate IsProper(stored: CString) {
    stored != "" && stored[|stored| - 1] != '/'
  }

  lemma TrimTrailing(stored: CString, j: nat)
    requires IsProper(stored)
    ensures TrimSlashes(stored + Slashes(j)) == stored
    ensures DropSlash(stored + Slashes(j)) == if j == 0 then stored else stored + Slashes(j - 1)
  {
    TrimAt(stored + Slashes(j), |stored|);
    if j > 0 {
      assert (stored + Slashes(j))[..|stored| + j - 1] == stored + Slashes(j - 1);
    } else {
      assert stored + Slashes(0) == stored;
    }
  }

  /** One slash behind is still found, more are not, whatever is stored. */
  lemma FoundBehind(rows: seq<Row>, stored: CString, j: nat)
    requires AllTrimmed(rows) && IsProper(stored) && j > 0
    ensures HasRow(rows, stored + Slashes(j)) <==> j == 1 && HasRow(rows, stored)
  {
    TrimTrailing(stored, j);
    if j == 1 {
      assert stored + Slashes(0) == stored;
    } else {
      var tail := stored + Slashes(j - 1);
      assert tail[|tail| - 1] == '/';
      assert !IsTrimmed(tail);
    }
  }

  /** So every slash beyond the second registers the directory once more. */
  lemma NextBehind(rows: seq<Row>, stored: CString, leaf: Entry, j: nat, isFull: bool)
    requires AllTrimmed(rows) && HasRow(rows, stored) && IsProper(stored) && j > 0
    ensures var after, visit := Register(rows, Visit(stored + Slashes(j), isFull), leaf), Visit(stored, isFull);
            && after == (if j == 1 then rows else rows + [Row(stored, EntryAt(visit, leaf))])
            && AllTrimmed(after) && HasRow(after, stored)
  {
    FoundBehind(rows, stored, j);
    TrimTrailing(stored, j);
    HasRowAppend(rows, Row(stored, EntryAt(Visit(stored, isFull), leaf)), stored);
  }

  lemma {:induction false} BehindRegisters(rows: seq<Row>, stored: CString, leaf: Entry, k: nat, m: nat)
    requires AllTrimmed(rows) && HasRow(rows, stored) && IsProper(stored) && 0 < m < k
    ensures var after := RegisterAll(rows, Behind(stored, k)[..m], leaf);
            && after == rows + FurtherRows(stored, leaf, k, m - 1)
            && AllTrimmed(after) && HasRow(after, stored)
  {
    var visits, last := Behind(stored, k), Visit(stored + Slashes(m), m == k - 1);
    var before := RegisterAll(rows, visits[..m - 1], leaf);
    assert RegisterAll(rows, visits[..m], leaf) == Register(before, last, leaf) by {
      TakeLast(visits, m);
      RegisterLast(rows, visits[..m - 1], last, leaf);
    }
    if m == 1 {
      assert before == rows == rows + FurtherRows(stored, leaf, k, 0);
    } else {
      BehindRegisters(rows, stored, leaf, k, m - 1);
      FurtherLast(rows, stored, leaf, k, m - 1);
    }
    NextBehind(before, stored, leaf, m, last.isFull);
  }

  lemma FurtherLast(rows: seq<Row>, stored: string, leaf: Entry, k: nat, n: nat)
    requires n > 0
    ensures rows + FurtherRows(stored, leaf, k, n - 1) + [Row(stored, if n == k - 2 then leaf else BLANK)]
         == rows + FurtherRows(stored, leaf, k, n)
  {
  }

  /** The first visit of the directory itself. */
  lemma FirstRegisters(rows: seq<Row>, stored: CString, isFull: bool, leaf: Entry)
    requires AllTrimmed(rows) && IsProper(stored)
    ensures var visit := Visit(stored, isFull);
            var after := Register(rows, visit, leaf);
            && after == rows + (if HasRow(rows, stored) then [] else [Row(stored, EntryAt(visit, leaf))])
            && AllTrimmed(after) && HasRow(after, stored)
  {
    TrimTrailing(stored, 0);
    assert stored + Slashes(0) == stored;
    HasRowAppend(rows, Row(stored, EntryAt(Visit(stored, isFull), leaf)), stored);
    assert rows + [] == rows;
  }

  lemma OwnFirst(above: seq<Row>, stored: CString, isFull: bool, leaf: Entry)
    requires AllTrimmed(above) && IsProper(stored)
    ensures var visit := Visit(stored, isFull);
            var after := RegisterAll(above, [visit], leaf);
            && after == above + (if HasRow(above, stored) then [] else [Row(stored, EntryAt(visit, leaf))])
            && AllTrimmed(after) && HasRow(after, stored)
  {
    var visit := Visit(stored, isFull);
    FirstRegisters(above, stored, isFull, leaf);
    RegisterLast(above, [], visit, leaf);
    Neutral([visit]);
  }

  lemma OwnMore(above: seq<Row>, stored: CString, k: nat, leaf: Entry)
    requires AllTrimmed(above) && IsProper(stored) && k > 1
    ensures RegisterAll(above, OwnVisits(stored, k), leaf) == above + OwnRows(HasRow(above, stored), stored, leaf, k)
  {
    var first, behind := [Visit(stored, false)], Behind(stored, k);
    var after := RegisterAll(above, first, leaf);
    FoldAppend(Registering(leaf), above, first, behind);
    OwnFirst(above, stored, false, leaf);
    TakeAll(behind);
    BehindRegisters(after, stored, leaf, k, k - 1);
    Assoc(above, if HasRow(above, stored) then [] else [Row(stored, BLANK)], FurtherRows(stored, leaf, k, k - 2));
  }

  /** From the directories above to the end of the path. */
  lemma OwnRegister(above: seq<Row>, stored: CString, k: nat, leaf: Entry)
    requires AllTrimmed(above) && IsProper(stored)
    ensures RegisterAll(above, OwnVisits(stored, k), leaf) == above + OwnRows(HasRow(above, stored), stored, leaf, k)
  {
    if k > 1 {
      OwnMore(above, stored, k, leaf);
    } else {
      OwnFirst(above, stored, true, leaf);
      Neutral(if HasRow(above, stored) then [] else [Row(stored, leaf)]);
    }
  }

  lemma ProperStored(cs: seq<string>, stored: CString)
    requires AllComponents(cs) && cs != [] && stored == Render(cs)
    ensures IsProper(stored) && IsTrimmed(stored)
  {
    RenderShape(cs);
  }

  /**
   Registering a directory with `k` slashes behind its path: after its missing ancestors
   come the rows for the directory itself.
   */
  lemma RegisteredWithSlashes(rows: seq<Row>, cs: seq<string>, stored: CString, path: CString, k: nat, leaf: Entry)
    requires AllComponents(cs) && cs != [] && stored == Render(cs) && path == stored + Slashes(k)
    requires AllTrimmed(rows)
    ensures var above := RegisterAll(rows, Above(cs), leaf);
            && SameFor(rows, above, stored)
            && RegisterAll(rows, Visits(path), leaf) == above + OwnRows(HasRow(rows, stored), stored, leaf, k)
  {
    ProperStored(cs, stored);
    AboveLeavesOut(rows, cs, |cs|, leaf);
    TakeAll(Above(cs));
    VisitsWithSlashes(cs, stored, path, k);
    FoldAppend(Registering(leaf), rows, Above(cs), OwnVisits(stored, k));
    OwnRegister(RegisterAll(rows, Above(cs), leaf), stored, k, leaf);
  }

  lemma {:induction false} CountAppend(a: seq<Row>, b: seq<Row>, path: string)
    ensures CountPath(a + b, path) == CountPath(a, path) + CountPath(b, path)
  {
    if b == [] {
      Neutral(a);
    } else {
      var init, last := b[..|b| - 1], b[|b| - 1];
      CountAppend(a, init, path);
      CountLast(a + init, last, path);
      TakeLast(b, |b|);
      TakeAll(b);
      Assoc(a, init, [last]);
    }
  }

  lemma {:induction false} CountFurther(stored: string, leaf: Entry, k: nat, n: nat)
    ensures CountPath(FurtherRows(stored, leaf, k, n), stored) == n
  {
    if n > 0 {
      CountFurther(stored, leaf, k, n - 1);
      CountLast(FurtherRows(stored, leaf, k, n - 1), Row(stored, if n == k - 2 then leaf else BLANK), stored);
    }
  }

  lemma CountOwn(present: bool, stored: string, leaf: Entry, k: nat)
    ensures CountPath(OwnRows(present, stored, leaf, k), stored)
         == (if present then 0 else 1) + if k > 1 then k - 2 else 0
  {
    var n := if k > 1 then k - 2 else 0;
    var own := Row(stored, if k <= 1 then leaf else BLANK);
    CountFurther(stored, leaf, k, n);
    CountAppend(if present then [] else [own], FurtherRows(stored, leaf, k, n), stored);
    CountLast([], own, stored);
    assert [] + [own] == [own];
  }

  //
  // In the tree
  //

  lemma {:induction false} FindFirstAt(inodes: seq<Inode>, path: CString, n: nat)
    requires n < |inodes| && DropSlash(inodes[n].virtualPath) == DropSlash(path)
    requires forall k | 0 <= k < n :: DropSlash(inodes[k].virtualPath) != DropSlash(path)
    ensures FindFirst(inodes, path) == inodes[n]
  {
    if n > 0 {
      FindFirstAt(inodes[1..], path, n - 1);
    }
  }

  lemma {:induction false} FindFirstPrefix(inodes: seq<Inode>, inodes': seq<Inode>, path: CString)
    requires inodes <= inodes' && FindFirst(inodes, path) != null
    ensures FindFirst(inodes', path) == FindFirst(inodes, path)
  {
    if DropSlash(inodes[0].virtualPath) != DropSlash(path) {
      FindFirstPrefix(inodes[1..], inodes'[1..], path);
    }
  }

  lemma RowsLast(inodes: seq<Inode>, last: Inode)
    ensures Rows(inodes + [last]) == Rows(inodes) + [Row(last.virtualPath, EntryOf(last))]
  {
  }

  lemma {:induction false} CountDistinct(inodes: seq<Inode>, path: CString)
    requires forall i, j | 0 <= i < j < |inodes| :: inodes[i].virtualPath != inodes[j].virtualPath
    ensures CountPath(Rows(inodes), path) == if exists n | n in inodes :: n.virtualPath == path then 1 else 0
  {
    if inodes != [] {
      var init, last := inodes[..|inodes| - 1], inodes[|inodes| - 1];
      CountDistinct(init, path);
      RowsLast(init, last);
      CountLast(Rows(init), Row(last.virtualPath, EntryOf(last)), path);
      TakeLast(inodes, |inodes|);
      TakeAll(inodes);
      assert forall n :: n in inodes <==> n in init || n == last;
      assert forall i | 0 <= i < |init| :: init[i] == inodes[i] && init[i].virtualPath != last.virtualPath;
    }
  }

  lemma TrimmedInode(inodes: seq<Inode>, n: Inode)
    requires AllStored(inodes) && n in inodes
    ensures IsTrimmed(n.virtualPath)
  {
    assert InodeOk(n);
    CanonicalForms(n.dir);
  }

  /** In a sound tree no stored path ends in a slash, and each is stored once. */
  lemma RowsOfTree(inodes: seq<Inode>, view: View, cs: seq<string>, stored: CString)
    requires TreeOk(inodes, view) && AllStored(inodes) && AllComponents(cs) && stored == Render(cs)
    ensures AllTrimmed(Rows(inodes)) && (HasRow(Rows(inodes), stored) <==> cs in view)
    ensures CountPath(Rows(inodes), stored) == if cs in view then 1 else 0
  {
    CanonicalForms(cs);
    FindFirstExact(inodes, view, stored, cs);
    FindFirstRow(inodes, stored);
    forall i | 0 <= i < |inodes| ensures IsTrimmed(Rows(inodes)[i].path) {
      TrimmedInode(inodes, inodes[i]);
    }
    forall i, j | 0 <= i < j < |inodes| ensures inodes[i].virtualPath != inodes[j].virtualPath {
      VirtualPathsDistinct(inodes, view, i, j);
    }
    CountDistinct(inodes, stored);
    forall n | n in inodes ensures n.virtualPath == stored <==> DropSlash(n.virtualPath) == DropSlash(stored) {
      TrimmedInode(inodes, n);
    }
  }

  lemma FindAmongRows(inodes: seq<Inode>, above: seq<Row>, stored: CString, leaf: Entry, k: nat)
    requires Rows(inodes) == above + OwnRows(false, stored, leaf, k) && !HasRow(above, stored)
    ensures var found := FindFirst(inodes, stored);
            found != null && EntryOf(found) == if k <= 1 then leaf else BLANK
  {
    var n := |above|;
    assert forall i | 0 <= i < n :: Rows(inodes)[i] == above[i];
    assert Rows(inodes)[n] == OwnRows(false, stored, leaf, k)[0] == Row(stored, if k <= 1 then leaf else BLANK);
    FindFirstAt(inodes, stored, n);
  }

  lemma StartsWithName(cs: seq<string>, stored: CString, path: CString)
    requires AllComponents(cs) && cs != [] && stored == Render(cs) && stored <= path
    ensures IsAbsolute(path) && !("///" <= path)
  {
    CanonicalForms(cs);
    PositionInPath(stored, cs, 0);
    assert cs[..0] == [];
    assert stored[1] != '/';
  }

  /** Two slashes or more defeat the search for a duplicate. */
  lemma FoundWithSlashes(rows: seq<Row>, stored: CString, path: CString, k: nat)
    requires AllTrimmed(rows) && IsProper(stored) && path == stored + Slashes(k)
    ensures HasRow(rows, path) <==> k <= 1 && HasRow(rows, stored)
  {
    if k == 0 {
      assert path == stored;
    } else {
      FoundBehind(rows, stored, k);
    }
  }

  /**
   Registering a directory with any number of slashes behind its path: it is accepted if it
   is new or has at least two slashes. A new directory is found with the flags and target
   given for it exactly if there is at most one slash (or they are blank anyway); one that
   was there keeps its own. More than two slashes leave several inodes with one path, one
   fewer than there are slashes.
   */
  method AddWithSlashes(vfs: Vfs, ghost cs: seq<string>, ghost stored: CString, path: CString, ghost k: nat,
                        targetPath: Option<CString>, flagsSet: Flags, flagsReset: Flags)
    returns (ok: bool)
    requires vfs.Valid() && AllComponents(cs) && cs != []
    requires stored == Render(cs) && path == stored + Slashes(k)
    modifies vfs`inodes, vfs`view, Lists(vfs.inodes)
    ensures ok <==> (targetPath.Some? ==> IsAbsolute(targetPath.value)) && (k >= 2 || cs !in old(vfs.view))
    ensures ok ==>
              var found, leaf := FindFirst(vfs.inodes, stored), Entry(flagsSet, flagsReset, TrimTarget(targetPath));
              && found != null
              && EntryOf(found) == if cs in old(vfs.view) then old(vfs.view)[cs] else if k <= 1 then leaf else BLANK
    ensures ok ==> CountPath(Rows(vfs.inodes), stored) == if k <= 2 then 1 else k - 1
  {
    ghost var leaf := Entry(flagsSet, flagsReset, TrimTarget(targetPath));
    ghost var before, view, rows := vfs.inodes, vfs.view, Rows(vfs.inodes);
    RowsOfTree(before, view, cs, stored);
    StartsWithName(cs, stored, path);
    ProperStored(cs, stored);
    FoundWithSlashes(rows, stored, path, k);
    RegisteredWithSlashes(rows, cs, stored, path, k, leaf);
    ok := vfs.AddInode(path, targetPath, flagsSet, flagsReset);
    if ok {
      SlashesCounted(before, vfs.inodes, view, cs, stored, k, leaf);
      SlashesFound(before, vfs.inodes, view, cs, stored, k, leaf);
    }
  }

  /** The array after an accepted registration with `k` slashes. */
  ghost predicate AddedRows(before: seq<Inode>, after: seq<Inode>, cs: seq<string>, stored: CString, k: nat,
                            leaf: Entry)
    requires AllComponents(cs)
  {
    var above := RegisterAll(Rows(before), Above(cs), leaf);
    && before <= after && SameFor(Rows(before), above, stored)
    && Rows(after) == above + OwnRows(HasRow(Rows(before), stored), stored, leaf, k)
  }

  lemma SlashesCounted(before: seq<Inode>, after: seq<Inode>, view: View, cs: seq<string>, stored: CString, k: nat,
                       leaf: Entry)
    requires TreeOk(before, view) && AllStored(before) && AllComponents(cs) && stored == Render(cs)
    requires AddedRows(before, after, cs, stored, k, leaf) && (k >= 2 || cs !in view)
    ensures CountPath(Rows(after), stored) == if k <= 2 then 1 else k - 1
  {
    RowsOfTree(before, view, cs, stored);
    CountAppend(RegisterAll(Rows(before), Above(cs), leaf), OwnRows(cs in view, stored, leaf, k), stored);
    CountOwn(cs in view, stored, leaf, k);
  }

  lemma SlashesFound(before: seq<Inode>, after: seq<Inode>, view: View, cs: seq<string>, stored: CString, k: nat,
                     leaf: Entry)
    requires TreeOk(before, view) && AllStored(before) && AllComponents(cs) && stored == Render(cs)
    requires AddedRows(before, after, cs, stored, k, leaf)
    ensures var found := FindFirst(after, stored);
            && found != null
            && EntryOf(found) == if cs in view then view[cs] else if k <= 1 then leaf else BLANK
  {
    RowsOfTree(before, view, cs, stored);
    CanonicalForms(cs);
    FindFirstExact(before, view, stored, cs);
    if cs in view {
      FindFirstPrefix(before, after, stored);
    } else {
      FindAmongRows(after, RegisterAll(Rows(before), Above(cs), leaf), stored, leaf, k);
    }
  }

  //
  // In the child lists
  //

  /** Such a visit finds nothing, and what it creates has the directory's own path and name. */
  lemma BehindFacts(inodes: seq<Inode>, previous: Inode, prefix: CString, cs: seq<string>, j: nat)
    requires AllComponents(cs) && cs != [] && previous in inodes && previous.virtualPath == Render(cs)
    requires prefix == previous.virtualPath + Slashes(j) && j >= 2 && AllTrimmed(Rows(inodes))
    ensures TrimSlashes(prefix) == previous.virtualPath && FindFirst(inodes, prefix) == null
    ensures '/' in previous.virtualPath && BaseName(previous.virtualPath) == cs[|cs| - 1]
  {
    var stored := previous.virtualPath;
    ProperStored(cs, stored);
    TrimTrailing(stored, j);
    BaseNameOfRender(cs);
    FoundBehind(Rows(inodes), stored, j);
    FindFirstRow(inodes, prefix);
  }

  lemma TrimmedLast(inodes: seq<Inode>, last: Inode)
    requires AllTrimmed(Rows(inodes)) && IsTrimmed(last.virtualPath)
    ensures AllTrimmed(Rows(inodes + [last]))
  {
    RowsLast(inodes, last);
  }

  /**
   Every visit behind the second slash makes the directory its own child: it enters the
   directory's name into the child list of the inode visited before, which has the same
   path, and goes on from a further inode of that path.
   */
  method VisitBehind(vfs: Vfs, visit: Visit, leafTarget: Option<CString>, leafSet: Flags, leafReset: Flags,
                     previous: Inode, ghost cs: seq<string>, ghost j: nat)
    returns (next: Inode)
    requires AllComponents(cs) && cs != [] && previous in vfs.inodes && previous.virtualPath == Render(cs)
    requires visit.prefix == previous.virtualPath + Slashes(j) && j >= 2 && AllTrimmed(Rows(vfs.inodes))
    modifies vfs`inodes, vfs`view, Lists(vfs.inodes)
    ensures vfs.inodes == old(vfs.inodes) + [next] && next.virtualPath == previous.virtualPath
    ensures previous.virtualSubdirs.strings == old(previous.virtualSubdirs.strings) + [cs[|cs| - 1]]
    ensures AllTrimmed(Rows(vfs.inodes))
  {
    ghost var before := vfs.inodes;
    BehindFacts(before, previous, visit.prefix, cs, j);
    ProperStored(cs, previous.virtualPath);
    next := vfs.AddInodeSplitter(visit, leafTarget, leafSet, leafReset, previous, None, 0);
    TrimmedLast(before, next);
  }
}
