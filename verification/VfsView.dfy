/**
 Registration and lookup on the abstract view: what a sequence of registrations
 amounts to, and what looking a directory up means.
 */
module VfsView {
  import opened Options
  import opened CStrings
  import opened Paths
  import opened PathChecks
  import opened PathSplitting
  import opened VfsTree

  //
  // Registration
  //

  /** Adds the first `n` directories on the way to `cs`; `cs` itself gets `leaf`. */
  function ExtendUpTo(view: View, cs: seq<string>, leaf: Entry, n: nat): View
    requires n <= |cs| + 1
  {
    if n == 0 then view
    else
      var before, dir := ExtendUpTo(view, cs, leaf, n - 1), cs[..n - 1];
      if dir in before then before
      else before[dir := if n - 1 == |cs| then leaf else BLANK]
  }

  function Extend(view: View, cs: seq<string>, leaf: Entry): View {
    ExtendUpTo(view, cs, leaf, |cs| + 1)
  }

  /** Registration adds the missing ancestors, blank, and the leaf, and changes nothing that was there. */
  lemma {:induction false} ExtendLaw(view: View, cs: seq<string>, leaf: Entry, n: nat, p: seq<string>)
    requires n <= |cs| + 1
    ensures var after := ExtendUpTo(view, cs, leaf, n);
            && (p in after <==> p in view || (p <= cs && |p| < n))
            && (p in after ==> after[p] == if p in view then view[p] else if p == cs then leaf else BLANK)
  {
    if n > 0 {
      ExtendLaw(view, cs, leaf, n - 1, p);
      assert cs[..n - 1] == cs <==> n - 1 == |cs|;
      assert p <= cs && |p| == n - 1 <==> p == cs[..n - 1];
    }
  }

  datatype Registration = Registration(path: seq<string>, entry: Entry)

  /** The view after a sequence of registrations; one for a directory already present is rejected. */
  function ViewAfter(regs: seq<Registration>): View {
    if regs == [] then map[]
    else
      var before, last := ViewAfter(regs[..|regs| - 1]), regs[|regs| - 1];
      if last.path in before then before else Extend(before, last.path, last.entry)
  }

  predicate Accepted(regs: seq<Registration>, k: nat)
    requires k < |regs|
  {
    regs[k].path !in ViewAfter(regs[..k])
  }

  predicate AllAccepted(regs: seq<Registration>) {
    forall k | 0 <= k < |regs| :: Accepted(regs, k)
  }

  /** `regs[k]` is the first registration at or below `dir`. */
  predicate FirstTouch(regs: seq<Registration>, dir: seq<string>, k: nat) {
    k < |regs| && dir <= regs[k].path && forall j | 0 <= j < k :: !(dir <= regs[j].path)
  }

  lemma RegistrationStep(regs: seq<Registration>, dir: seq<string>)
    requires regs != []
    ensures var before, last := ViewAfter(regs[..|regs| - 1]), regs[|regs| - 1];
            && (dir in ViewAfter(regs) <==> dir in before || (last.path !in before && dir <= last.path))
            && (dir in ViewAfter(regs) ==>
                  ViewAfter(regs)[dir] ==
                  (if dir in before then before[dir] else if dir == last.path then last.entry else BLANK))
  {
    var before, last := ViewAfter(regs[..|regs| - 1]), regs[|regs| - 1];
    ExtendLaw(before, last.path, last.entry, |last.path| + 1, dir);
  }

  /** A directory is present iff something was registered at or below it, accepted or not. */
  lemma {:induction false} PresentExactly(regs: seq<Registration>, dir: seq<string>)
    ensures dir in ViewAfter(regs) <==> exists k | 0 <= k < |regs| :: dir <= regs[k].path
  {
    if regs != [] {
      var init, last := regs[..|regs| - 1], regs[|regs| - 1];
      RegistrationStep(regs, dir);
      PresentExactly(init, dir);
      PresentExactly(init, last.path);
      assert forall k | 0 <= k < |init| :: init[k] == regs[k];
      assert last == regs[|init|];
      if last.path in ViewAfter(init) && dir <= last.path {
        var k :| 0 <= k < |init| && last.path <= init[k].path;
        assert dir <= init[k].path;
      }
    }
  }

  /** The view in closed form: whoever first registered at or below a directory decides its entry. */
  lemma {:induction false} FirstTouchDecides(regs: seq<Registration>, dir: seq<string>)
    requires dir in ViewAfter(regs)
    ensures exists k: nat :: FirstTouch(regs, dir, k) &&
              ViewAfter(regs)[dir] == if regs[k].path == dir then regs[k].entry else BLANK
  {
    var init := regs[..|regs| - 1];
    RegistrationStep(regs, dir);
    PresentExactly(init, dir);
    assert forall k | 0 <= k < |init| :: init[k] == regs[k];
    if dir in ViewAfter(init) {
      FirstTouchDecides(init, dir);
      var k: nat :| FirstTouch(init, dir, k) &&
        ViewAfter(init)[dir] == if init[k].path == dir then init[k].entry else BLANK;
      assert FirstTouch(regs, dir, k);
    } else {
      assert FirstTouch(regs, dir, |init|);
    }
  }

  /** Exactly when every registration is accepted: no later one lies at or above an earlier one. */
  lemma AcceptedExactly(regs: seq<Registration>)
    ensures AllAccepted(regs) <==> forall j, k | 0 <= j < k < |regs| :: !(regs[k].path <= regs[j].path)
  {
    forall k | 0 <= k < |regs|
      ensures Accepted(regs, k) <==> forall j | 0 <= j < k :: !(regs[k].path <= regs[j].path)
    {
      PresentExactly(regs[..k], regs[k].path);
      assert forall j | 0 <= j < k :: regs[..k][j] == regs[j];
    }
    if AllAccepted(regs) {
      assert forall k | 0 <= k < |regs| :: Accepted(regs, k);
    }
  }

  /** What a directory's entry is once everything has been accepted: its own registration, if any. */
  lemma AcceptedEntry(regs: seq<Registration>, dir: seq<string>)
    requires AllAccepted(regs) && dir in ViewAfter(regs)
    ensures forall k | 0 <= k < |regs| && regs[k].path == dir :: ViewAfter(regs)[dir] == regs[k].entry
    ensures (forall k | 0 <= k < |regs| :: regs[k].path != dir) ==> ViewAfter(regs)[dir] == Entry(0, 0, None)
  {
    FirstTouchDecides(regs, dir);
    AcceptedExactly(regs);
    var f: nat :| FirstTouch(regs, dir, f) &&
      ViewAfter(regs)[dir] == if regs[f].path == dir then regs[f].entry else BLANK;
    forall k | 0 <= k < |regs| && regs[k].path == dir ensures k == f {
    }
  }

  /** The order of registration does not matter, as long as all are accepted. */
  lemma OrderDoesNotMatter(regs: seq<Registration>, regs': seq<Registration>)
    requires multiset(regs) == multiset(regs')
    requires AllAccepted(regs) && AllAccepted(regs')
    ensures ViewAfter(regs) == ViewAfter(regs')
  {
    forall dir
      ensures dir in ViewAfter(regs) <==> dir in ViewAfter(regs')
      ensures dir in ViewAfter(regs) ==> ViewAfter(regs)[dir] == ViewAfter(regs')[dir]
    {
      SameMembers(regs, regs');
      PresentExactly(regs, dir);
      PresentExactly(regs', dir);
      if dir in ViewAfter(regs) {
        AcceptedEntry(regs, dir);
        AcceptedEntry(regs', dir);
        if k :| 0 <= k < |regs| && regs[k].path == dir {
          assert regs[k] in regs';
        }
      }
    }
  }

  lemma SameMembers(regs: seq<Registration>, regs': seq<Registration>)
    requires multiset(regs) == multiset(regs')
    ensures forall k | 0 <= k < |regs| :: regs[k] in regs'
    ensures forall k | 0 <= k < |regs'| :: regs'[k] in regs
  {
    forall k | 0 <= k < |regs| ensures regs[k] in regs' {
      assert regs[k] in multiset(regs);
    }
    forall k | 0 <= k < |regs'| ensures regs'[k] in regs {
      assert regs'[k] in multiset(regs');
    }
  }

  //
  // Lookup
  //

  /** What an inode does to the flags of everything below it; resetting wins over setting. */
  function Apply(flags: Flags, flagsSet: Flags, flagsReset: Flags): Flags {
    (flags | flagsSet) & !flagsReset
  }

  /** The flags inherited from the first `n` directories on the way to `cs`. */
  function FlagsTo(view: View, base: Flags, cs: seq<string>, n: nat): Flags
    requires n <= |cs| + 1
  {
    if n == 0 then base
    else
      var flags, dir := FlagsTo(view, base, cs, n - 1), cs[..n - 1];
      if dir in view then Apply(flags, view[dir].flagsSet, view[dir].flagsReset) else flags
  }

  predicate IsMount(view: View, dir: seq<string>) {
    dir in view && view[dir].target.Some?
  }

  /** The depth of the deepest mount among the first `n` directories on the way to `cs`. */
  function MountTo(view: View, cs: seq<string>, n: nat): (depth: Option<nat>)
    requires n <= |cs| + 1
    ensures depth.Some? ==> depth.value < n && IsMount(view, cs[..depth.value])
    ensures forall k | 0 <= k < n :: (depth.Some? ==> k > depth.value) ==> !IsMount(view, cs[..k])
  {
    if n == 0 then None
    else if IsMount(view, cs[..n - 1]) then Some(n - 1)
    else MountTo(view, cs, n - 1)
  }

  function EffectiveFlags(view: View, base: Flags, cs: seq<string>): Flags {
    FlagsTo(view, base, cs, |cs| + 1)
  }

  /** The mountpoint of a directory: its longest registered prefix that has a target. */
  function MountDepth(view: View, cs: seq<string>): (depth: Option<nat>)
    ensures depth.Some? ==> depth.value <= |cs| && IsMount(view, cs[..depth.value])
    ensures forall k | 0 <= k <= |cs| :: (depth.Some? ==> k > depth.value) ==> !IsMount(view, cs[..k])
  {
    MountTo(view, cs, |cs| + 1)
  }

  /** `struct vfs_lookup_result_t` */
  datatype LookupResult = LookupResult(flags: Flags, inode: Inode?, mountpoint: Inode?)

  /** What a directory on the way contributes to a lookup, given its inode if it has one. */
  function Absorb(inode: Inode?, isFull: bool, r: LookupResult): LookupResult {
    if inode == null then r
    else LookupResult(
      Apply(r.flags, inode.flagsSet, inode.flagsReset),
      if isFull then inode else r.inode,
      if inode.targetPath.Some? then inode else r.mountpoint)
  }

  function LookupStep(inodes: seq<Inode>, visit: Visit, r: LookupResult): LookupResult {
    Absorb(FindFirst(inodes, visit.prefix), visit.isFull, r)
  }

  function LookupFold(inodes: seq<Inode>, base: Flags, visits: seq<Visit>): LookupResult {
    if visits == [] then LookupResult(base, null, null)
    else LookupStep(inodes, visits[|visits| - 1], LookupFold(inodes, base, visits[..|visits| - 1]))
  }

  /** The lookup result `r` is the meaning of directory `cs` in `view`, as far as its first `n` ancestors. */
  ghost predicate Means(r: LookupResult, inodes: seq<Inode>, view: View, base: Flags, cs: seq<string>, n: nat)
    requires n <= |cs| + 1
  {
    && r.flags == FlagsTo(view, base, cs, n)
    && (r.inode != null <==> n == |cs| + 1 && cs in view)
    && (r.inode != null ==> r.inode in inodes && r.inode.dir == cs)
    && (r.mountpoint != null <==> MountTo(view, cs, n).Some?)
    && (r.mountpoint != null ==>
          r.mountpoint in inodes && r.mountpoint.dir == cs[..MountTo(view, cs, n).value])
  }

  /** One more directory on the way. */
  lemma AbsorbMeans(r: LookupResult, found: Inode?, inodes: seq<Inode>, view: View, base: Flags, cs: seq<string>,
                    n: nat)
    requires n <= |cs| && Means(r, inodes, view, base, cs, n)
    requires found == null <==> cs[..n] !in view
    requires found != null ==> found in inodes && found.dir == cs[..n] && view[cs[..n]] == EntryOf(found)
    ensures Means(Absorb(found, n == |cs|, r), inodes, view, base, cs, n + 1)
  {
    assert n == |cs| ==> cs[..n] == cs;
  }

  lemma LookupStepMeans(r: LookupResult, inodes: seq<Inode>, view: View, base: Flags, cs: seq<string>, n: nat)
    requires TreeOk(inodes, view) && AllStored(inodes) && AllComponents(cs) && n <= |cs|
    requires Means(r, inodes, view, base, cs, n)
    ensures Means(LookupStep(inodes, CanonicalVisit(cs, n), r), inodes, view, base, cs, n + 1)
  {
    var visit := CanonicalVisit(cs, n);
    CanonicalForms(cs[..n]);
    FindFirstExact(inodes, view, visit.prefix, cs[..n]);
    AbsorbMeans(r, FindFirst(inodes, visit.prefix), inodes, view, base, cs, n);
  }

  lemma {:induction false} LookupMeans(inodes: seq<Inode>, view: View, base: Flags, cs: seq<string>, visits: seq<Visit>)
    requires TreeOk(inodes, view) && AllStored(inodes) && AllComponents(cs) && |visits| <= |cs| + 1
    requires forall k | 0 <= k < |visits| :: visits[k] == CanonicalVisit(cs, k)
    ensures Means(LookupFold(inodes, base, visits), inodes, view, base, cs, |visits|)
  {
    if visits != [] {
      var n := |visits| - 1;
      LookupMeans(inodes, view, base, cs, visits[..n]);
      LookupStepMeans(LookupFold(inodes, base, visits[..n]), inodes, view, base, cs, n);
    }
  }

  /** Looking up a canonical path, with or without trailing slash, means looking its directory up in the view. */
  lemma LookupRefinesView(inodes: seq<Inode>, view: View, base: Flags, path: CString, cs: seq<string>)
    requires TreeOk(inodes, view) && AllStored(inodes) && Denotes(path, cs) && path != ""
    ensures Means(LookupFold(inodes, base, Visits(path)), inodes, view, base, cs, |cs| + 1)
  {
    VisitsOfCanonical(path, cs);
    LookupMeans(inodes, view, base, cs, Visits(path));
  }

  /**
   Two inode arrays for the same view, in any order and built in any order, answer
   every lookup alike: same flags, same virtual paths, same target.
   */
  lemma LookupsAgree(a: seq<Inode>, b: seq<Inode>, view: View, base: Flags, path: CString, cs: seq<string>)
    requires TreeOk(a, view) && TreeOk(b, view) && AllStored(a) && AllStored(b) && Denotes(path, cs) && path != ""
    ensures var ra, rb := LookupFold(a, base, Visits(path)), LookupFold(b, base, Visits(path));
            && ra.flags == rb.flags
            && (ra.inode == null <==> rb.inode == null)
            && (ra.inode != null ==> ra.inode.virtualPath == rb.inode.virtualPath)
            && (ra.mountpoint == null <==> rb.mountpoint == null)
            && (ra.mountpoint != null ==>
                  ra.mountpoint.virtualPath == rb.mountpoint.virtualPath &&
                  ra.mountpoint.targetPath == rb.mountpoint.targetPath)
  {
    LookupRefinesView(a, view, base, path, cs);
    LookupRefinesView(b, view, base, path, cs);
  }

  /** Registration order is invisible to lookups, even though the arrays differ. */
  lemma RegistrationOrderInvisible(regs: seq<Registration>, regs': seq<Registration>,
                                   a: seq<Inode>, b: seq<Inode>, base: Flags, path: CString, cs: seq<string>)
    requires multiset(regs) == multiset(regs') && AllAccepted(regs) && AllAccepted(regs')
    requires TreeOk(a, ViewAfter(regs)) && TreeOk(b, ViewAfter(regs'))
    requires AllStored(a) && AllStored(b) && Denotes(path, cs) && path != ""
    ensures var ra, rb := LookupFold(a, base, Visits(path)), LookupFold(b, base, Visits(path));
            && ra.flags == rb.flags
            && (ra.inode == null <==> rb.inode == null)
            && (ra.inode != null ==> ra.inode.virtualPath == rb.inode.virtualPath)
            && (ra.mountpoint == null <==> rb.mountpoint == null)
            && (ra.mountpoint != null ==>
                  ra.mountpoint.virtualPath == rb.mountpoint.virtualPath &&
                  ra.mountpoint.targetPath == rb.mountpoint.targetPath)
  {
    OrderDoesNotMatter(regs, regs');
    LookupsAgree(a, b, ViewAfter(regs), base, path, cs);
  }

  //
  // Flags bit by bit
  //

  predicate IsBit(bit: Flags) {
    bit != 0 && bit & (bit - 1) == 0
  }

  lemma BitIsIndivisible(flags: Flags, bit: Flags)
    requires IsBit(bit)
    ensures flags & bit == 0 || flags & bit == bit
  {
  }

  lemma ApplyUnderMask(flags: Flags, s: Flags, r: Flags, mask: Flags)
    ensures Apply(flags, s, r) & mask == ((flags & mask) | (s & mask)) & !(r & mask)
  {
  }

  lemma ApplyToBit(flags: Flags, s: Flags, r: Flags, bit: Flags)
    requires IsBit(bit)
    ensures Apply(flags, s, r) & bit ==
              if r & bit != 0 then 0 else if s & bit != 0 then bit else flags & bit
  {
    BitIsIndivisible(flags, bit);
    BitIsIndivisible(s, bit);
    BitIsIndivisible(r, bit);
    ApplyUnderMask(flags, s, r, bit);
  }

  predicate HasBit(flags: Flags, bit: Flags) {
    flags & bit != 0
  }

  /** The directory is registered and its inode sets or resets the bit. */
  predicate Touches(view: View, dir: seq<string>, bit: Flags) {
    dir in view && (HasBit(view[dir].flagsSet, bit) || HasBit(view[dir].flagsReset, bit))
  }

  /** The deepest of the first `n` directories on the way to `cs` that touches the bit. */
  function DeepestTouch(view: View, cs: seq<string>, n: nat, bit: Flags): (depth: Option<nat>)
    requires n <= |cs| + 1
    ensures depth.Some? ==> depth.value < n && Touches(view, cs[..depth.value], bit)
    ensures forall k | 0 <= k < n :: (depth.Some? ==> k > depth.value) ==> !Touches(view, cs[..k], bit)
  {
    if n == 0 then None
    else if Touches(view, cs[..n - 1], bit) then Some(n - 1)
    else DeepestTouch(view, cs, n - 1, bit)
  }

  lemma BitStep(view: View, base: Flags, cs: seq<string>, n: nat, bit: Flags)
    requires IsBit(bit) && 0 < n <= |cs| + 1
    ensures HasBit(FlagsTo(view, base, cs, n), bit) <==>
            if Touches(view, cs[..n - 1], bit) then !HasBit(view[cs[..n - 1]].flagsReset, bit)
            else HasBit(FlagsTo(view, base, cs, n - 1), bit)
  {
    var dir := cs[..n - 1];
    if dir in view {
      ApplyToBit(FlagsTo(view, base, cs, n - 1), view[dir].flagsSet, view[dir].flagsReset, bit);
    }
  }

  /**
   Flag bit by flag bit: the deepest registered ancestor that sets or resets the bit
   decides it, resetting winning inside one inode; untouched bits keep their base value.
   */
  lemma {:induction false} DeepestDecidesBit(view: View, base: Flags, cs: seq<string>, n: nat, bit: Flags)
    requires IsBit(bit) && n <= |cs| + 1
    ensures HasBit(FlagsTo(view, base, cs, n), bit) <==>
              match DeepestTouch(view, cs, n, bit)
              case None => HasBit(base, bit)
              case Some(k) => !HasBit(view[cs[..k]].flagsReset, bit)
  {
    if n > 0 {
      BitStep(view, base, cs, n, bit);
      DeepestDecidesBit(view, base, cs, n - 1, bit);
    }
  }

  /** The flags that matter, by their bits. */
  lemma FlagBits()
    ensures READ_ONLY == 1 && FILTER_ALL == 2 && FILTER_HIDDEN == 4 && ALLOW_SYMLINKS == 64
    ensures IsBit(READ_ONLY) && IsBit(FILTER_ALL) && IsBit(FILTER_HIDDEN) && IsBit(ALLOW_SYMLINKS)
  {
  }

  /** Neither set nor reset at any registered directory from depth `from` on. */
  predicate UntouchedFrom(view: View, cs: seq<string>, from: nat, bit: Flags) {
    forall j | from <= j <= |cs| && cs[..j] in view ::
      !HasBit(view[cs[..j]].flagsSet, bit) && !HasBit(view[cs[..j]].flagsReset, bit)
  }

  /** Set and not reset at the registered directory of depth `k`, and untouched below. */
  predicate SetLastAt(view: View, cs: seq<string>, k: nat, bit: Flags) {
    && k <= |cs| && cs[..k] in view
    && HasBit(view[cs[..k]].flagsSet, bit) && !HasBit(view[cs[..k]].flagsReset, bit)
    && UntouchedFrom(view, cs, k + 1, bit)
  }

  lemma UntouchedBelow(view: View, cs: seq<string>, from: nat, bit: Flags)
    requires forall j | from <= j <= |cs| :: !Touches(view, cs[..j], bit)
    ensures UntouchedFrom(view, cs, from, bit)
  {
    forall j | from <= j <= |cs| && cs[..j] in view
      ensures !HasBit(view[cs[..j]].flagsSet, bit) && !HasBit(view[cs[..j]].flagsReset, bit)
    {
      assert !Touches(view, cs[..j], bit);
    }
  }

  lemma TouchedAt(view: View, cs: seq<string>, from: nat, k: nat, bit: Flags)
    requires from <= k <= |cs| && Touches(view, cs[..k], bit)
    ensures !UntouchedFrom(view, cs, from, bit)
  {
    assert cs[..k] in view;
  }

  /** Nothing below the last directory that sets a bit has a say in it. */
  lemma LastIsLast(view: View, cs: seq<string>, k: nat, d: nat, bit: Flags)
    ensures SetLastAt(view, cs, k, bit) && d <= |cs| && Touches(view, cs[..d], bit) ==> d <= k
    ensures SetLastAt(view, cs, k, bit) ==> k <= |cs| && Touches(view, cs[..k], bit)
  {
    if k < d <= |cs| && Touches(view, cs[..d], bit) {
      TouchedAt(view, cs, k + 1, d, bit);
    }
  }

  /** A bit is effective if the last directory with a say in it sets it, or if none has one and the base does. */
  lemma FlagMeans(view: View, base: Flags, cs: seq<string>, bit: Flags)
    requires IsBit(bit)
    ensures EffectiveFlags(view, base, cs) & bit != 0 <==>
            (base & bit != 0 && UntouchedFrom(view, cs, 0, bit)) || exists k: nat :: SetLastAt(view, cs, k, bit)
  {
    DeepestDecidesBit(view, base, cs, |cs| + 1, bit);
    match DeepestTouch(view, cs, |cs| + 1, bit)
    case None =>
      UntouchedBelow(view, cs, 0, bit);
      forall k: nat ensures !SetLastAt(view, cs, k, bit) {
        LastIsLast(view, cs, k, 0, bit);
      }
    case Some(d) =>
      TouchedAt(view, cs, 0, d, bit);
      UntouchedBelow(view, cs, d + 1, bit);
      assert SetLastAt(view, cs, d, bit) <==> !HasBit(view[cs[..d]].flagsReset, bit);
      forall k: nat ensures SetLastAt(view, cs, k, bit) ==> k == d {
        LastIsLast(view, cs, k, d, bit);
      }
  }

  /** The mountpoint is the last registered directory on the way that has a target. */
  lemma MountMeans(view: View, cs: seq<string>)
    ensures match MountDepth(view, cs)
            case None => forall k | 0 <= k <= |cs| && cs[..k] in view :: view[cs[..k]].target == None
            case Some(d) =>
              && d <= |cs| && cs[..d] in view && view[cs[..d]].target.Some?
              && forall k | d < k <= |cs| && cs[..k] in view :: view[cs[..k]].target == None
  {
    var depth := MountDepth(view, cs);
    forall k | (if depth.Some? then depth.value < k else 0 <= k) && k <= |cs| ensures !IsMount(view, cs[..k]) {
    }
  }

  //
  // Walking the parent chain
  //

  /** The flags collected along the `parent` pointers from the root down to `n`. */
  ghost function ChainFlags(inodes: seq<Inode>, view: View, base: Flags, n: Inode): Flags
    requires TreeOk(inodes, view) && n in inodes
    decreases |n.dir|
  {
    assert ParentOk(inodes, n);
    Apply(if n.parent == null then base else ChainFlags(inodes, view, base, n.parent), n.flagsSet, n.flagsReset)
  }

  /** The nearest inode with a target on the way from `n` up the `parent` pointers. */
  ghost function ChainMount(inodes: seq<Inode>, view: View, n: Inode): Inode?
    requires TreeOk(inodes, view) && n in inodes
    decreases |n.dir|
  {
    assert ParentOk(inodes, n);
    if n.targetPath.Some? then n
    else if n.parent == null then null
    else ChainMount(inodes, view, n.parent)
  }

  lemma ChainStep(inodes: seq<Inode>, view: View, cs: seq<string>, n: Inode)
    requires TreeOk(inodes, view) && n in inodes && n.dir <= cs
    ensures var k := |n.dir|;
            && cs[..k] == n.dir && cs[..k] in view && view[cs[..k]] == EntryOf(n)
            && (n.parent == null <==> k == 0)
            && (n.parent != null ==> n.parent in inodes && n.parent.dir == cs[..k - 1])
  {
    assert ParentOk(inodes, n);
  }

  lemma {:induction false} ChainFlagsMean(inodes: seq<Inode>, view: View, base: Flags, cs: seq<string>, n: Inode)
    requires TreeOk(inodes, view) && n in inodes && n.dir <= cs
    ensures ChainFlags(inodes, view, base, n) == FlagsTo(view, base, cs, |n.dir| + 1)
    decreases |n.dir|
  {
    ChainStep(inodes, view, cs, n);
    if n.parent != null {
      ChainFlagsMean(inodes, view, base, cs, n.parent);
    }
  }

  lemma {:induction false} ChainMountMeans(inodes: seq<Inode>, view: View, cs: seq<string>, n: Inode)
    requires TreeOk(inodes, view) && n in inodes && n.dir <= cs
    ensures var mount, depth := ChainMount(inodes, view, n), MountTo(view, cs, |n.dir| + 1);
            && (mount != null <==> depth.Some?)
            && (mount != null ==> mount in inodes && mount.dir == cs[..depth.value])
    decreases |n.dir|
  {
    ChainStep(inodes, view, cs, n);
    if n.targetPath == None && n.parent != null {
      ChainMountMeans(inodes, view, cs, n.parent);
    }
  }

  lemma {:induction false} AbsentBelow(view: View, cs: seq<string>, k: nat, j: nat)
    requires Closed(view) && k <= j <= |cs| && cs[..k] !in view
    ensures cs[..j] !in view
  {
    if k < j {
      AbsentBelow(view, cs, k, j - 1);
      assert Parent(cs[..j]) == cs[..j - 1];
    }
  }

  /** Directories below the deepest registered one change neither flags nor mountpoint. */
  lemma {:induction false} NothingBelow(view: View, base: Flags, cs: seq<string>, depth: nat, n: nat)
    requires Closed(view) && depth < n <= |cs| + 1
    requires depth < |cs| ==> cs[..depth + 1] !in view
    ensures FlagsTo(view, base, cs, n) == FlagsTo(view, base, cs, depth + 1)
    ensures MountTo(view, cs, n) == MountTo(view, cs, depth + 1)
  {
    if n > depth + 1 {
      NothingBelow(view, base, cs, depth, n - 1);
      AbsentBelow(view, cs, depth + 1, n - 1);
    }
  }

  lemma ChainAgrees(r: LookupResult, inodes: seq<Inode>, view: View, base: Flags, cs: seq<string>, n: Inode)
    requires TreeOk(inodes, view) && Means(r, inodes, view, base, cs, |cs| + 1)
    requires n in inodes && n.dir <= cs
    requires FlagsTo(view, base, cs, |cs| + 1) == FlagsTo(view, base, cs, |n.dir| + 1)
    requires MountTo(view, cs, |cs| + 1) == MountTo(view, cs, |n.dir| + 1)
    ensures r.flags == ChainFlags(inodes, view, base, n) && r.mountpoint == ChainMount(inodes, view, n)
  {
    ChainFlagsMean(inodes, view, base, cs, n);
    ChainMountMeans(inodes, view, cs, n);
  }

  lemma DeepestCounts(inodes: seq<Inode>, view: View, base: Flags, cs: seq<string>, n: Inode)
    requires TreeOk(inodes, view) && n in inodes && n.dir <= cs
    requires |n.dir| < |cs| ==> cs[..|n.dir| + 1] !in view
    ensures FlagsTo(view, base, cs, |cs| + 1) == FlagsTo(view, base, cs, |n.dir| + 1)
    ensures MountTo(view, cs, |cs| + 1) == MountTo(view, cs, |n.dir| + 1)
  {
    ViewClosed(inodes, view);
    NothingBelow(view, base, cs, |n.dir|, |cs| + 1);
  }

  /** From the deepest matched inode, the parent chain gives the same flags and mountpoint as the lookup. */
  lemma ParentChainAgrees(inodes: seq<Inode>, view: View, base: Flags, path: CString, cs: seq<string>, n: Inode)
    requires TreeOk(inodes, view) && AllStored(inodes) && Denotes(path, cs) && path != ""
    requires n in inodes && n.dir <= cs
    requires |n.dir| < |cs| ==> cs[..|n.dir| + 1] !in view
    ensures var r := LookupFold(inodes, base, Visits(path));
            r.flags == ChainFlags(inodes, view, base, n) && r.mountpoint == ChainMount(inodes, view, n)
  {
    LookupRefinesView(inodes, view, base, path, cs);
    DeepestCounts(inodes, view, base, cs, n);
    ChainAgrees(LookupFold(inodes, base, Visits(path)), inodes, view, base, cs, n);
  }
}
