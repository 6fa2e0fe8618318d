/** Several handles on one inode, which share its child list (vfs.c). */
module VfsInterleaving {
  import opened Options
  import opened CStrings
  import opened Folds
  import opened Sorting
  import opened StringLists
  import opened VfsTree
  import opened VfsListing
  import opened Sequences

  /** Handles on one inode: a shared child list, and each handle's own position and stream. */
  datatype Shared = Shared(list: ListState, handles: seq<Progress>)

  /** A read through handle `i`, which sees the list as the others have left it. */
  function SharedRead(shared: Shared, i: nat, dirent: Dirent): Shared
    requires i < |shared.handles|
  {
    var h := shared.handles[i];
    var after := ReadOnce(h.(state := h.state.(list := Some(shared.list))), dirent);
    Shared(if after.state.list.Some? then after.state.list.value else shared.list, shared.handles[i := after])
  }

  /** A read through handle `i`; the turn of a handle that does not exist is lost. */
  function Turn(dirent: Dirent): (Shared, nat) -> Shared {
    (s: Shared, i: nat) => if i < |s.handles| then SharedRead(s, i, dirent) else s
  }

  /** Reads through the handles in the order of `schedule`. */
  function Interleave(shared: Shared, dirent: Dirent, schedule: seq<nat>): Shared {
    Fold(Turn(dirent), shared, schedule)
  }

  /** Handles that have not been read yet. */
  function Unread(list: ListState, starts: seq<ListingState>): (shared: Shared)
    ensures shared.list == list && |shared.handles| == |starts|
    ensures forall k | 0 <= k < |starts| :: shared.handles[k] == Progress(starts[k], [])
  {
    Shared(list, seq(|starts|, k requires 0 <= k < |starts| => Progress(starts[k], [])))
  }

  function Turns(schedule: seq<nat>, i: nat): nat {
    if schedule == [] then 0
    else Turns(schedule[..|schedule| - 1], i) + if schedule[|schedule| - 1] == i then 1 else 0
  }

  /** The same position in the same list, which is in order, whether or not the list is marked so. */
  ghost predicate SameInOrder(s: ListingState, t: ListingState) {
    && s.list.Some? && t.list.Some? && s.list.value.strings == t.list.value.strings
    && Ascending(s.list.value.strings) && s.(list := t.list) == t
  }

  lemma OrderedStaysPut(list: ListState)
    requires Ascending(list.strings)
    ensures list.AfterContains().strings == list.strings
  {
    if list.strings != [] && !list.sorted {
      SortUnchanged(list.strings, Itself);
    }
  }

  lemma StateAfterSame(s: ListingState, t: ListingState, item: StreamItem)
    requires SameInOrder(s, t) && item.Item?
    ensures SameInOrder(StateAfter(s, item), StateAfter(t, item))
    ensures StateAfter(s, item).Names() == s.Names() && StateAfter(s, item).stream == s.stream
  {
    OrderedStaysPut(s.list.value);
    OrderedStaysPut(t.list.value);
  }

  lemma {:induction false} ReadStreamSame(s: ListingState, t: ListingState, dirent: Dirent)
    requires SameInOrder(s, t)
    ensures var r, q := ReadStream(s, dirent), ReadStream(t, dirent);
            && SameInOrder(r.state, q.state) && r.dirent == q.dirent && r.failed == q.failed
            && r.state.Names() == s.Names()
    decreases |s.Unread()|
  {
    if s.Unread() != [] {
      var item, rest := s.Unread()[0], Some(s.Unread()[1..]);
      if item.Item? {
        StateAfterSame(s.(stream := rest), t.(stream := rest), item);
        if !Listed(item, s.Names(), s.statAt) {
          ReadStreamSame(StateAfter(s.(stream := rest), item), StateAfter(t.(stream := rest), item),
                         DirentAfter(s, item, dirent));
        }
      }
    }
  }

  lemma ReadSame(s: ListingState, t: ListingState, dirent: Dirent)
    requires SameInOrder(s, t)
    ensures var r, q := Read(s, dirent), Read(t, dirent);
            && SameInOrder(r.state, q.state) && r.dirent == q.dirent && r.failed == q.failed
            && r.state.Names() == s.Names()
  {
    if s.index >= |s.Names()| {
      ReadStreamSame(s, t, dirent);
    }
  }

  /** Handles on one child list. */
  ghost predicate OnList(list: ListState, starts: seq<ListingState>) {
    forall k | 0 <= k < |starts| :: starts[k].list == Some(list)
  }

  ghost predicate OnListFromStart(list: ListState, starts: seq<ListingState>) {
    OnList(list, starts) && forall k | 0 <= k < |starts| :: starts[k].index == 0
  }

  /** Each handle returns exactly what it would have returned alone. */
  ghost predicate Undisturbed(list: ListState, starts: seq<ListingState>, dirent: Dirent, schedule: seq<nat>)
  {
    var shared := Interleave(Unread(list, starts), dirent, schedule);
    && |shared.handles| == |starts|
    && forall k | 0 <= k < |starts| :: shared.handles[k].outputs == Alone(starts[k], dirent, Turns(schedule, k)).outputs
  }

  /** A handle is where it would be alone. */
  ghost predicate InStep(shared: Progress, alone: Progress) {
    SameInOrder(shared.state, alone.state) && shared.outputs == alone.outputs
  }

  lemma TurnInStep(shared: Shared, i: nat, alone: Progress, dirent: Dirent)
    requires i < |shared.handles| && InStep(shared.handles[i], alone)
    requires shared.list.strings == alone.state.Names()
    ensures var after := SharedRead(shared, i, dirent);
            && |after.handles| == |shared.handles|
            && InStep(after.handles[i], ReadOnce(alone, dirent)) && after.list.strings == shared.list.strings
            && forall k | 0 <= k < |shared.handles| && k != i :: after.handles[k] == shared.handles[k]
  {
    ReadSame(shared.handles[i].state.(list := Some(shared.list)), alone.state, dirent);
  }

  ghost predicate AllInStep(s: Shared, starts: seq<ListingState>, dirent: Dirent, schedule: seq<nat>) {
    && |s.handles| == |starts|
    && forall k | 0 <= k < |starts| :: InStep(s.handles[k], Alone(starts[k], dirent, Turns(schedule, k)))
  }

  lemma {:induction false} OrderedListInterleaves(list: ListState, starts: seq<ListingState>, dirent: Dirent,
                                                  schedule: seq<nat>)
    requires Ascending(list.strings) && OnList(list, starts)
    ensures var s := Interleave(Unread(list, starts), dirent, schedule);
            s.list.strings == list.strings && AllInStep(s, starts, dirent, schedule)
  {
    if schedule != [] {
      var init, i := schedule[..|schedule| - 1], schedule[|schedule| - 1];
      OrderedListInterleaves(list, starts, dirent, init);
      var before := Interleave(Unread(list, starts), dirent, init);
      if i < |starts| {
        AloneKeepsNames(starts[i], dirent, Turns(init, i));
        TurnInStep(before, i, Alone(starts[i], dirent, Turns(init, i)), dirent);
      }
      OneMoreTurn(before, Turn(dirent)(before, i), starts, dirent, schedule);
    }
  }

  lemma OneMoreTurn(before: Shared, after: Shared, starts: seq<ListingState>, dirent: Dirent, schedule: seq<nat>)
    requires schedule != [] && |starts| == |after.handles|
    requires AllInStep(before, starts, dirent, schedule[..|schedule| - 1])
    requires var init, i := schedule[..|schedule| - 1], schedule[|schedule| - 1];
             && (i < |starts| ==> InStep(after.handles[i], ReadOnce(Alone(starts[i], dirent, Turns(init, i)), dirent)))
             && forall k | 0 <= k < |starts| && k != i :: after.handles[k] == before.handles[k]
    ensures AllInStep(after, starts, dirent, schedule)
  {
  }

  lemma {:induction false} AloneKeepsNames(s: ListingState, dirent: Dirent, n: nat)
    requires s.list.Some? && Ascending(s.list.value.strings)
    ensures var a := Alone(s, dirent, n).state; a.list.Some? && a.Names() == s.Names()
  {
    if n > 0 {
      AloneKeepsNames(s, dirent, n - 1);
      var a := Alone(s, dirent, n - 1).state;
      ReadSame(a, a, dirent);
    }
  }

  //
  // A list out of order
  //

  function Repeat(i: nat, m: nat): (s: seq<nat>)
    ensures |s| == m
  {
    if m == 0 then [] else Repeat(i, m - 1) + [i]
  }

  /** What reading `m` virtual subdirectories from position `from` on returns. */
  function VirtualOutputs(names: seq<CString>, from: nat, m: nat, flags: Flags): (outputs: seq<Output>)
    requires from + m <= |names|
    ensures |outputs| == m
    ensures forall k | 0 <= k < m :: outputs[k] == Output(VirtualDirent(names[from + k], flags), false)
  {
    if m == 0 then [] else
      VirtualOutputs(names, from, m - 1, flags) + [Output(VirtualDirent(names[from + m - 1], flags), false)]
  }

  lemma {:induction false} TurnsRepeat(i: nat, m: nat, j: nat)
    ensures Turns(Repeat(i, m), j) == if i == j then m else 0
  {
    if m > 0 {
      TurnsRepeat(i, m - 1, j);
      assert Repeat(i, m)[..m - 1] == Repeat(i, m - 1);
    }
  }

  lemma {:induction false} TurnsAppend(a: seq<nat>, b: seq<nat>, j: nat)
    ensures Turns(a + b, j) == Turns(a, j) + Turns(b, j)
  {
    var ab := a + b;
    if b == [] {
      assert ab == a;
    } else {
      TurnsAppend(a, b[..|b| - 1], j);
      assert ab[..|ab| - 1] == a + b[..|b| - 1];
    }
  }

  /** Handle `i` has moved on through `m` virtual subdirectories, and nothing else has changed. */
  ghost predicate MovedOn(before: Shared, after: Shared, i: nat, m: nat)
    requires i < |before.handles| && before.handles[i].state.index + m <= |before.list.strings|
  {
    && |after.handles| == |before.handles|
    && var h, g := before.handles[i], after.handles[i];
    && after.list == before.list
    && (forall k | 0 <= k < |before.handles| && k != i :: after.handles[k] == before.handles[k])
    && g.state == h.state.(index := h.state.index + m, list := if m == 0 then h.state.list else Some(before.list))
    && g.outputs == h.outputs + VirtualOutputs(before.list.strings, h.state.index, m, h.state.flags)
  }

  lemma OneVirtualRead(before: Shared, i: nat, dirent: Dirent)
    requires i < |before.handles| && before.handles[i].state.handleType == DirectoryHandle
    requires before.handles[i].state.index < |before.list.strings|
    ensures MovedOn(before, SharedRead(before, i, dirent), i, 1)
  {
    var index, flags := before.handles[i].state.index, before.handles[i].state.flags;
    assert VirtualOutputs(before.list.strings, index, 1, flags)
        == [Output(VirtualDirent(before.list.strings[index], flags), false)];
  }

  lemma MovedOnOnceMore(before: Shared, midway: Shared, after: Shared, i: nat, m: nat)
    requires m > 0 && i < |before.handles|
    requires before.handles[i].state.index + m <= |before.list.strings|
    requires MovedOn(before, midway, i, m - 1) && MovedOn(midway, after, i, 1)
    ensures MovedOn(before, after, i, m)
  {
    var h := before.handles[i];
    var names, flags := before.list.strings, h.state.flags;
    assert VirtualOutputs(names, h.state.index + m - 1, 1, flags)
        == [Output(VirtualDirent(names[h.state.index + m - 1], flags), false)];
  }

  /** Reading handle `i` `m` times takes it through the next `m` virtual subdirectories. */
  lemma {:induction false} VirtualReads(before: Shared, i: nat, dirent: Dirent, m: nat)
    requires i < |before.handles| && before.handles[i].state.handleType == DirectoryHandle
    requires before.handles[i].state.index + m <= |before.list.strings|
    ensures MovedOn(before, Interleave(before, dirent, Repeat(i, m)), i, m)
  {
    if m > 0 {
      VirtualReads(before, i, dirent, m - 1);
      assert Repeat(i, m)[..m - 1] == Repeat(i, m - 1);
      var midway := Interleave(before, dirent, Repeat(i, m - 1));
      OneVirtualRead(midway, i, dirent);
      MovedOnOnceMore(before, midway, SharedRead(midway, i, dirent), i, m);
    }
  }

  /** Two handles just opened; the second one's real directory holds one entry. */
  function JustOpened(list: ListState, statAt: StatAt, flags: Flags): seq<ListingState> {
    [ListingState(DirectoryHandle, Some(list), 0, None, statAt, flags),
     ListingState(DirectoryHandle, Some(list), 0, Some([Item("c", DtReg)]), statAt, flags)]
  }

  /** The first handle pauses after `c` of `n` subdirectories, while the second one reaches its real entry. */
  function PauseAt(c: nat, n: nat): seq<nat>
    requires c <= n
  {
    Repeat(0, c) + (Repeat(1, n) + ([1] + Repeat(0, n - c)))
  }

  /** The second handle's real entry makes it ask the child list, which sorts it. */
  lemma SortingRead(s: Shared, dirent: Dirent)
    requires |s.handles| == 2 && s.list.strings != [] && !s.list.sorted
    requires s.handles[1].state.handleType == DirectoryHandle && s.handles[1].state.index >= |s.list.strings|
    requires s.handles[1].state.stream == Some([Item("c", DtReg)])
    ensures var after := Interleave(s, dirent, [1]);
            |after.handles| == 2 && after.list == s.list.Sort() && after.handles[0] == s.handles[0]
  {
    SecondReadSorts(s.handles[1].state.(list := Some(s.list)), dirent);
    assert Interleave(s, dirent, [1]) == Turn(dirent)(Interleave(s, dirent, []), 1) by { assert [1][..0] == []; }
  }

  lemma SecondReadSorts(s: ListingState, dirent: Dirent)
    requires s.list.Some? && s.list.value.strings != [] && !s.list.value.sorted && s.index >= |s.Names()|
    requires s.handleType == DirectoryHandle
    requires s.stream == Some([Item("c", DtReg)])
    ensures Read(s, dirent).state.list == Some(s.list.value.Sort())
  {
    var item, next := s.Unread()[0], s.(stream := Some(s.Unread()[1..]));
    assert s.Unread()[1..] == [];
    assert !Ignored(item) by {
      assert |item.name| == 1 && item.name[0] == 'c';
    }
    var after := StateAfter(next, item);
    assert after.Unread() == [] && after.list == Some(s.list.value.Sort());
    assert ReadStream(after, DirentAfter(s, item, dirent)).state == after;
  }

  lemma SortedLength(strings: seq<CString>)
    ensures |Sorted(strings)| == |strings|
    ensures forall x :: x in Sorted(strings) <==> x in strings
  {
    SortByCorrect(strings, Itself);
    SameElements(Sorted(strings), strings);
  }

  /** What comes of a handle that reads `c` of the names `before`, and the others from `after`. */
  ghost predicate Spliced(shared: Shared, before: seq<CString>, after: seq<CString>, c: nat, flags: Flags)
    requires c <= |before| == |after|
  {
    && |shared.handles| == 2 && shared.handles[0].state.AtEnd()
    && shared.handles[0].outputs == VirtualOutputs(before, 0, c, flags) + VirtualOutputs(after, c, |after| - c, flags)
  }

  /** The pausing handle gets the first `c` names in the old order and the others in the new one. */
  lemma PausedDrain(list: ListState, statAt: StatAt, flags: Flags, dirent: Dirent, c: nat)
    requires list.strings != [] && !list.sorted && c <= |list.strings|
    ensures |Sorted(list.strings)| == |list.strings|
    ensures Spliced(Interleave(Unread(list, JustOpened(list, statAt, flags)), dirent, PauseAt(c, |list.strings|)),
                    list.strings, Sorted(list.strings), c, flags)
  {
    var n, s0 := |list.strings|, Unread(list, JustOpened(list, statAt, flags));
    FoldPhases(Turn(dirent), s0, Repeat(0, c), Repeat(1, n), [1], Repeat(0, n - c));
    PausedReads(s0, flags, dirent, c);
  }

  /** Two unread handles, of which only the second one has a stream. */
  ghost predicate UnreadPair(s: Shared, flags: Flags) {
    && |s.handles| == 2 && s.handles[0].outputs == [] && s.handles[0].state.flags == flags
    && s.handles[0].state.Listable() && s.handles[0].state.list == Some(s.list) && s.handles[0].state.stream == None
    && s.handles[0].state.index == s.handles[1].state.index == 0
    && s.handles[1].state.handleType == DirectoryHandle && s.handles[1].state.stream == Some([Item("c", DtReg)])
  }

  lemma PausedReads(s0: Shared, flags: Flags, dirent: Dirent, c: nat)
    requires UnreadPair(s0, flags) && s0.list.strings != [] && !s0.list.sorted && c <= |s0.list.strings|
    ensures |Sorted(s0.list.strings)| == |s0.list.strings|
    ensures var s1 := Interleave(s0, dirent, Repeat(0, c));
            var s3 := Interleave(Interleave(s1, dirent, Repeat(1, |s0.list.strings|)), dirent, [1]);
            Spliced(Interleave(s3, dirent, Repeat(0, |s0.list.strings| - c)),
                    s0.list.strings, Sorted(s0.list.strings), c, flags)
  {
    PausedMidway(s0, flags, dirent, c);
    var s1 := Interleave(s0, dirent, Repeat(0, c));
    var s3 := Interleave(Interleave(s1, dirent, Repeat(1, |s0.list.strings|)), dirent, [1]);
    PausedRest(s0, s1, s3, flags, dirent, c);
  }

  lemma PausedRest(s0: Shared, s1: Shared, s3: Shared, flags: Flags, dirent: Dirent, c: nat)
    requires UnreadPair(s0, flags) && MovedAway(s0, s1, s3, c)
    ensures Spliced(Interleave(s3, dirent, Repeat(0, |s0.list.strings| - c)),
                    s0.list.strings, s3.list.strings, c, flags)
  {
    VirtualReads(s3, 0, dirent, |s0.list.strings| - c);
    PausedOutputs(s0, s1, s3, Interleave(s3, dirent, Repeat(0, |s0.list.strings| - c)), c, flags);
  }

  /** The first handle has read `c` names and pauses; by `s3` the list may look different. */
  ghost predicate MovedAway(s0: Shared, s1: Shared, s3: Shared, c: nat)
    requires |s0.handles| == 2 && s0.handles[0].state.index == 0
  {
    && c <= |s0.list.strings| == |s3.list.strings| && MovedOn(s0, s1, 0, c)
    && |s3.handles| == 2 && s3.handles[0] == s1.handles[0]
    && s3.handles[0].state.index == c && s3.handles[0].state.handleType == DirectoryHandle
  }

  lemma PausedMidway(s0: Shared, flags: Flags, dirent: Dirent, c: nat)
    requires UnreadPair(s0, flags) && s0.list.strings != [] && !s0.list.sorted && c <= |s0.list.strings|
    ensures |Sorted(s0.list.strings)| == |s0.list.strings|
    ensures var s1 := Interleave(s0, dirent, Repeat(0, c));
            var s3 := Interleave(Interleave(s1, dirent, Repeat(1, |s0.list.strings|)), dirent, [1]);
            && MovedAway(s0, s1, s3, c)
            && s3.list.strings == Sorted(s0.list.strings)
  {
    SortedLength(s0.list.strings);
    VirtualReads(s0, 0, dirent, c);
    SecondReaches(Interleave(s0, dirent, Repeat(0, c)), dirent);
  }

  /** The second handle goes through all subdirectories and reads its real entry; the first one has not moved. */
  lemma SecondReaches(s1: Shared, dirent: Dirent)
    requires |s1.handles| == 2 && s1.list.strings != [] && !s1.list.sorted
    requires s1.handles[1].state.handleType == DirectoryHandle && s1.handles[1].state.index == 0
    requires s1.handles[1].state.stream == Some([Item("c", DtReg)])
    ensures var s3 := Interleave(Interleave(s1, dirent, Repeat(1, |s1.list.strings|)), dirent, [1]);
            |s3.handles| == 2 && s3.list == s1.list.Sort() && s3.handles[0] == s1.handles[0]
  {
    VirtualReads(s1, 1, dirent, |s1.list.strings|);
    SortingRead(Interleave(s1, dirent, Repeat(1, |s1.list.strings|)), dirent);
  }

  lemma FoldPhases<S>(turn: (S, nat) -> S, s: S, a: seq<nat>, b: seq<nat>, c: seq<nat>, d: seq<nat>)
    ensures Fold(turn, s, a + (b + (c + d))) == Fold(turn, Fold(turn, Fold(turn, Fold(turn, s, a), b), c), d)
  {
    FoldAppend(turn, s, a, b + (c + d));
    FoldAppend(turn, Fold(turn, s, a), b, c + d);
    FoldAppend(turn, Fold(turn, Fold(turn, s, a), b), c, d);
  }

  lemma PausedOutputs(s0: Shared, s1: Shared, s3: Shared, s4: Shared, c: nat, flags: Flags)
    requires UnreadPair(s0, flags) && |s3.handles| == 2 && c <= |s0.list.strings| == |s3.list.strings|
    requires MovedOn(s0, s1, 0, c) && s3.handles[0] == s1.handles[0]
    requires MovedOn(s3, s4, 0, |s0.list.strings| - c)
    ensures Spliced(s4, s0.list.strings, s3.list.strings, c, flags)
  {
    var h0, h1, h3, h4 := s0.handles[0], s1.handles[0], s3.handles[0], s4.handles[0];
    assert h4.outputs == h3.outputs + VirtualOutputs(s3.list.strings, c, |s3.list.strings| - c, flags) by {
      assert h3.state.index == c && h3.state.flags == flags;
    }
    assert h3.outputs == VirtualOutputs(s0.list.strings, 0, c, flags) by {
      Neutral(VirtualOutputs(s0.list.strings, 0, c, flags));
    }
    assert h4.state.list in {Some(s0.list), Some(s3.list)};
  }

  lemma {:induction false} AloneVirtuals(s: ListingState, dirent: Dirent, m: nat)
    requires s.handleType == DirectoryHandle && s.list.Some? && s.index == 0 && m <= |s.Names()|
    ensures Alone(s, dirent, m) == Progress(s.(index := m), VirtualOutputs(s.Names(), 0, m, s.flags))
  {
    if m > 0 {
      AloneVirtuals(s, dirent, m - 1);
    }
  }

  /** The names that outputs carry. */
  function NamesOf(outputs: seq<Output>): seq<CString> {
    seq(|outputs|, k requires 0 <= k < |outputs| => outputs[k].dirent.filename)
  }

  predicate NamesFit(names: seq<CString>) {
    forall name | name in names :: |name| <= 255
  }

  lemma {:induction false} FirstDifference(a: seq<CString>, b: seq<CString>) returns (p: nat)
    requires |a| == |b| && a != b
    ensures p < |a| && a[..p] == b[..p] && a[p] != b[p]
  {
    if a[0] != b[0] {
      p := 0;
    } else {
      var q := FirstDifference(a[1..], b[1..]);
      p := q + 1;
      assert a[..p] == [a[0]] + a[1..][..q] && b[..p] == [b[0]] + b[1..][..q];
    }
  }

  /** Where an unordered list first differs from the sorted one. */
  lemma Displaced(strings: seq<CString>) returns (p: nat)
    requires !Ascending(strings)
    ensures multiset(Sorted(strings)) == multiset(strings) && |Sorted(strings)| == |strings|
    ensures p < |strings| && strings[..p] == Sorted(strings)[..p] && strings[p] != Sorted(strings)[p]
  {
    SortByCorrect(strings, Itself);
    SameElements(Sorted(strings), strings);
    p := FirstDifference(strings, Sorted(strings));
  }

  /** A list out of order: of two handles just opened, one makes the other return different names. */
  lemma UnorderedListDisturbs(list: ListState, statAt: StatAt, flags: Flags, dirent: Dirent)
    returns (schedule: seq<nat>)
    requires list.Valid() && !Ascending(list.strings) && NamesFit(list.strings)
    ensures !Undisturbed(list, JustOpened(list, statAt, flags), dirent, schedule)
  {
    var p := Displaced(list.strings);
    schedule := PauseAt(p, |list.strings|);
    SortedFits(list.strings);
    PausedDiffers(list, statAt, flags, dirent, p);
  }

  /** Pausing where the order is about to change, the first handle returns something new. */
  lemma PausedDiffers(list: ListState, statAt: StatAt, flags: Flags, dirent: Dirent, p: nat)
    requires list.strings != [] && !list.sorted && p < |list.strings| == |Sorted(list.strings)|
    requires list.strings[p] != Sorted(list.strings)[p]
    requires |list.strings[p]| <= MAX_NAME && |Sorted(list.strings)[p]| <= MAX_NAME
    ensures var schedule, starts := PauseAt(p, |list.strings|), JustOpened(list, statAt, flags);
            var shared := Interleave(Unread(list, starts), dirent, schedule);
            && |shared.handles| == 2
            && shared.handles[0].outputs != Alone(starts[0], dirent, Turns(schedule, 0)).outputs
  {
    PausedDrain(list, statAt, flags, dirent, p);
    PauseTurns(p, |list.strings|);
    AloneVirtuals(JustOpened(list, statAt, flags)[0], dirent, |list.strings|);
    SplicedDiffer(list.strings, Sorted(list.strings), p, flags);
  }

  lemma SortedFits(strings: seq<CString>)
    requires NamesFit(strings)
    ensures NamesFit(Sorted(strings)) && |Sorted(strings)| == |strings|
    ensures forall k | 0 <= k < |strings| :: |strings[k]| <= MAX_NAME && |Sorted(strings)[k]| <= MAX_NAME
  {
    SortedLength(strings);
    assert forall k | 0 <= k < |strings| :: strings[k] in strings && Sorted(strings)[k] in Sorted(strings);
  }

  lemma SplicedDiffer(a: seq<CString>, b: seq<CString>, p: nat, flags: Flags)
    requires |a| == |b| && p < |a| && a[p] != b[p] && |a[p]| <= MAX_NAME && |b[p]| <= MAX_NAME
    ensures VirtualOutputs(a, 0, p, flags) + VirtualOutputs(b, p, |b| - p, flags) != VirtualOutputs(a, 0, |a|, flags)
  {
    var spliced := VirtualOutputs(a, 0, p, flags) + VirtualOutputs(b, p, |b| - p, flags);
    assert spliced[p].dirent.filename == b[p];
    assert VirtualOutputs(a, 0, |a|, flags)[p].dirent.filename == a[p];
  }

  lemma PauseTurns(c: nat, n: nat)
    requires c <= n
    ensures Turns(PauseAt(c, n), 0) == n
  {
    TurnsPhases(Repeat(0, c), Repeat(1, n), [1], Repeat(0, n - c), 0);
    TurnsRepeat(0, c, 0);
    TurnsRepeat(1, n, 0);
    TurnsRepeat(0, n - c, 0);
    assert Turns([1], 0) == 0 by { assert [1][..0] == []; }
  }

  lemma TurnsPhases(a: seq<nat>, b: seq<nat>, c: seq<nat>, d: seq<nat>, j: nat)
    ensures Turns(a + (b + (c + d)), j) == Turns(a, j) + Turns(b, j) + Turns(c, j) + Turns(d, j)
  {
    TurnsAppend(a, b + (c + d), j);
    TurnsAppend(b, c + d, j);
    TurnsAppend(c, d, j);
  }

  /**
   Two handles just opened can be read so that a complete listing through one of them
   omits a registered subdirectory and returns another one twice.
   */
  lemma UnorderedListLosesName(list: ListState, statAt: StatAt, flags: Flags, dirent: Dirent)
    returns (schedule: seq<nat>, lost: CString)
    requires list.Valid() && !Ascending(list.strings) && NamesFit(list.strings) && NoDuplicates(list.strings)
    ensures var shared := Interleave(Unread(list, JustOpened(list, statAt, flags)), dirent, schedule);
            && |shared.handles| == 2 && shared.handles[0].state.AtEnd()
            && lost in list.strings && lost !in NamesOf(shared.handles[0].outputs)
            && !NoDuplicates(NamesOf(shared.handles[0].outputs))
  {
    var n := |list.strings|;
    var p := Displaced(list.strings);
    schedule := PauseAt(p + 1, n);
    PausedDrain(list, statAt, flags, dirent, p + 1);
    var names, sorted := list.strings, Sorted(list.strings);
    lost := sorted[p];
    SortedFits(names);
    SplicedNames(names, sorted, p + 1, flags);
    LostAndRepeated(names, sorted, p);
  }

  lemma {:induction false} SplicedNames(a: seq<CString>, b: seq<CString>, c: nat, flags: Flags)
    requires |a| == |b| && c <= |a| && NamesFit(a) && NamesFit(b)
    ensures NamesOf(VirtualOutputs(a, 0, c, flags) + VirtualOutputs(b, c, |b| - c, flags)) == a[..c] + b[c..]
  {
    var first, second := VirtualOutputs(a, 0, c, flags), VirtualOutputs(b, c, |b| - c, flags);
    var names := NamesOf(first + second);
    forall k | 0 <= k < |names| ensures names[k] == (a[..c] + b[c..])[k] {
      if k < c {
        assert (first + second)[k] == first[k] && a[k] in a;
      } else {
        assert (first + second)[k] == second[k - c] && b[k] in b;
      }
    }
  }

  lemma LostAndRepeated(a: seq<CString>, b: seq<CString>, p: nat)
    requires NoDuplicates(a) && multiset(a) == multiset(b) && p < |a| == |b|
    requires a[..p] == b[..p] && a[p] != b[p]
    ensures b[p] in a && b[p] !in a[..p + 1] + b[p + 1..] && !NoDuplicates(a[..p + 1] + b[p + 1..])
  {
    SameElements(a, b);
    NoDuplicatesReordered(a, b);
    var spliced := a[..p + 1] + b[p + 1..];
    assert a[p] in b;
    var q :| 0 <= q < |b| && b[q] == a[p];
    assert forall k | 0 <= k < p :: a[k] == a[..p][k] == b[..p][k] == b[k];
    assert spliced[p] == a[p] == spliced[q];
  }

  /**
   Handles just opened on one inode can be read in any interleaving, each returning exactly
   what it would have returned alone, if and only if the child list is in `strcmp` order.
   */
  lemma InterleavingExactly(list: ListState, statAt: StatAt, flags: Flags, dirent: Dirent)
    requires list.Valid() && NamesFit(list.strings)
    ensures Ascending(list.strings) <==>
            forall starts, schedule | OnListFromStart(list, starts) ::
              Undisturbed(list, starts, dirent, schedule)
  {
    if Ascending(list.strings) {
      forall starts, schedule | OnList(list, starts) ensures Undisturbed(list, starts, dirent, schedule) {
        OrderedListInterleaves(list, starts, dirent, schedule);
      }
    } else {
      var schedule := UnorderedListDisturbs(list, statAt, flags, dirent);
      assert OnListFromStart(list, JustOpened(list, statAt, flags));
    }
  }
}
