/** Cutting a path into its prefixes, and the symlink check built on it (strings.c). */
module PathSplitting {
  import opened CStrings
  import opened Paths
  import opened PathChecks

  /** One call of a splitter callback. */
  datatype Visit = Visit(prefix: CString, isFull: bool)

  /** A callback: what it makes of its context, and whether splitting goes on. */
  type Callback<!C> = (CString, bool, C) -> (C, bool)

  /** The prefix handed out at index `i`: what precedes a slash, "/" for a leading one, else everything. */
  function PrefixAt(s: CString, i: nat): CString
    requires i < |s|
  {
    if s[i] != '/' then s else if i == 0 then "/" else s[..i]
  }

  /** The visits from index `i` on: one at each slash, and one at the last character. */
  function VisitsFrom(s: CString, i: nat): seq<Visit>
    requires i <= |s|
    decreases |s| - i
  {
    if i == |s| then []
    else if s[i] == '/' || i == |s| - 1 then
      [Visit(PrefixAt(s, i), i == |s| - 1)] + VisitsFrom(s, i + 1)
    else VisitsFrom(s, i + 1)
  }

  function Visits(s: CString): seq<Visit> {
    VisitsFrom(s, 0)
  }

  /** Hands the visits to a callback in order, stopping after the first refusal. */
  function RunVisits<C>(callback: Callback<C>, ctx: C, visits: seq<Visit>): C
    decreases |visits|
  {
    if visits == [] then ctx
    else
      var (next, goOn) := callback(visits[0].prefix, visits[0].isFull, ctx);
      if goOn then RunVisits(callback, next, visits[1..]) else next
  }

  lemma TextCutAt(buf: seq<char>, s: CString, j: nat)
    requires j <= |s| < |buf| && buf[..j] == s[..j] && buf[j] == '\0'
    ensures Text(buf) == s[..j]
  {
    TextOfTerminated(buf, j);
  }

  /**
   `path_split_mutable`: cuts the buffer short with a NUL for the duration of each
   callback and restores it afterwards.
   */
  method PathSplitMutable<C>(path: array<char>, callback: Callback<C>, ctx: C) returns (result: C)
    requires |Text(path[..])| < path.Length
    modifies path
    ensures path[..] == old(path[..])
    ensures result == RunVisits(callback, ctx, Visits(old(Text(path[..]))))
  {
    ghost var s := Text(path[..]);
    var len := |Text(path[..])|;
    result := ctx;
    for i := 0 to len
      invariant path[..] == old(path[..])
      invariant RunVisits(callback, result, VisitsFrom(s, i)) == RunVisits(callback, ctx, Visits(s))
    {
      var isFullPath := i == len - 1;
      var doContinue := true;
      if path[i] == '/' {
        var cut := if i == 0 then 1 else i;
        var saved := path[cut];
        path[cut] := '\0';
        TextCutAt(path[..], s, cut);
        assert Text(path[..]) == PrefixAt(s, i);
        var outcome := callback(Text(path[..]), isFullPath, result);
        result, doContinue := outcome.0, outcome.1;
        path[cut] := saved;
        assert path[..] == old(path[..]);
      } else if isFullPath {
        var outcome := callback(Text(path[..]), isFullPath, result);
        result := outcome.0;
      }
      if !doContinue {
        return;
      }
    }
  }

  /** `path_split`: the same on a copy. */
  method PathSplit<C>(path: CString, callback: Callback<C>, ctx: C) returns (result: C)
    ensures result == RunVisits(callback, ctx, Visits(path))
  {
    var copy := new char[|path| + 1](i => '\0');
    forall k | 0 <= k < |path| {
      copy[k] := path[k];
    }
    assert copy[..][..|path|] == path == path[..|path|];
    TextCutAt(copy[..], path, |path|);
    result := PathSplitMutable(copy, callback, ctx);
  }

  //
  // What is visited
  //

  /** Every visit but the last is marked partial; the last is the path less one trailing slash. */
  lemma {:induction false} LastVisitIsFull(s: CString, i: nat)
    requires i < |s|
    ensures var vs := VisitsFrom(s, i);
            && vs != [] && vs[|vs| - 1] == Visit(if s == "/" then "/" else DropSlash(s), true)
            && forall k | 0 <= k < |vs| - 1 :: !vs[k].isFull
    decreases |s| - i
  {
    if i + 1 < |s| {
      LastVisitIsFull(s, i + 1);
      var rest := VisitsFrom(s, i + 1);
      assert VisitsFrom(s, i) == rest || VisitsFrom(s, i) == [Visit(PrefixAt(s, i), false)] + rest;
    } else {
      assert VisitsFrom(s, i + 1) == [];
    }
  }

  /** The partial visits are exactly the prefixes before the slashes that do not end the path. */
  lemma {:induction false} PartialVisits(s: CString, i: nat, prefix: CString)
    requires i <= |s|
    ensures Visit(prefix, false) in VisitsFrom(s, i)
       <==> exists j | i <= j < |s| - 1 :: s[j] == '/' && prefix == if j == 0 then "/" else s[..j]
    decreases |s| - i
  {
    if i < |s| {
      PartialVisits(s, i + 1, prefix);
      var rest := VisitsFrom(s, i + 1);
      if s[i] == '/' || i == |s| - 1 {
        var first := Visit(PrefixAt(s, i), i == |s| - 1);
        assert forall v :: v in [first] + rest <==> v == first || v in rest;
      }
    }
  }

  /** Splitting stops right after the first refusal, and otherwise reaches the last visit. */
  lemma {:induction false} StopsAfterFirstRefusal<C>(callback: Callback<C>, ctx: C, visits: seq<Visit>)
    returns (n: nat, seen: seq<C>)
    ensures n <= |visits| && |seen| == n + 1
    ensures seen[0] == ctx && seen[n] == RunVisits(callback, ctx, visits)
    ensures forall k | 0 <= k < n :: callback(visits[k].prefix, visits[k].isFull, seen[k]).0 == seen[k + 1]
    ensures forall k | 0 <= k < n - 1 :: callback(visits[k].prefix, visits[k].isFull, seen[k]).1
    ensures n < |visits| ==> n > 0 && !callback(visits[n - 1].prefix, visits[n - 1].isFull, seen[n - 1]).1
    decreases |visits|
  {
    if visits == [] {
      n, seen := 0, [ctx];
    } else {
      var (next, goOn) := callback(visits[0].prefix, visits[0].isFull, ctx);
      if goOn {
        var m, later := StopsAfterFirstRefusal(callback, next, visits[1..]);
        n, seen := m + 1, [ctx] + later;
        assert forall k | 0 < k <= n :: seen[k] == later[k - 1];
        assert forall k | 0 < k < |visits| :: visits[k] == visits[1..][k - 1];
      } else {
        n, seen := 1, [ctx, next];
      }
    }
  }

  /** The visits of a canonical path: the root, then one component more each time. */
  function CanonicalVisit(cs: seq<string>, k: nat): Visit
    requires AllComponents(cs) && k <= |cs|
  {
    RenderShape(cs[..k]);
    Visit(PathText(cs[..k]), k == |cs|)
  }

  lemma {:induction false} SkipToStop(s: CString, i: nat, j: nat)
    requires i <= j <= |s| && '/' !in s[i..j] && j < |s|
    ensures VisitsFrom(s, i) == VisitsFrom(s, j)
    decreases j - i
  {
    if i < j {
      assert s[i] == s[i..j][0];
      assert s[i + 1..j] == s[i..j][1..];
      SkipToStop(s, i + 1, j);
    }
  }

  /** Where component `k` of a canonical path lies. */
  lemma ComponentPosition(cs: seq<string>, k: nat)
    requires AllComponents(cs) && k < |cs|
    ensures var s, o, o' := Render(cs), |Render(cs[..k])|, |Render(cs[..k + 1])|;
            && o + 1 < o' <= |s| && s[o] == '/' && '/' !in s[o + 1..o']
            && s[..o] == Render(cs[..k]) && s[..o'] == Render(cs[..k + 1])
  {
    var head := cs[..k + 1];
    assert head[..k] == cs[..k];
    assert cs == head + cs[k + 1..];
    RenderAppend(head, cs[k + 1..]);
    assert Render(head) == Render(cs[..k]) + "/" + cs[k];
    var o, o' := |Render(cs[..k])|, |Render(head)|;
    assert Render(cs)[..o'] == Render(head);
    assert Render(cs)[o + 1..o'] == cs[k];
  }

  /** The same seen in a path that denotes `cs`, with or without its trailing slash. */
  lemma PositionInPath(path: CString, cs: seq<string>, k: nat)
    requires Denotes(path, cs) && k < |cs|
    ensures var o, o' := |Render(cs[..k])|, |Render(cs[..k + 1])|;
            && o + 1 < o' <= |path| && path[o] == '/' && '/' !in path[o + 1..o']
            && path[..o] == Render(cs[..k]) && path[..o'] == Render(cs[..k + 1])
            && (o' < |path| ==> path[o'] == '/')
            && (k < |cs| - 1 ==> o' < |path| - 1) && (k == |cs| - 1 ==> |path| - 1 <= o')
  {
    var s := Render(cs);
    ComponentPosition(cs, k);
    var o, o' := |Render(cs[..k])|, |Render(cs[..k + 1])|;
    assert s <= path && |path| <= |s| + 1 && (|path| == |s| + 1 ==> path[|s|] == '/');
    assert path[..o'] == s[..o'] && path[..o] == s[..o] && path[o + 1..o'] == s[o + 1..o'];
    if k < |cs| - 1 {
      ComponentPosition(cs, k + 1);
    } else {
      assert cs[..k + 1] == cs;
    }
  }

  /** The visits from component `k` on: first the one that ends with it. */
  lemma {:induction false} VisitStep(path: CString, cs: seq<string>, k: nat)
    requires Denotes(path, cs) && k < |cs|
    ensures |Render(cs[..k])| + 1 <= |Render(cs[..k + 1])| <= |path|
    ensures var from, next := |Render(cs[..k])| + 1, |Render(cs[..k + 1])|;
            if k == |cs| - 1 then VisitsFrom(path, from) == [CanonicalVisit(cs, k + 1)]
            else next < |path| && VisitsFrom(path, from) == [CanonicalVisit(cs, k + 1)] + VisitsFrom(path, next + 1)
  {
    PositionInPath(path, cs, k);
    var from, next := |Render(cs[..k])| + 1, |Render(cs[..k + 1])|;
    if next == |path| {
      var stop := next - 1;
      assert '/' !in path[from..stop] && path[stop] == path[from..next][stop - from];
      SkipToStop(path, from, stop);
      assert path[..|path|] == path;
      assert VisitsFrom(path, stop + 1) == [];
    } else {
      SkipToStop(path, from, next);
      assert PrefixAt(path, next) == Render(cs[..k + 1]);
      assert next == |path| - 1 ==> VisitsFrom(path, next + 1) == [];
    }
  }

  lemma {:induction false} VisitsBelow(path: CString, cs: seq<string>, k: nat)
    requires Denotes(path, cs) && k < |cs|
    ensures |Render(cs[..k])| + 1 <= |path|
    ensures VisitsFrom(path, |Render(cs[..k])| + 1)
         == seq(|cs| - k, j requires 0 <= j < |cs| - k => CanonicalVisit(cs, k + 1 + j))
    decreases |cs| - k
  {
    VisitStep(path, cs, k);
    if k < |cs| - 1 {
      VisitsBelow(path, cs, k + 1);
    }
  }

  /** A canonical path, with or without a trailing slash, is visited directory by directory from the root. */
  lemma VisitsOfCanonical(path: CString, cs: seq<string>)
    requires Denotes(path, cs) && path != ""
    ensures Visits(path) == seq(|cs| + 1, k requires 0 <= k <= |cs| => CanonicalVisit(cs, k))
  {
    if cs == [] {
      assert path == "/";
    } else {
      PositionInPath(path, cs, 0);
      VisitsBelow(path, cs, 0);
      assert cs[..0] == [];
      assert Visits(path) == [Visit("/", false)] + VisitsFrom(path, 1);
    }
  }

  //
  // The symlink check
  //

  datatype LstatResult = LstatOk(isSymlink: bool) | LstatFailed(noEntry: bool)

  /** The host file system as the check sees it. */
  type Lstat = CString -> LstatResult

  datatype SymlinkCheck = SymlinkCheck(criticalError: bool, fileNotFound: bool, containsSymlink: bool)

  function SymlinkCallback(lstat: Lstat): Callback<SymlinkCheck> {
    (prefix: CString, isFull: bool, ctx: SymlinkCheck) =>
      var next := match lstat(prefix)
        case LstatFailed(true) => ctx.(fileNotFound := true)
        case LstatFailed(false) => ctx.(criticalError := true)
        case LstatOk(true) => ctx.(containsSymlink := true)
        case LstatOk(false) => ctx;
      (next, !next.fileNotFound && !next.criticalError && !next.containsSymlink)
  }

  predicate IsPlain(lstat: Lstat, visit: Visit) {
    lstat(visit.prefix) == LstatOk(false)
  }

  /** The verdict on the first prefix that is missing, failing or a symlink. */
  function Verdict(trouble: LstatResult): SymlinkCheck {
    SymlinkCheck(trouble == LstatFailed(false), trouble == LstatFailed(true), trouble == LstatOk(true))
  }

  /** The outcome of checking the visits in order. */
  function CheckVisits(lstat: Lstat, visits: seq<Visit>): SymlinkCheck {
    if visits == [] then Verdict(LstatOk(false))
    else if IsPlain(lstat, visits[0]) then CheckVisits(lstat, visits[1..])
    else Verdict(lstat(visits[0].prefix))
  }

  lemma {:induction false} SymlinkRun(lstat: Lstat, visits: seq<Visit>)
    ensures RunVisits(SymlinkCallback(lstat), Verdict(LstatOk(false)), visits) == CheckVisits(lstat, visits)
  {
    if visits != [] {
      SymlinkRun(lstat, visits[1..]);
    }
  }

  /** The first prefix that is not plain has this outcome. */
  predicate FirstTroubleIs(lstat: Lstat, visits: seq<Visit>, outcome: LstatResult) {
    exists k | 0 <= k < |visits| ::
      lstat(visits[k].prefix) == outcome && forall j | 0 <= j < k :: lstat(visits[j].prefix) == LstatOk(false)
  }

  lemma TroubleAtOnce(lstat: Lstat, first: Visit, rest: seq<Visit>, outcome: LstatResult)
    requires outcome != LstatOk(false) && lstat(first.prefix) != LstatOk(false)
    ensures FirstTroubleIs(lstat, [first] + rest, outcome) <==> lstat(first.prefix) == outcome
  {
    var visits := [first] + rest;
    assert visits[0] == first;
  }

  lemma TroubleLater(lstat: Lstat, first: Visit, rest: seq<Visit>, outcome: LstatResult)
    requires outcome != LstatOk(false) && lstat(first.prefix) == LstatOk(false)
    requires FirstTroubleIs(lstat, rest, outcome)
    ensures FirstTroubleIs(lstat, [first] + rest, outcome)
  {
    var visits := [first] + rest;
    var k :| 0 <= k < |rest| && lstat(rest[k].prefix) == outcome
      && forall j | 0 <= j < k :: lstat(rest[j].prefix) == LstatOk(false);
    assert forall j | 0 < j < |visits| :: visits[j] == rest[j - 1];
    assert lstat(visits[k + 1].prefix) == outcome;
  }

  lemma TroubleEarlier(lstat: Lstat, first: Visit, rest: seq<Visit>, outcome: LstatResult)
    requires outcome != LstatOk(false) && lstat(first.prefix) == LstatOk(false)
    requires FirstTroubleIs(lstat, [first] + rest, outcome)
    ensures FirstTroubleIs(lstat, rest, outcome)
  {
    var visits := [first] + rest;
    var k :| 0 <= k < |visits| && lstat(visits[k].prefix) == outcome
      && forall j | 0 <= j < k :: lstat(visits[j].prefix) == LstatOk(false);
    assert k > 0 && lstat(rest[k - 1].prefix) == outcome by {
      assert visits[0] == first && (k > 0 ==> visits[k] == rest[k - 1]);
    }
    forall j | 0 <= j < k - 1 ensures lstat(rest[j].prefix) == LstatOk(false) {
      assert rest[j] == visits[j + 1];
    }
  }

  lemma FirstTroubleStep(lstat: Lstat, first: Visit, rest: seq<Visit>, outcome: LstatResult)
    requires outcome != LstatOk(false)
    ensures FirstTroubleIs(lstat, [first] + rest, outcome) <==>
            if lstat(first.prefix) == LstatOk(false) then FirstTroubleIs(lstat, rest, outcome)
            else lstat(first.prefix) == outcome
  {
    if lstat(first.prefix) != LstatOk(false) {
      TroubleAtOnce(lstat, first, rest, outcome);
    } else if FirstTroubleIs(lstat, rest, outcome) {
      TroubleLater(lstat, first, rest, outcome);
    } else if FirstTroubleIs(lstat, [first] + rest, outcome) {
      TroubleEarlier(lstat, first, rest, outcome);
    }
  }

  /** Which bit the check sets: that of the first prefix that is a symlink, missing or failing. */
  lemma {:induction false} BitsMean(lstat: Lstat, visits: seq<Visit>)
    ensures var check := CheckVisits(lstat, visits);
            && (check.containsSymlink <==> FirstTroubleIs(lstat, visits, LstatOk(true)))
            && (check.fileNotFound <==> FirstTroubleIs(lstat, visits, LstatFailed(true)))
            && (check.criticalError <==> FirstTroubleIs(lstat, visits, LstatFailed(false)))
  {
    if visits != [] {
      BitsMean(lstat, visits[1..]);
      assert visits == [visits[0]] + visits[1..];
      FirstTroubleStep(lstat, visits[0], visits[1..], LstatOk(true));
      FirstTroubleStep(lstat, visits[0], visits[1..], LstatFailed(true));
      FirstTroubleStep(lstat, visits[0], visits[1..], LstatFailed(false));
    }
  }

  /** `path_contains_symlink` */
  method PathContainsSymlink(path: CString, lstat: Lstat) returns (check: SymlinkCheck)
    ensures check == CheckVisits(lstat, Visits(path))
    ensures check.containsSymlink <==> FirstTroubleIs(lstat, Visits(path), LstatOk(true))
    ensures check.fileNotFound <==> FirstTroubleIs(lstat, Visits(path), LstatFailed(true))
    ensures check.criticalError <==> FirstTroubleIs(lstat, Visits(path), LstatFailed(false))
  {
    BitsMean(lstat, Visits(path));
    SymlinkRun(lstat, Visits(path));
    check := PathSplit(path, SymlinkCallback(lstat), SymlinkCheck(false, false, false));
  }

  /** At most one bit is set, and the first prefix that is not plain decides which. */
  lemma {:induction false} FirstTroubleDecides(lstat: Lstat, visits: seq<Visit>)
    ensures var check := CheckVisits(lstat, visits);
            if forall k | 0 <= k < |visits| :: IsPlain(lstat, visits[k])
            then check == SymlinkCheck(false, false, false)
            else exists k | 0 <= k < |visits| ::
              && !IsPlain(lstat, visits[k])
              && (forall j | 0 <= j < k :: IsPlain(lstat, visits[j]))
              && check == Verdict(lstat(visits[k].prefix))
  {
    if visits != [] {
      var rest := visits[1..];
      FirstTroubleDecides(lstat, rest);
      assert forall k | 0 < k < |visits| :: visits[k] == rest[k - 1];
      if IsPlain(lstat, visits[0]) && !(forall k | 0 <= k < |rest| :: IsPlain(lstat, rest[k])) {
        var k :| 0 <= k < |rest| && !IsPlain(lstat, rest[k])
          && (forall j | 0 <= j < k :: IsPlain(lstat, rest[j]))
          && CheckVisits(lstat, rest) == Verdict(lstat(rest[k].prefix));
        assert !IsPlain(lstat, visits[k + 1]);
      }
    }
  }

  //
  // Recording visits
  //

  /** A callback that only records; it never refuses. */
  function Record(prefix: CString, isFull: bool, seen: seq<Visit>): (seq<Visit>, bool) {
    (seen + [Visit(prefix, isFull)], true)
  }

  lemma {:induction false} RecordRun(seen: seq<Visit>, visits: seq<Visit>)
    ensures RunVisits(Record, seen, visits) == seen + visits
    decreases |visits|
  {
    if visits == [] {
      assert seen + visits == seen;
    } else {
      RecordRun(seen + [visits[0]], visits[1..]);
      assert seen + [visits[0]] + visits[1..] == seen + visits;
    }
  }

  /** The prefixes a callback that never refuses is called with, in order. */
  method CollectVisits(path: CString) returns (visits: seq<Visit>)
    ensures visits == Visits(path)
  {
    RecordRun([], Visits(path));
    visits := PathSplit(path, Record, []);
  }
}
