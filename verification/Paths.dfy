/**
 Virtual path strings and their meaning as lists of components: how a request
 path is combined with the working directory and normalised (strings.c).
 */
module Paths {
  import opened Options
  import opened Sequences
  import opened CStrings

  //
  // Components
  //

  /** The pieces of `s` between slashes; there is always at least one, and pieces may be empty. */
  function Split(s: string): (tokens: seq<string>)
    ensures |tokens| >= 1
  {
    if s == [] then [""]
    else if s[0] == '/' then [""] + Split(s[1..])
    else var rest := Split(s[1..]); [[s[0]] + rest[0]] + rest[1..]
  }

  /** A string that a directory entry can carry as its name. */
  predicate IsName(name: string) {
    name != "" && '/' !in name && '\0' !in name
  }

  /** A name that denotes an entry rather than a move within the tree. */
  predicate IsComponent(name: string) {
    IsName(name) && name != "." && name != ".."
  }

  predicate AllComponents(cs: seq<string>) {
    forall k | 0 <= k < |cs| :: IsComponent(cs[k])
  }

  /** The stored form of a component list: a slash before each component, hence "" for the root. */
  function Render(cs: seq<string>): string {
    if cs == [] then "" else Render(cs[..|cs| - 1]) + "/" + cs[|cs| - 1]
  }

  /** The canonical absolute path of a component list. */
  function PathText(cs: seq<string>): string {
    if cs == [] then "/" else Render(cs)
  }

  /** The pieces of `s` that are not empty. */
  function NonEmpty(tokens: seq<string>): seq<string> {
    if tokens == [] then []
    else if tokens[0] == "" then NonEmpty(tokens[1..])
    else [tokens[0]] + NonEmpty(tokens[1..])
  }

  /** The non-empty components of a path string. */
  function Components(s: string): seq<string> {
    NonEmpty(Split(s))
  }

  lemma {:induction false} SplitNoSlash(s: string)
    requires '/' !in s
    ensures Split(s) == [s]
  {
    if s != [] {
      SplitNoSlash(s[1..]);
      assert s == [s[0]] + s[1..];
    }
  }

  /** What a character in front does to the pieces behind it. */
  function Prepend(c: char, tokens: seq<string>): seq<string>
    requires |tokens| >= 1
  {
    if c == '/' then [""] + tokens else [[c] + tokens[0]] + tokens[1..]
  }

  lemma SplitCons(c: char, t: string)
    ensures Split([c] + t) == Prepend(c, Split(t))
  {
    assert ([c] + t)[1..] == t;
  }

  lemma PrependJoin(c: char, a: seq<string>, b: seq<string>)
    requires |a| >= 1
    ensures Prepend(c, a + b) == Prepend(c, a) + b
  {
    assert (a + b)[0] == a[0] && (a + b)[1..] == a[1..] + b;
  }

  /** Joining with a slash concatenates the pieces. */
  lemma {:induction false} SplitJoin(a: string, b: string)
    ensures Split(a + "/" + b) == Split(a) + Split(b)
  {
    if a == [] {
      SplitCons('/', b);
      assert a + "/" + b == ['/'] + b;
    } else {
      var c, t := a[0], a[1..];
      assert Split(a) == Prepend(c, Split(t));
      assert Split(a + "/" + b) == Prepend(c, Split(t + "/" + b)) by {
        SplitCons(c, t + "/" + b);
        assert a + "/" + b == [c] + (t + "/" + b);
      }
      SplitJoin(t, b);
      PrependJoin(c, Split(t), Split(b));
    }
  }

  /** The piece that ends at the first slash of `s`, and the pieces behind it. */
  lemma SplitAtSlash(s: string, i: nat)
    requires i < |s| && s[i] == '/' && '/' !in s[..i]
    ensures Split(s) == [s[..i]] + Split(s[i + 1..])
  {
    var a, b := s[..i], s[i + 1..];
    assert s == a + "/" + b;
    SplitNoSlash(a);
    SplitJoin(a, b);
  }

  lemma {:induction false} SplitPieces(s: CString)
    ensures forall t | t in Split(s) :: '/' !in t && '\0' !in t
  {
    if s != [] {
      SplitPieces(s[1..]);
      assert s[0] in s;
      var rest := Split(s[1..]);
      assert rest[0] in rest;
    }
  }

  lemma {:induction false} NonEmptyAppend(a: seq<string>, b: seq<string>)
    ensures NonEmpty(a + b) == NonEmpty(a) + NonEmpty(b)
  {
    if a == [] {
      assert a + b == b;
    } else {
      var ab := a + b;
      assert NonEmpty(ab[1..]) == NonEmpty(a[1..]) + NonEmpty(b) by {
        NonEmptyAppend(a[1..], b);
        assert ab[1..] == a[1..] + b;
      }
      assert ab[0] == a[0];
      assert a[0] != "" ==> NonEmpty(ab) == [a[0]] + (NonEmpty(a[1..]) + NonEmpty(b));
    }
  }

  lemma {:induction false} NonEmptyIdentity(cs: seq<string>)
    requires forall k | 0 <= k < |cs| :: cs[k] != ""
    ensures NonEmpty(cs) == cs
  {
    if cs != [] {
      NonEmptyIdentity(cs[1..]);
    }
  }

  predicate AllNames(cs: seq<string>) {
    forall k | 0 <= k < |cs| :: IsName(cs[k])
  }

  /** Splitting undoes rendering, up to the empty piece before the first slash. */
  lemma {:induction false} SplitRender(cs: seq<string>)
    requires AllNames(cs)
    ensures Split(Render(cs)) == [""] + cs
  {
    if cs != [] {
      var init, last := cs[..|cs| - 1], cs[|cs| - 1];
      SplitRender(init);
      SplitJoin(Render(init), last);
      SplitNoSlash(last);
      assert [""] + init + [last] == [""] + cs;
    }
  }

  lemma SplitPathText(cs: seq<string>)
    requires AllNames(cs)
    ensures Split(PathText(cs)) == if cs == [] then ["", ""] else [""] + cs
  {
    SplitRender(cs);
    if cs == [] {
      SplitJoin("", "");
      assert "" + "/" + "" == "/";
    }
  }

  /** Rendering loses nothing: the component list can be read back. */
  lemma ComponentsOfRender(cs: seq<string>)
    requires AllNames(cs)
    ensures Components(Render(cs)) == cs && Components(PathText(cs)) == cs
  {
    SplitRender(cs);
    SplitPathText(cs);
    NonEmptyIdentity(cs);
    NonEmptyAppend([""], cs);
  }

  lemma ComponentsJoin(a: string, b: string)
    ensures Components(a + "/" + b) == Components(a) + Components(b)
  {
    SplitJoin(a, b);
    NonEmptyAppend(Split(a), Split(b));
  }

  lemma {:induction false} RenderShape(cs: seq<string>)
    requires AllNames(cs)
    ensures '\0' !in Render(cs) && '\0' !in PathText(cs)
    ensures cs != [] ==> |Render(cs)| > |Render(cs[..|cs| - 1])| + 1 && Render(cs)[0] == '/'
    ensures cs != [] ==> Render(cs)[|Render(cs)| - 1] != '/'
  {
    if cs != [] {
      var init, last := cs[..|cs| - 1], cs[|cs| - 1];
      RenderShape(init);
      assert last[|last| - 1] in last;
    }
  }

  lemma {:induction false} RenderAppend(a: seq<string>, b: seq<string>)
    ensures Render(a + b) == Render(a) + Render(b)
  {
    if b == [] {
      assert a + b == a;
    } else {
      var ab, init := a + b, b[..|b| - 1];
      assert Render(ab[..|ab| - 1]) == Render(a) + Render(init) by {
        RenderAppend(a, init);
        assert ab[..|ab| - 1] == a + init;
      }
      assert ab[|ab| - 1] == b[|b| - 1];
    }
  }

  //
  // The stack machine that gives a path its meaning
  //

  /** One piece of a path: skipped, moving up (never above the root), or descending. */
  function Push(stack: seq<string>, token: string): seq<string> {
    if token == "" || token == "." then stack
    else if token == ".." then (if stack == [] then [] else stack[..|stack| - 1])
    else stack + [token]
  }

  function Run(stack: seq<string>, tokens: seq<string>): seq<string>
    decreases |tokens|
  {
    if tokens == [] then stack else Run(Push(stack, tokens[0]), tokens[1..])
  }

  /** The directory that an absolute path denotes. */
  function Resolve(path: string): seq<string> {
    Run([], Split(path))
  }

  lemma {:induction false} RunAppend(stack: seq<string>, a: seq<string>, b: seq<string>)
    ensures Run(stack, a + b) == Run(Run(stack, a), b)
    decreases |a|
  {
    if a == [] {
      Neutral(b);
    } else {
      TailOfSum(a, b);
      RunAppend(Push(stack, a[0]), a[1..], b);
    }
  }

  lemma {:induction false} RunKeepsComponents(stack: seq<string>, tokens: seq<string>)
    requires AllComponents(stack)
    requires forall t | t in tokens :: '/' !in t && '\0' !in t
    ensures AllComponents(Run(stack, tokens))
    decreases |tokens|
  {
    if tokens != [] {
      assert tokens[0] in tokens;
      RunKeepsComponents(Push(stack, tokens[0]), tokens[1..]);
    }
  }

  /** Whatever the request, the resolved directory has no empty, "." or ".." component. */
  lemma ResolveIsCanonical(path: CString)
    ensures AllComponents(Resolve(path))
    ensures '\0' !in PathText(Resolve(path))
  {
    SplitPieces(path);
    RunKeepsComponents([], Split(path));
    RenderShape(Resolve(path));
  }

  lemma {:induction false} RunDescends(stack: seq<string>, cs: seq<string>)
    requires AllComponents(cs)
    ensures Run(stack, cs) == stack + cs
    decreases |cs|
  {
    if cs != [] {
      RunDescends(stack + [cs[0]], cs[1..]);
      assert stack + [cs[0]] + cs[1..] == stack + cs;
    } else {
      assert stack + cs == stack;
    }
  }

  /** A canonical path denotes its own components. */
  lemma ResolvePathText(cs: seq<string>)
    requires AllComponents(cs)
    ensures Resolve(PathText(cs)) == cs
    ensures Resolve(Render(cs)) == cs
  {
    SplitPathText(cs);
    SplitRender(cs);
    RunDescends([], cs);
    assert Run([], [""] + cs) == Run([], cs) by { RunAppend([], [""], cs); }
    assert [] + cs == cs;
  }

  lemma ResolveJoin(a: string, b: string)
    ensures Resolve(a + "/" + b) == Run(Resolve(a), Split(b))
  {
    SplitJoin(a, b);
    RunAppend([], Split(a), Split(b));
  }

  //
  // Normalisation
  //

  predicate IsAbsolute(path: CString) {
    At(path, 0) == '/'
  }

  /** The first `len` characters of the buffer are the canonical path of `stack`. */
  ghost predicate Holds(buf: array<char>, len: nat, stack: seq<string>)
    reads buf
  {
    AllComponents(stack) && 1 <= len <= buf.Length && buf[..len] == PathText(stack)
  }

  /** Where the last component of a canonical path starts; 1 for the root. */
  ghost function LastStart(stack: seq<string>): nat {
    if stack == [] then 1 else |Render(stack[..|stack| - 1])| + 1
  }

  /** The text of a component behind a slash holds no further slash. */
  lemma TailText(head: string, last: string)
    requires '/' !in last
    ensures var text := head + "/" + last;
            && |text| == |head| + 1 + |last| && text[|head|] == '/' && text[..|head|] == head
            && forall k | |head| < k < |text| :: text[k] != '/'
  {
    assert forall k | 0 <= k < |last| :: last[k] in last;
    assert forall k | |head| < k < |head| + 1 + |last| :: (head + "/" + last)[k] == last[k - |head| - 1];
  }

  /** The last component holds no slash, and the text before it is the parent's path. */
  lemma PathTextTail(stack: seq<string>)
    requires AllComponents(stack)
    ensures var text, start, up := PathText(stack), LastStart(stack), Push(stack, "..");
            && start <= |text| && text[start - 1] == '/' && AllComponents(up)
            && text[..if start == 1 then 1 else start - 1] == PathText(up)
            && forall k | start <= k < |text| :: text[k] != '/'
  {
    if stack != [] {
      var init, last := stack[..|stack| - 1], stack[|stack| - 1];
      RenderShape(init);
      TailText(Render(init), last);
      assert init == [] <==> Render(init) == "";
    }
  }

  /** Drops the last component from the buffer, keeping the initial slash. */
  method Backtrack(result: array<char>, resultLen: nat, ghost stack: seq<string>) returns (newLen: nat)
    requires Holds(result, resultLen, stack)
    ensures newLen <= resultLen
    ensures Holds(result, newLen, Push(stack, ".."))
  {
    newLen := resultLen;
    PathTextTail(stack);
    ghost var text, up := PathText(stack), Push(stack, "..");
    assert result[..resultLen] == text;
    assert forall k | 0 <= k < resultLen :: result[k] == text[k];
    while newLen > 1 && result[newLen - 1] != '/'
      invariant LastStart(stack) <= newLen <= resultLen
    {
      newLen := newLen - 1;
    }
    newLen := newLen - 1;
    if newLen == 0 {
      // The root keeps its slash
      newLen := 1;
    }
    assert result[..newLen] == text[..newLen] == PathText(up);
  }

  /** Only the root's path ends in a slash. */
  lemma SlashText(stack: seq<string>)
    requires AllComponents(stack)
    ensures var text := PathText(stack);
            && text != "" && (text[|text| - 1] == '/' <==> stack == [])
            && Render(stack) + "/" == if stack == [] then text else text + "/"
  {
    RenderShape(stack);
  }

  lemma PushedText(stack: seq<string>, token: string)
    requires AllComponents(stack) && IsComponent(token)
    ensures AllComponents(Push(stack, token)) && PathText(Push(stack, token)) == Render(stack) + "/" + token
  {
    assert Push(stack, token) == stack + [token];
    InitLast(stack, token);
  }

  /** Ends the buffer's text in a slash. */
  method AddSlash(result: array<char>, resultLen: nat, ghost stack: seq<string>) returns (newLen: nat)
    requires Holds(result, resultLen, stack) && (stack == [] || resultLen < result.Length)
    modifies result
    ensures newLen == |Render(stack)| + 1 <= result.Length && result[..newLen] == Render(stack) + "/"
    ensures newLen == resultLen + if stack == [] then 0 else 1
  {
    newLen := resultLen;
    SlashText(stack);
    assert result[newLen - 1] == result[..resultLen][resultLen - 1];
    if result[newLen - 1] != '/' {
      result[newLen] := '/';
      newLen := newLen + 1;
      TakeMore(result[..], PathText(stack), "/");
    }
  }

  /** Copies `token` behind the buffer's current text, with a slash in between where needed. */
  method Append(result: array<char>, resultLen: nat, token: CString, ghost stack: seq<string>)
    returns (newLen: nat)
    requires Holds(result, resultLen, stack) && IsComponent(token)
    requires resultLen + (if stack == [] then 0 else 1) + |token| <= result.Length
    modifies result
    ensures newLen == resultLen + (if stack == [] then 0 else 1) + |token|
    ensures Holds(result, newLen, Push(stack, token))
  {
    newLen := AddSlash(result, resultLen, stack);
    forall k | 0 <= k < |token| {
      result[newLen + k] := token[k];
    }
    TakeMore(result[..], Render(stack) + "/", token);
    newLen := newLen + |token|;
    PushedText(stack, token);
  }

  /**
   Where the path leads when scanning continues at index `i` with a piece open since `token`
   and `stack` holding the pieces before it.
   */
  function Scan(path: string, token: nat, i: nat, stack: seq<string>): seq<string>
    requires token <= i <= |path|
    decreases |path| - i
  {
    if i == |path| then Push(stack, path[token..i])
    else if path[i] == '/' then Scan(path, i + 1, i + 1, Push(stack, path[token..i]))
    else Scan(path, token, i + 1, stack)
  }

  /** Scanning character by character is running the stack machine on the pieces. */
  lemma {:induction false} ScanIsRun(path: string, token: nat, i: nat, stack: seq<string>)
    requires token <= i <= |path| && '/' !in path[token..i]
    ensures Scan(path, token, i, stack) == Run(stack, Split(path[token..]))
    decreases |path| - i
  {
    var rest := path[token..];
    if i == |path| {
      assert rest == path[token..i];
      assert Split(rest) == [rest] by { SplitNoSlash(rest); }
      assert Run(stack, [rest]) == Run(Push(stack, rest), []);
    } else if path[i] == '/' {
      assert Split(rest) == [path[token..i]] + Split(path[i + 1..]) by {
        assert rest[..i - token] == path[token..i] && rest[i - token + 1..] == path[i + 1..];
        SplitAtSlash(rest, i - token);
      }
      ScanIsRun(path, i + 1, i + 1, Push(stack, path[token..i]));
    } else {
      ScanIsRun(path, token, i + 1, stack);
    }
  }

  lemma ScanResolves(path: CString)
    requires IsAbsolute(path)
    ensures Scan(path, 1, 1, []) == Resolve(path)
  {
    ScanIsRun(path, 0, 0, []);
    assert path[0..] == path && path[0..0] == "";
    assert Scan(path, 0, 0, []) == Scan(path, 1, 1, Push([], ""));
  }

  /** Comparing with `strncmp` over its length tells the kinds of pieces apart. */
  lemma PieceKind(path: CString, token: nat, i: nat)
    requires token <= i <= |path| && '/' !in path[token..i]
    ensures var piece, n := path[token..i], i - token;
            && (n == 0 || StrncmpEqual(path[token..], ".", n) <==> piece == "" || piece == ".")
            && (n > 0 && piece != "." ==> (StrncmpEqual(path[token..], "..", n) <==> piece == ".."))
            && (piece != "" && piece != "." && piece != ".." ==> IsComponent(piece))
  {
    var piece := path[token..i];
    assert path[token..][..i - token] == piece;
    StrncmpDecidesPrefix(path[token..], ".", i - token);
    StrncmpDecidesPrefix(path[token..], "..", i - token);
    assert "."[..1] == "." && ".."[..2] == ".." && ".."[..1] == ".";
  }

  /** Applies the piece `path[token..i]` to the buffer. */
  method ApplyPiece(result: array<char>, resultLen: nat, path: CString, token: nat, i: nat,
                    ghost stack: seq<string>)
    returns (newLen: nat)
    requires 1 <= token <= i <= |path| < result.Length && '/' !in path[token..i]
    requires Holds(result, resultLen, stack)
    requires resultLen == 1 || resultLen < token
    modifies result
    ensures newLen == 1 || newLen <= i
    ensures Holds(result, newLen, Push(stack, path[token..i]))
  {
    var tokenLen := i - token;
    PieceKind(path, token, i);
    newLen := resultLen;
    if tokenLen == 0 || StrncmpEqual(path[token..], ".", tokenLen) {
      // Such a piece leads nowhere
    } else if StrncmpEqual(path[token..], "..", tokenLen) {
      newLen := Backtrack(result, resultLen, stack);
    } else {
      newLen := Append(result, resultLen, path[token..i], stack);
    }
  }

  /** A piece grows by a character that is not a slash. */
  lemma PieceGrows(path: string, start: nat, i: nat)
    requires start <= i < |path| && '/' !in path[start..i] && path[i] != '/'
    ensures '/' !in path[start..i + 1]
  {
    assert path[start..i + 1] == path[start..i] + [path[i]];
  }

  /** One character of the scan. */
  lemma ScanStep(path: string, token: nat, i: nat, stack: seq<string>)
    requires token <= i <= |path|
    ensures Scan(path, token, i, stack) ==
              if i == |path| then Push(stack, path[token..i])
              else if path[i] == '/' then Scan(path, i + 1, i + 1, Push(stack, path[token..i]))
              else Scan(path, token, i + 1, stack)
  {
  }

  /** `sanitize_absolute_path`: NULL on a relative path, otherwise the canonical path it denotes. */
  method SanitizeAbsolutePath(path: CString) returns (r: Option<CString>)
    ensures !IsAbsolute(path) ==> r == None
    ensures IsAbsolute(path) ==> r.Some? && r.value == PathText(Resolve(path))
  {
    if !IsAbsolute(path) {
      return None;
    }
    var pathLen := |path|;
    var result := new char[pathLen + 1];
    var resultLen := 1;
    result[0] := '/';
    var token := 1;
    ghost var stack: seq<string> := [];
    for i := 1 to pathLen + 1
      invariant 1 <= token <= i
      invariant i <= pathLen ==> '/' !in path[token..i]
      // The buffer is the rendered stack and never longer than what was read.
      invariant Holds(result, resultLen, stack)
      invariant resultLen == 1 || resultLen < token
      invariant Scan(path, 1, 1, []) == if i <= pathLen then Scan(path, token, i, stack) else stack
    {
      var nextChar := At(path, i);
      NulOnlyAtEnd(path, i);
      ScanStep(path, token, i, stack);
      if nextChar == '/' || nextChar == '\0' {
        resultLen := ApplyPiece(result, resultLen, path, token, i, stack);
        stack := Push(stack, path[token..i]);
        token := i + 1;
      } else {
        PieceGrows(path, token, i);
      }
    }
    ScanResolves(path);
    ResolveIsCanonical(path);
    var text := Terminate(result, resultLen);
    r := Some(text);
  }

  /** The absolute path that a request stands for before normalisation. */
  function AbsolutePath(cwd: string, path: string): string {
    if path != "" && path[0] == '/' then path else cwd + "/" + path
  }

  /** The directory a request denotes, relative to a working directory that is empty or absolute. */
  function RequestComponents(cwd: string, path: string): seq<string> {
    Resolve(AbsolutePath(cwd, path))
  }

  /** `sanitize_path`: NULL exactly when a relative path meets a relative, non-empty working directory. */
  method SanitizePath(cwd: CString, path: CString) returns (r: Option<CString>)
    ensures r == None <==> !IsAbsolute(path) && cwd != "" && !IsAbsolute(cwd)
    ensures r.Some? ==> r.value == PathText(RequestComponents(cwd, path))
    ensures r.Some? ==> AllComponents(RequestComponents(cwd, path))
  {
    ResolveIsCanonical(AbsolutePath(cwd, path));
    if !IsAbsolute(path) {
      var absolutePath := cwd + "/" + path;
      r := SanitizeAbsolutePath(absolutePath);
    } else {
      r := SanitizeAbsolutePath(path);
    }
  }

  //
  // Laws of normalisation
  //

  lemma StepFrom(origin: CString, b: CString)
    requires !IsAbsolute(b)
    ensures RequestComponents(PathText(Resolve(origin)), b) == Resolve(origin + "/" + b)
    ensures RequestComponents(Render(Resolve(origin)), b) == Resolve(origin + "/" + b)
  {
    var there := Resolve(origin);
    ResolveIsCanonical(origin);
    ResolvePathText(there);
    ResolveJoin(origin, b);
    ResolveJoin(PathText(there), b);
    ResolveJoin(Render(there), b);
  }

  lemma AbsolutePathJoin(cwd: string, a: string, b: string)
    requires a != ""
    ensures AbsolutePath(cwd, a + "/" + b) == AbsolutePath(cwd, a) + "/" + b
  {
    assert (a + "/" + b)[0] == a[0];
    assert cwd + "/" + (a + "/" + b) == (cwd + "/" + a) + "/" + b;
  }

  /** An empty first step leads to the working directory, while the joined path starts at the root. */
  lemma EmptyStep(cwd: CString, b: CString)
    requires !IsAbsolute(b)
    ensures RequestComponents(cwd, "") == Resolve(cwd)
    ensures RequestComponents(PathText(Resolve(cwd)), b) == Run(Resolve(cwd), Split(b))
    ensures RequestComponents(Render(Resolve(cwd)), b) == Run(Resolve(cwd), Split(b))
    ensures RequestComponents(cwd, "" + "/" + b) == Run([], Split(b))
  {
    ResolveJoin(cwd, "");
    assert Run(Resolve(cwd), [""]) == Run(Resolve(cwd), []);
    ResolveJoin(cwd, b);
    StepFrom(cwd, b);
    ResolveJoin("", b);
    assert Resolve("") == Run([], []);
  }

  /** From `cwd`, going to `a` and then to `b` leads where `a/b` leads. */
  predicate Composes(cwd: CString, a: CString, b: CString) {
    RequestComponents(PathText(RequestComponents(cwd, a)), b) == RequestComponents(cwd, a + "/" + b)
  }

  /** Resolving in two steps is resolving once, except for an empty first step away from the root. */
  lemma ResolutionComposes(cwd: CString, a: CString, b: CString)
    requires cwd == "" || IsAbsolute(cwd)
    requires (a != "" || Resolve(cwd) == []) && !IsAbsolute(b)
    ensures Composes(cwd, a, b)
    ensures RequestComponents(Render(RequestComponents(cwd, a)), b) == RequestComponents(cwd, a + "/" + b)
  {
    if a == "" {
      EmptyStep(cwd, b);
    } else {
      AbsolutePathJoin(cwd, a, b);
      StepFrom(AbsolutePath(cwd, a), b);
    }
  }

  /** That exception is a real one: exactly then, some second step leads astray. */
  lemma ComposesExactly(cwd: CString, a: CString)
    requires cwd == "" || IsAbsolute(cwd)
    ensures (forall b: CString | !IsAbsolute(b) :: Composes(cwd, a, b)) <==> a != "" || Resolve(cwd) == []
  {
    if a != "" || Resolve(cwd) == [] {
      forall b: CString | !IsAbsolute(b) ensures Composes(cwd, a, b) {
        ResolutionComposes(cwd, a, b);
      }
    } else {
      EmptyStep(cwd, "");
      assert Run(Resolve(cwd), [""]) == Run(Resolve(cwd), []) == Resolve(cwd);
      assert Run([], [""]) == Run([], []);
      assert !Composes(cwd, a, "");
    }
  }

  /** For instance from `/x`: the empty step and then `y` lead to `/x/y`, but `/y` leads to `/y`. */
  lemma EmptyStepDoesNotCompose()
    ensures RequestComponents(PathText(RequestComponents("/x", "")), "y") == ["x", "y"]
    ensures RequestComponents("/x", "" + "/" + "y") == ["y"]
  {
    var x := ["x"];
    assert Render(x) == "/x";
    ResolvePathText(x);
    EmptyStep("/x", "y");
    SplitNoSlash("y");
    RunDescends(x, ["y"]);
    RunDescends([], ["y"]);
  }

  /** Normalising twice changes nothing, whatever the working directory is by then. */
  lemma SanitizeIdempotent(cwd: CString, cwd': CString, path: CString)
    requires cwd == "" || IsAbsolute(cwd)
    ensures var once := PathText(RequestComponents(cwd, path));
            PathText(RequestComponents(cwd', once)) == once
  {
    ResolveIsCanonical(AbsolutePath(cwd, path));
    ResolvePathText(RequestComponents(cwd, path));
    RenderShape(RequestComponents(cwd, path));
  }

  //
  // What the pieces of a path mean
  //

  lemma ResolveRoot()
    ensures Resolve("") == [] && Resolve("/") == []
  {
    assert Resolve("") == Run([], []);
    ResolveJoin("", "");
    assert "" + "/" + "" == "/";
    assert Run([], [""]) == Run([], []);
  }

  /** One more piece behind a slash. */
  lemma PieceLast(a: string, piece: string)
    requires '/' !in piece
    ensures Resolve(a + "/" + piece) == Push(Resolve(a), piece)
  {
    SplitNoSlash(piece);
    ResolveJoin(a, piece);
    assert Run(Resolve(a), [piece]) == Run(Push(Resolve(a), piece), []);
  }

  /** What leads to the same place can be exchanged before a slash. */
  lemma SamePlace(a: string, a': string, b: string)
    requires Resolve(a) == Resolve(a')
    ensures Resolve(a + "/" + b) == Resolve(a' + "/" + b)
  {
    ResolveJoin(a, b);
    ResolveJoin(a', b);
  }

  /** A piece that is empty or "." changes nothing, at the end of a path or inside it. */
  lemma SkippedPieces(a: string, b: string)
    ensures Resolve(a + "/.") == Resolve(a) && Resolve(a + "/") == Resolve(a)
    ensures Resolve(a + "/./" + b) == Resolve(a + "/" + b)
    ensures Resolve(a + "//" + b) == Resolve(a + "/" + b)
  {
    assert Resolve(a + "/.") == Resolve(a) by {
      PieceLast(a, ".");
      Assoc(a, "/", ".");
      assert "/" + "." == "/.";
    }
    assert Resolve(a + "/") == Resolve(a) by {
      PieceLast(a, "");
      Neutral(a + "/");
    }
    SamePlace(a + "/.", a, b);
    SamePlace(a + "/", a, b);
    SlashBehind(a, "/.", b);
    SlashBehind(a, "/", b);
    assert "/." + "/" == "/./" && "/" + "/" == "//";
  }

  lemma SlashBehind(a: string, tail: string, b: string)
    ensures a + tail + "/" + b == a + (tail + "/") + b
  {
  }

  /** Any other name descends by one component. */
  lemma NameDescends(a: string, name: string)
    requires name != "" && '/' !in name && name != "." && name != ".."
    ensures Resolve(a + "/" + name) == Resolve(a) + [name]
  {
    PieceLast(a, name);
  }

  /** And ".." behind it undoes that. */
  lemma UpUndoesDown(a: string, name: string, b: string)
    requires name != "" && '/' !in name && name != "." && name != ".."
    ensures Resolve(a + "/" + name + "/..") == Resolve(a)
    ensures Resolve(a + "/" + name + "/../" + b) == Resolve(a + "/" + b)
  {
    var down := a + "/" + name;
    NameDescends(a, name);
    assert Resolve(down + "/..") == Resolve(a) by {
      PieceLast(down, "..");
      InitLast(Resolve(a), name);
      Assoc(down, "/", "..");
      assert "/" + ".." == "/..";
    }
    SamePlace(down + "/..", a, b);
    SlashBehind(down, "/..", b);
    assert "/.." + "/" == "/../";
  }

  /** At the root ".." stays where it is. */
  lemma UpAtRoot(b: string)
    ensures Resolve("/..") == [] && Resolve("/../" + b) == Resolve("/" + b)
  {
    ResolveRoot();
    PieceLast("", "..");
    assert "" + "/" + ".." == "/..";
    SamePlace("/..", "", b);
    assert "" + "/" + b == "/" + b;
    assert "/.." + "/" + b == "/../" + b;
  }

  /** What precedes a slash decides whether a path is absolute. */
  function Origin(cwd: string, a: string): string {
    if a == "" || a[0] == '/' then a else cwd + "/" + a
  }

  lemma OriginBehind(cwd: string, a: string, tail: string, b: string)
    requires tail != "" && tail[0] == '/'
    ensures AbsolutePath(cwd, a + tail + b) == Origin(cwd, a) + tail + b
  {
    assert a != "" ==> (a + tail + b)[0] == a[0];
    if Origin(cwd, a) == a {
      assert (a + tail + b)[0] == '/';
    } else {
      Assoc(cwd + "/", a, tail);
      Assoc(cwd + "/", a + tail, b);
    }
  }

  /** The same for requests, from any working directory: this is what sanitizing makes of such paths. */
  lemma RequestSkips(cwd: string, a: string, b: string)
    ensures RequestComponents(cwd, a + "/./" + b) == RequestComponents(cwd, a + "/" + b)
    ensures RequestComponents(cwd, a + "//" + b) == RequestComponents(cwd, a + "/" + b)
  {
    OriginBehind(cwd, a, "/./", b);
    OriginBehind(cwd, a, "//", b);
    OriginBehind(cwd, a, "/", b);
    SkippedPieces(Origin(cwd, a), b);
  }

  lemma UpParts(a: string, name: string, b: string)
    ensures a + "/" + name + "/../" + b == a + ("/" + name + "/../") + b
  {
  }

  lemma RequestUp(cwd: string, a: string, name: string, b: string)
    requires name != "" && '/' !in name && name != "." && name != ".."
    ensures RequestComponents(cwd, a + "/" + name + "/../" + b) == RequestComponents(cwd, a + "/" + b)
    ensures RequestComponents(cwd, "/../" + b) == RequestComponents(cwd, "/" + b)
  {
    var origin, tail := Origin(cwd, a), "/" + name + "/../";
    OriginBehind(cwd, a, tail, b);
    OriginBehind(cwd, a, "/", b);
    UpUndoesDown(origin, name, b);
    UpParts(origin, name, b);
    UpParts(a, name, b);
    UpAtRoot(b);
  }
}
