/** Comparing, trimming and inspecting path strings (strings.c). */
module PathChecks {
  import opened CStrings
  import opened Paths

  //
  // Trailing slashes
  //

  /** `s` without its trailing slashes. */
  function TrimSlashes(s: string): (t: string)
    ensures t <= s && (t == "" || t[|t| - 1] != '/')
    ensures forall k | |t| <= k < |s| :: s[k] == '/'
  {
    if s == "" || s[|s| - 1] != '/' then s else TrimSlashes(s[..|s| - 1])
  }

  lemma TrimAt(s: string, len: nat)
    requires len <= |s| && (len == 0 || s[len - 1] != '/')
    requires forall k | len <= k < |s| :: s[k] == '/'
    ensures TrimSlashes(s) == s[..len]
  {
    var t := TrimSlashes(s);
    assert t == s[..|t|];
    assert |t| > len ==> s[|t| - 1] == '/';
  }

  /** `s` without one trailing slash. */
  function DropSlash(s: string): string {
    if s != "" && s[|s| - 1] == '/' then s[..|s| - 1] else s
  }

  /** There is only one such text: what stands before a final slash, or all of it if there is none. */
  lemma DropSlashMeans(s: string, t: string)
    ensures DropSlash(s) == t <==> s == t + "/" || (s == t && (t == "" || t[|t| - 1] != '/'))
  {
  }

  /** `truncate_trailing_slash`, in place. */
  method TruncateTrailingSlash(path: array<char>)
    requires |Text(path[..])| < path.Length
    modifies path
    ensures Text(path[..]) == TrimSlashes(old(Text(path[..])))
    ensures forall k | |old(Text(path[..]))| <= k < path.Length :: path[k] == old(path[k])
  {
    ghost var s := Text(path[..]);
    var len := |Text(path[..])|;
    while len > 0 && path[len - 1] == '/'
      invariant 0 <= len <= |s| && path[len] == '\0'
      invariant path[..len] == s[..len]
      invariant forall k | len <= k < |s| :: s[k] == '/'
      invariant forall k | |s| <= k < path.Length :: path[k] == old(path[k])
    {
      assert s[..len][len - 1] == '/';
      len := len - 1;
      path[len] := '\0';
    }
    TrimAt(s, len);
    assert path[..][..len] == s[..len];
    TextOfTerminated(path[..], len);
  }

  /** `strdup` followed by truncation of trailing slashes. */
  method TruncatedCopy(s: CString) returns (t: CString)
    ensures t == TrimSlashes(s)
  {
    var copy := new char[|s| + 1](i => '\0');
    forall k | 0 <= k < |s| {
      copy[k] := s[k];
    }
    assert copy[..][..|s|] == s;
    TextOfTerminated(copy[..], |s|);
    TruncateTrailingSlash(copy);
    t := Text(copy[..]);
  }

  /** `pathcmp`: equality up to one trailing slash on either side. */
  method PathCmp(path1: CString, path2: CString) returns (equal: bool)
    ensures equal <==> DropSlash(path1) == DropSlash(path2)
  {
    var len1, len2 := |path1|, |path2|;
    if len1 > 0 && path1[len1 - 1] == '/' {
      len1 := len1 - 1;
    }
    if len2 > 0 && path2[len2 - 1] == '/' {
      len2 := len2 - 1;
    }
    if len1 != len2 {
      return false;
    }
    StrncmpDecidesPrefix(path1, path2, len1);
    return StrncmpEqual(path1, path2, len1);
  }

  /** `path` is the canonical path of `cs`, up to one trailing slash ("" and "/" are the root). */
  predicate Denotes(path: string, cs: seq<string>) {
    AllComponents(cs) && DropSlash(path) == Render(cs)
  }

  /** The forms in which a directory is written or stored all denote it, and only it. */
  lemma CanonicalForms(cs: seq<string>)
    requires AllComponents(cs)
    ensures Denotes(Render(cs), cs) && Denotes(PathText(cs), cs) && Denotes(Render(cs) + "/", cs)
    ensures TrimSlashes(PathText(cs)) == Render(cs) && TrimSlashes(Render(cs)) == Render(cs)
  {
    RenderShape(cs);
    assert (Render(cs) + "/")[..|Render(cs)|] == Render(cs);
  }

  lemma RenderInjective(cs: seq<string>, ds: seq<string>)
    requires AllComponents(cs) && AllComponents(ds) && Render(cs) == Render(ds)
    ensures cs == ds
  {
    ComponentsOfRender(cs);
    ComponentsOfRender(ds);
  }

  //
  // Hidden components
  //

  predicate IsHidden(name: string) {
    name != "" && name[0] == '.'
  }

  /** Some piece of the path starts with a dot. */
  predicate HasHidden(tokens: seq<string>) {
    exists k | 0 <= k < |tokens| :: IsHidden(tokens[k])
  }

  lemma HasHiddenCons(token: string, rest: seq<string>)
    ensures HasHidden([token] + rest) <==> IsHidden(token) || HasHidden(rest)
  {
    var tokens := [token] + rest;
    assert tokens[0] == token;
    assert forall k | 0 <= k < |rest| :: rest[k] == tokens[k + 1];
    assert forall k | 0 < k < |tokens| :: tokens[k] == rest[k - 1];
  }

  /** A first piece that is not hidden can be set aside. */
  lemma HiddenInPiece(s: string, i: nat)
    requires i <= |s| && '/' !in s[..i] && (i < |s| ==> s[i] == '/')
    requires i == 0 || s[0] != '.'
    ensures HasHidden(Split(s)) <==> i < |s| && HasHidden(Split(s[i + 1..]))
  {
    var piece := s[..i];
    if i == |s| {
      assert piece == s;
      assert Split(s) == [piece] + [] by { SplitNoSlash(s); }
      HasHiddenCons(piece, []);
    } else {
      var rest := Split(s[i + 1..]);
      assert Split(s) == [piece] + rest by { SplitAtSlash(s, i); }
      HasHiddenCons(piece, rest);
    }
  }

  lemma HiddenAtStart(s: string)
    requires s != "" && s[0] == '.'
    ensures HasHidden(Split(s))
  {
    assert IsHidden(Split(s)[0]);
  }

  /** Some piece that starts at or behind index `start` is hidden. */
  predicate HiddenFrom(path: string, start: nat)
    requires start <= |path|
  {
    HasHidden(Split(path[start..]))
  }

  /** The piece from `start` to the slash at `i`, or to the end, can be set aside. */
  lemma PieceDone(path: string, start: nat, i: nat)
    requires start <= i <= |path| && '/' !in path[start..i] && (i < |path| ==> path[i] == '/')
    requires i == start || path[start] != '.'
    ensures HiddenFrom(path, start) <==> i < |path| && HiddenFrom(path, i + 1)
  {
    var rest := path[start..];
    assert rest[..i - start] == path[start..i];
    HiddenInPiece(rest, i - start);
    if i < |path| {
      assert rest[i - start + 1..] == path[i + 1..];
    }
  }

  /** A dot at the start of the path or right behind a slash. */
  predicate DotAtStart(path: string, i: nat)
    requires i < |path|
  {
    path[i] == '.' && (i == 0 || path[i - 1] == '/')
  }

  /** `path_contains_hidden`: whether some component starts with a dot, for any string at all. */
  method PathContainsHidden(path: CString) returns (hidden: bool)
    ensures hidden <==> HasHidden(Split(path))
    ensures hidden <==> exists c | c in Components(path) :: IsHidden(c)
    ensures hidden <==> exists i | 0 <= i < |path| :: DotAtStart(path, i)
  {
    HiddenAmongComponents(Split(path));
    assert path[0..] == path;
    var seenSlash := true;
    ghost var start := 0;
    var i := 0;
    while i < |path|
      invariant start <= i <= |path|
      invariant seenSlash <==> i == start
      invariant '/' !in path[start..i]
      invariant start < i ==> path[start] != '.'
      invariant HiddenFrom(path, 0) <==> HiddenFrom(path, start)
      invariant seenSlash <==> i == 0 || path[i - 1] == '/'
      invariant forall j | 0 <= j < i :: !DotAtStart(path, j)
    {
      var nextChar := path[i];
      if nextChar == '/' {
        PieceDone(path, start, i);
        seenSlash := true;
        start := i + 1;
      } else {
        if seenSlash && nextChar == '.' {
          HiddenAtStart(path[start..]);
          assert DotAtStart(path, i);
          return true;
        }
        PieceGrows(path, start, i);
        seenSlash := false;
      }
      assert !DotAtStart(path, i);
      i := i + 1;
    }
    PieceDone(path, start, i);
    return false;
  }

  lemma {:induction false} HiddenAmongComponents(tokens: seq<string>)
    ensures HasHidden(tokens) <==> exists c | c in NonEmpty(tokens) :: IsHidden(c)
  {
    if tokens != [] {
      var rest := tokens[1..];
      HiddenAmongComponents(rest);
      assert tokens == [tokens[0]] + rest;
      HasHiddenCons(tokens[0], rest);
      assert NonEmpty(tokens) == (if tokens[0] == "" then [] else [tokens[0]]) + NonEmpty(rest);
    }
  }
}
