/** Sorting by `strcmp`: what `qsort` leaves behind, whatever algorithm it uses. */
module Sorting {
  import opened CStrings

  predicate AscendingBy<T>(s: seq<T>, key: T -> string) {
    forall i, j | 0 <= i < j < |s| :: StrCmp(key(s[i]), key(s[j])) <= 0
  }

  function InsertBy<T>(x: T, s: seq<T>, key: T -> string): seq<T> {
    if s == [] || StrCmp(key(x), key(s[0])) <= 0 then [x] + s
    else [s[0]] + InsertBy(x, s[1..], key)
  }

  function SortBy<T>(s: seq<T>, key: T -> string): seq<T> {
    if s == [] then [] else InsertBy(s[0], SortBy(s[1..], key), key)
  }

  lemma MultisetTail<T>(s: seq<T>)
    requires s != []
    ensures multiset(s) == multiset(s[1..]) + multiset{s[0]}
    ensures multiset(s[1..]) == multiset(s) - multiset{s[0]}
  {
    assert s == [s[0]] + s[1..];
  }

  lemma {:induction false} InsertByPermutes<T>(x: T, s: seq<T>, key: T -> string)
    ensures multiset(InsertBy(x, s, key)) == multiset(s) + multiset{x}
  {
    if s != [] {
      InsertByPermutes(x, s[1..], key);
      MultisetTail(s);
    }
  }

  lemma {:induction false} InsertByAscends<T>(x: T, s: seq<T>, key: T -> string)
    requires AscendingBy(s, key)
    ensures AscendingBy(InsertBy(x, s, key), key)
  {
    var r := InsertBy(x, s, key);
    if s == [] {
    } else if StrCmp(key(x), key(s[0])) <= 0 {
      forall i, j | 0 <= i < j < |r| ensures StrCmp(key(r[i]), key(r[j])) <= 0 {
        if i == 0 && j > 1 {
          StrCmpTransitive(key(x), key(s[0]), key(s[j - 1]));
        }
      }
    } else {
      var rest := InsertBy(x, s[1..], key);
      InsertByAscends(x, s[1..], key);
      InsertByPermutes(x, s[1..], key);
      StrCmpAntisymmetric(key(x), key(s[0]));
      forall j | 0 <= j < |rest| ensures StrCmp(key(s[0]), key(rest[j])) <= 0 {
        assert rest[j] in multiset(rest);
        assert rest[j] == x || rest[j] in s[1..];
      }
      assert r == [s[0]] + rest;
    }
  }

  /** Sorting keeps every element and orders them. */
  lemma {:induction false} SortByCorrect<T>(s: seq<T>, key: T -> string)
    ensures multiset(SortBy(s, key)) == multiset(s)
    ensures AscendingBy(SortBy(s, key), key)
  {
    if s != [] {
      SortByCorrect(s[1..], key);
      InsertByPermutes(s[0], SortBy(s[1..], key), key);
      InsertByAscends(s[0], SortBy(s[1..], key), key);
      MultisetTail(s);
    }
  }

  lemma SameElements<T>(s: seq<T>, t: seq<T>)
    requires multiset(s) == multiset(t)
    ensures forall x :: x in s <==> x in t
    ensures |s| == |t|
  {
    forall x ensures x in s <==> x in t {
      assert x in s <==> x in multiset(s);
      assert x in t <==> x in multiset(t);
    }
    assert |multiset(s)| == |s| && |multiset(t)| == |t|;
  }

  ghost predicate InjectiveOn<T>(s: seq<T>, key: T -> string) {
    forall i, j | 0 <= i < |s| && 0 <= j < |s| :: key(s[i]) == key(s[j]) ==> s[i] == s[j]
  }

  lemma InjectiveReordered<T>(s: seq<T>, t: seq<T>, key: T -> string)
    requires InjectiveOn(s, key) && multiset(s) == multiset(t)
    ensures InjectiveOn(t, key)
  {
    SameElements(s, t);
    forall i, j | 0 <= i < |t| && 0 <= j < |t| && key(t[i]) == key(t[j]) ensures t[i] == t[j] {
      assert t[i] in s && t[j] in s;
    }
  }

  lemma SameFirst<T>(s: seq<T>, t: seq<T>, key: T -> string)
    requires s != [] && t != [] && s[0] in t && t[0] in s
    requires AscendingBy(s, key) && AscendingBy(t, key) && InjectiveOn(s, key)
    ensures s[0] == t[0]
  {
    StrCmpAntisymmetric(key(s[0]), key(t[0]));
    var i, j :| 0 <= i < |t| && 0 <= j < |s| && t[i] == s[0] && s[j] == t[0];
    assert i > 0 ==> StrCmp(key(t[0]), key(t[i])) <= 0;
    assert j > 0 ==> StrCmp(key(s[0]), key(s[j])) <= 0;
  }

  lemma SameWhole<T>(s: seq<T>, t: seq<T>)
    requires s != [] && t != [] && s[0] == t[0] && s[1..] == t[1..]
    ensures s == t
  {
    assert s == [s[0]] + s[1..] && t == [t[0]] + t[1..];
  }

  /** When equal keys mean equal elements, there is only one way to order them: any sort gives `SortBy`. */
  lemma {:induction false} OrderIsUnique<T>(s: seq<T>, t: seq<T>, key: T -> string)
    requires multiset(s) == multiset(t)
    requires AscendingBy(s, key) && AscendingBy(t, key) && InjectiveOn(s, key)
    ensures s == t
  {
    SameElements(s, t);
    if s != [] {
      SameFirst(s, t, key);
      MultisetTail(s);
      MultisetTail(t);
      OrderIsUnique(s[1..], t[1..], key);
      SameWhole(s, t);
    }
  }

  lemma SortUnchanged<T>(s: seq<T>, key: T -> string)
    requires AscendingBy(s, key) && InjectiveOn(s, key)
    ensures SortBy(s, key) == s
  {
    SortByCorrect(s, key);
    OrderIsUnique(s, SortBy(s, key), key);
  }
}
