// The ordering behaviour the scripts rely on from Python's built-in sort:
// `sorted(...)` over file names and `list.sort(key=..., reverse=True)` over
// digest items. Python's sort is stable; it is modelled here by a stable
// insertion sort over a comparison `le` ("may come first").

module Sorting {
  import opened Text

  /** `le` is total and transitive: a total preorder. */
  ghost predicate TotalPreorder<T(!new)>(le: (T, T) -> bool) {
    (forall a, b :: le(a, b) || le(b, a)) &&
    (forall a, b, c :: le(a, b) && le(b, c) ==> le(a, c))
  }

  predicate Sorted<T>(s: seq<T>, le: (T, T) -> bool) {
    forall i, j :: 0 <= i < j < |s| ==> le(s[i], s[j])
  }

  /** Puts `x` before the first element it may precede. */
  function Insert<T>(x: T, s: seq<T>, le: (T, T) -> bool): (r: seq<T>)
    ensures multiset(r) == multiset(s) + multiset{x}
    ensures |r| == |s| + 1
  {
    if s == [] || le(x, s[0]) then [x] + s
    else
      assert s == [s[0]] + s[1..];
      [s[0]] + Insert(x, s[1..], le)
  }

  /** Stable sort: `sorted(s, key=...)` seen through the comparison `le`. */
  function Sort<T>(s: seq<T>, le: (T, T) -> bool): (r: seq<T>)
    ensures multiset(r) == multiset(s)
    ensures |r| == |s|
  {
    if s == [] then []
    else
      assert s == [s[0]] + s[1..];
      Insert(s[0], Sort(s[1..], le), le)
  }

  lemma {:induction false} InsertSorted<T(!new)>(x: T, s: seq<T>, le: (T, T) -> bool)
    requires TotalPreorder(le) && Sorted(s, le)
    ensures Sorted(Insert(x, s, le), le)
  {
    if s != [] && !le(x, s[0]) {
      var t := s[1..];
      assert Sorted(t, le) by {
        forall i, j | 0 <= i < j < |t| ensures le(t[i], t[j]) {
          assert t[i] == s[i + 1] && t[j] == s[j + 1];
        }
      }
      InsertSorted(x, t, le);
      var r := Insert(x, t, le);
      forall k | 0 <= k < |r| ensures le(s[0], r[k]) {
        assert r[k] in multiset(r);
        if r[k] != x {
          assert r[k] in multiset(t);
          var m :| 0 <= m < |t| && t[m] == r[k];
          assert t[m] == s[m + 1];
        }
      }
    }
  }

  /** The result of `Sort` is ordered by `le`. */
  lemma {:induction false} SortSorted<T(!new)>(s: seq<T>, le: (T, T) -> bool)
    requires TotalPreorder(le)
    ensures Sorted(Sort(s, le), le)
  {
    if s != [] {
      SortSorted(s[1..], le);
      InsertSorted(s[0], Sort(s[1..], le), le);
    }
  }

  /** `keep` picks elements that are all equivalent under `le`. */
  ghost predicate Equivalent<T(!new)>(keep: T -> bool, le: (T, T) -> bool) {
    forall a, b :: keep(a) && keep(b) ==> le(a, b)
  }

  lemma {:induction false} FilterInsert<T(!new)>(x: T, s: seq<T>, le: (T, T) -> bool, keep: T -> bool)
    requires Equivalent(keep, le)
    ensures Filter(Insert(x, s, le), keep) == if keep(x) then [x] + Filter(s, keep) else Filter(s, keep)
  {
    if s != [] && !le(x, s[0]) {
      FilterInsert(x, s[1..], le, keep);
      var r := Insert(x, s, le);
      assert r[1..] == Insert(x, s[1..], le);
    }
  }

  /** Stability: elements that compare equal keep their original order. */
  lemma {:induction false} SortStable<T(!new)>(s: seq<T>, le: (T, T) -> bool, keep: T -> bool)
    requires Equivalent(keep, le)
    ensures Filter(Sort(s, le), keep) == Filter(s, keep)
  {
    if s != [] {
      SortStable(s[1..], le, keep);
      FilterInsert(s[0], Sort(s[1..], le), le, keep);
    }
  }

  /** Python's `<=` on `str`: code-point lexicographic order. */
  predicate StrLe(a: string, b: string) {
    if a == [] then true
    else if b == [] then false
    else if a[0] != b[0] then a[0] < b[0]
    else StrLe(a[1..], b[1..])
  }

  lemma {:induction false} StrLeTotal(a: string, b: string)
    ensures StrLe(a, b) || StrLe(b, a)
  {
    if a != [] && b != [] && a[0] == b[0] {
      StrLeTotal(a[1..], b[1..]);
    }
  }

  lemma {:induction false} StrLeTrans(a: string, b: string, c: string)
    requires StrLe(a, b) && StrLe(b, c)
    ensures StrLe(a, c)
  {
    if a != [] && b != [] && c != [] && a[0] == b[0] && b[0] == c[0] {
      StrLeTrans(a[1..], b[1..], c[1..]);
    }
  }

  lemma {:induction false} StrLeAntisymmetric(a: string, b: string)
    requires StrLe(a, b) && StrLe(b, a)
    ensures a == b
  {
    if a != [] && b != [] {
      StrLeAntisymmetric(a[1..], b[1..]);
      assert a == [a[0]] + a[1..] && b == [b[0]] + b[1..];
    }
  }

  lemma StrLeTotalPreorder()
    ensures TotalPreorder((a: string, b: string) => StrLe(a, b))
  {
    forall a: string, b: string ensures StrLe(a, b) || StrLe(b, a) {
      StrLeTotal(a, b);
    }
    forall a: string, b: string, c: string | StrLe(a, b) && StrLe(b, c) ensures StrLe(a, c) {
      StrLeTrans(a, b, c);
    }
  }

  /** `sorted(names)` for a list of `str`. */
  function SortStrings(names: seq<string>): (r: seq<string>)
  {
    Sort(names, (a: string, b: string) => StrLe(a, b))
  }

  /** `sorted(names)` is the ascending arrangement of the same names. */
  lemma SortStringsSpec(names: seq<string>)
    ensures multiset(SortStrings(names)) == multiset(names)
    ensures forall i, j :: 0 <= i < j < |SortStrings(names)| ==> StrLe(SortStrings(names)[i], SortStrings(names)[j])
  {
    StrLeTotalPreorder();
    SortSorted(names, (a: string, b: string) => StrLe(a, b));
  }
}
