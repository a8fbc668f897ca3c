/** Stable sorting by a numeric key, filtering, and selection by a list of bits. */
module Sorting {

  ghost predicate SortedBy<T>(key: T -> nat, s: seq<T>)
  {
    forall i, j :: 0 <= i < j < |s| ==> key(s[i]) <= key(s[j])
  }

  /** Inserts after the elements of smaller or equal key. */
  function InsertBy<T>(key: T -> nat, s: seq<T>, x: T): seq<T>
  {
    if s == [] then [x]
    else if key(x) < key(s[0]) then [x] + s
    else [s[0]] + InsertBy(key, s[1..], x)
  }

  /** `slice::sort_by`, which is stable. */
  function SortBy<T>(key: T -> nat, s: seq<T>): seq<T>
  {
    if s == [] then [] else InsertBy(key, SortBy(key, s[..|s| - 1]), s[|s| - 1])
  }

  lemma {:induction false} InsertByContents<T>(key: T -> nat, s: seq<T>, x: T)
    ensures multiset(InsertBy(key, s, x)) == multiset(s) + multiset{x}
  {
    if s != [] {
      assert s == [s[0]] + s[1..];
      if key(x) >= key(s[0]) {
        InsertByContents(key, s[1..], x);
      }
    }
  }

  lemma {:induction false} InsertBySorted<T>(key: T -> nat, s: seq<T>, x: T)
    requires SortedBy(key, s)
    ensures SortedBy(key, InsertBy(key, s, x))
  {
    if s != [] && key(x) >= key(s[0]) {
      var rest := InsertBy(key, s[1..], x);
      InsertBySorted(key, s[1..], x);
      InsertByContents(key, s[1..], x);
      forall j | 0 <= j < |rest| ensures key(s[0]) <= key(rest[j]) {
        assert rest[j] in multiset(rest);
        assert rest[j] == x || rest[j] in s[1..];
      }
    }
  }

  lemma {:induction false} SortByCorrect<T>(key: T -> nat, s: seq<T>)
    ensures SortedBy(key, SortBy(key, s))
    ensures multiset(SortBy(key, s)) == multiset(s)
    ensures |SortBy(key, s)| == |s|
  {
    if s != [] {
      var init := s[..|s| - 1];
      SortByCorrect(key, init);
      InsertBySorted(key, SortBy(key, init), s[|s| - 1]);
      InsertByContents(key, SortBy(key, init), s[|s| - 1]);
      assert s == init + [s[|s| - 1]];
    }
    assert |multiset(SortBy(key, s))| == |multiset(s)|;
  }

  lemma {:induction false} InsertLast<T>(key: T -> nat, s: seq<T>, x: T)
    requires forall i :: 0 <= i < |s| ==> key(s[i]) <= key(x)
    ensures InsertBy(key, s, x) == s + [x]
  {
    if s != [] {
      InsertLast(key, s[1..], x);
      assert s == [s[0]] + s[1..];
    }
  }

  lemma {:induction false} SortBySorted<T>(key: T -> nat, s: seq<T>)
    requires SortedBy(key, s)
    ensures SortBy(key, s) == s
  {
    if s != [] {
      var n := |s| - 1;
      SortBySorted(key, s[..n]);
      InsertLast(key, s[..n], s[n]);
      assert s == s[..n] + [s[n]];
    }
  }

  lemma SortByMember<T>(key: T -> nat, s: seq<T>, x: T)
    ensures x in SortBy(key, s) <==> x in s
  {
    SortByCorrect(key, s);
    assert x in multiset(SortBy(key, s)) <==> x in multiset(s);
  }

  function FilterBy<T>(p: T -> bool, s: seq<T>): (r: seq<T>)
  {
    if s == [] then [] else (if p(s[0]) then [s[0]] else []) + FilterBy(p, s[1..])
  }

  lemma {:induction false} FilterByMember<T>(p: T -> bool, s: seq<T>, x: T)
    ensures x in FilterBy(p, s) <==> x in s && p(x)
  {
    if s != [] {
      FilterByMember(p, s[1..], x);
      assert s == [s[0]] + s[1..];
    }
  }

  lemma {:induction false} FilterByConcat<T>(p: T -> bool, a: seq<T>, b: seq<T>)
    ensures FilterBy(p, a + b) == FilterBy(p, a) + FilterBy(p, b)
  {
    hide FilterBy;
    if a == [] {
      FilterByNone(p);
      assert a + b == b;
    } else {
      FilterByFirst(p, a);
      FilterByFirst(p, a + b);
      assert (a + b)[1..] == a[1..] + b;
      FilterByConcat(p, a[1..], b);
      Associative(if p(a[0]) then [a[0]] else [], FilterBy(p, a[1..]), FilterBy(p, b));
    }
  }

  lemma Associative<T>(a: seq<T>, b: seq<T>, c: seq<T>)
    ensures a + (b + c) == a + b + c
  {
  }

  lemma FilterByNone<T>(p: T -> bool)
    ensures FilterBy(p, []) == []
  {
  }

  lemma FilterByFirst<T>(p: T -> bool, s: seq<T>)
    requires s != []
    ensures FilterBy(p, s) == (if p(s[0]) then [s[0]] else []) + FilterBy(p, s[1..])
  {
  }

  /** Filtering keeps all exactly if all satisfy `p`, and none exactly if none does. */
  lemma {:induction false} FilterByCount<T>(p: T -> bool, s: seq<T>)
    ensures |FilterBy(p, s)| <= |s|
    ensures |FilterBy(p, s)| == |s| <==> forall i :: 0 <= i < |s| ==> p(s[i])
    ensures |FilterBy(p, s)| == |s| ==> FilterBy(p, s) == s
    ensures |FilterBy(p, s)| == 0 <==> forall i :: 0 <= i < |s| ==> !p(s[i])
  {
    if s != [] {
      FilterByCount(p, s[1..]);
      assert forall i :: 0 < i < |s| ==> s[i] == s[1..][i - 1];
      assert s == [s[0]] + s[1..];
    }
  }

  function MapBy<T, R>(f: T -> R, s: seq<T>): (r: seq<R>)
    ensures |r| == |s| && forall i :: 0 <= i < |s| ==> r[i] == f(s[i])
  {
    seq(|s|, i requires 0 <= i < |s| => f(s[i]))
  }

  /** `filter` and then `map`. */
  function FilterMap<T, R>(p: T -> bool, f: T -> R, s: seq<T>): seq<R>
  {
    MapBy(f, FilterBy(p, s))
  }

  lemma FilterMapMember<T, R>(p: T -> bool, f: T -> R, s: seq<T>, y: R)
    ensures y in FilterMap(p, f, s) <==> exists x :: x in s && p(x) && f(x) == y
  {
    var kept := FilterBy(p, s);
    if y in FilterMap(p, f, s) {
      var i :| 0 <= i < |kept| && f(kept[i]) == y;
      FilterByMember(p, s, kept[i]);
    }
    forall x | x in s && p(x) && f(x) == y ensures y in FilterMap(p, f, s) {
      FilterByMember(p, s, x);
      var i :| 0 <= i < |kept| && kept[i] == x;
      assert FilterMap(p, f, s)[i] == y;
    }
  }

  lemma FilterMapAppend<T, R>(p: T -> bool, f: T -> R, s: seq<T>, x: T)
    ensures FilterMap(p, f, s + [x]) == FilterMap(p, f, s) + (if p(x) then [f(x)] else [])
  {
    FilterByConcat(p, s, [x]);
    assert FilterBy(p, [x][1..]) == [];
  }

  lemma FilterMapFirst<T, R>(p: T -> bool, f: T -> R, s: seq<T>)
    requires s != []
    ensures FilterMap(p, f, s) == (if p(s[0]) then [f(s[0])] else []) + FilterMap(p, f, s[1..])
  {
  }

  lemma {:induction false} FilterBySorted<T>(key: T -> nat, p: T -> bool, s: seq<T>)
    requires SortedBy(key, s)
    ensures SortedBy(key, FilterBy(p, s))
  {
    if s != [] {
      FilterBySorted(key, p, s[1..]);
      var rest := FilterBy(p, s[1..]);
      forall j | 0 <= j < |rest| ensures key(s[0]) <= key(rest[j]) {
        FilterByMember(p, s[1..], rest[j]);
      }
    }
  }

  ghost predicate Distinct<T(!new)>(s: seq<T>)
  {
    forall x: T :: multiset(s)[x] <= 1
  }

  // --- Selection ---

  /** The elements whose bit is set; the zip stops at the shorter list. */
  function Selected<T>(bits: seq<bool>, s: seq<T>): seq<T>
  {
    if bits == [] || s == [] then [] else (if bits[0] then [s[0]] else []) + Selected(bits[1..], s[1..])
  }

  /** How many of the first `n` bits are set. */
  ghost function Rank(bits: seq<bool>, n: nat): nat
  {
    |set j: nat | j < n && j < |bits| && bits[j]|
  }

  lemma RankNext(bits: seq<bool>, n: nat)
    requires n < |bits|
    ensures Rank(bits, n + 1) == Rank(bits, n) + (if bits[n] then 1 else 0)
  {
    var before := set j: nat | j < n && j < |bits| && bits[j];
    var after := set j: nat | j < n + 1 && j < |bits| && bits[j];
    assert after == if bits[n] then before + {n} else before;
  }

  lemma {:induction false} SelectedAppend<T>(bits: seq<bool>, s: seq<T>, b: bool, x: T)
    requires |bits| == |s|
    ensures Selected(bits + [b], s + [x]) == Selected(bits, s) + (if b then [x] else [])
  {
    if bits == [] {
      assert bits + [b] == [b] && s + [x] == [x];
    } else {
      SelectedAppend(bits[1..], s[1..], b, x);
      assert (bits + [b])[1..] == bits[1..] + [b] && (s + [x])[1..] == s[1..] + [x];
    }
  }

  lemma SelectedNext<T>(bits: seq<bool>, s: seq<T>, n: nat)
    requires n < |bits| && n < |s|
    ensures Selected(bits[..n + 1], s[..n + 1]) == Selected(bits[..n], s[..n]) + (if bits[n] then [s[n]] else [])
  {
    SelectedAppend(bits[..n], s[..n], bits[n], s[n]);
    assert bits[..n + 1] == bits[..n] + [bits[n]] && s[..n + 1] == s[..n] + [s[n]];
  }

  /** Among the first `n`, element `i` with its bit set is at the place given by the bits before it,
      and there is nothing else. */
  lemma {:induction false} SelectedPrefix<T>(bits: seq<bool>, s: seq<T>, n: nat)
    requires n <= |bits| && n <= |s|
    ensures |Selected(bits[..n], s[..n])| == Rank(bits, n)
    ensures forall i: nat :: i < n && bits[i] ==>
              Rank(bits, i) < Rank(bits, n) && Selected(bits[..n], s[..n])[Rank(bits, i)] == s[i]
  {
    hide Selected, Rank;
    if n == 0 {
      NothingSelected(bits, s);
    } else {
      SelectedPrefix(bits, s, n - 1);
      SelectedNext(bits, s, n - 1);
      RankNext(bits, n - 1);
    }
  }

  lemma NothingSelected<T>(bits: seq<bool>, s: seq<T>)
    ensures Selected(bits[..0], s[..0]) == [] && Rank(bits, 0) == 0
  {
  }

  lemma {:induction false} SelectedShorter<T>(bits: seq<bool>, s: seq<T>, n: nat)
    requires n <= |bits| && n <= |s| && (n == |bits| || n == |s|)
    ensures Selected(bits, s) == Selected(bits[..n], s[..n])
  {
    if n > 0 {
      SelectedShorter(bits[1..], s[1..], n - 1);
      assert bits[..n][1..] == bits[1..][..n - 1] && s[..n][1..] == s[1..][..n - 1];
    }
  }

  /** Selection, without its recursion: in order, each element whose bit is set, once. */
  lemma SelectedExactly<T>(bits: seq<bool>, s: seq<T>)
    ensures var n := if |bits| <= |s| then |bits| else |s|;
            && |Selected(bits, s)| == Rank(bits, n)
            && forall i: nat :: i < n && bits[i] ==>
                 Rank(bits, i) < Rank(bits, n) && Selected(bits, s)[Rank(bits, i)] == s[i]
  {
    hide Selected, Rank;
    var n := if |bits| <= |s| then |bits| else |s|;
    SelectedShorter(bits, s, n);
    SelectedPrefix(bits, s, n);
  }

  lemma {:induction false} SelectedMember<T>(bits: seq<bool>, s: seq<T>, x: T)
    ensures x in Selected(bits, s) <==> exists i :: 0 <= i < |bits| && i < |s| && bits[i] && s[i] == x
  {
    if bits != [] && s != [] {
      SelectedMember(bits[1..], s[1..], x);
      assert forall i :: 0 < i < |bits| ==> bits[i] == bits[1..][i - 1];
      assert forall i :: 0 < i < |s| ==> s[i] == s[1..][i - 1];
      if i :| 0 <= i < |bits[1..]| && i < |s[1..]| && bits[1..][i] && s[1..][i] == x {
        assert bits[i + 1] && s[i + 1] == x;
      }
    }
  }
}
