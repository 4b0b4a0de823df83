/** Byte strings and their order, and the stable sort that the library calls perform.

    The sort is an insertion sort, which is stable; what its users rely on is stated as laws: it rearranges
    its input, the result is in order, sorting twice changes nothing, selecting commutes with sorting, and
    so does any change of view that keeps the sort keys. SortedList collects a set in any order and sorts
    it, as the code does with the keys of its maps. */
module Ordering {

  type byte = b: int | 0 <= b < 256
  type Bytes = seq<byte>

  /** Rust's str order and SQLite's BINARY collation: bytewise, a prefix first. */
  predicate LexLeq(a: Bytes, b: Bytes) {
    a == [] || (b != [] && (a[0] < b[0] || (a[0] == b[0] && LexLeq(a[1..], b[1..]))))
  }

  /** Where the strings first differ the smaller byte comes first; a prefix comes before what continues it. */
  lemma {:induction false} LexMeaning(a: Bytes, b: Bytes, k: nat)
    requires k <= |a| && k <= |b| && a[..k] == b[..k]
    ensures k == |a| ==> LexLeq(a, b)
    ensures k == |b| < |a| ==> !LexLeq(a, b)
    ensures k < |a| && k < |b| && a[k] != b[k] ==> (LexLeq(a, b) <==> a[k] < b[k])
  {
    if k == 0 {
    } else {
      assert a[0] == a[..k][0] == b[..k][0] == b[0];
      assert a[1..][..k - 1] == a[..k][1..] && b[1..][..k - 1] == b[..k][1..];
      LexMeaning(a[1..], b[1..], k - 1);
    }
  }

  lemma {:induction false} LexTotal(a: Bytes, b: Bytes)
    ensures LexLeq(a, b) || LexLeq(b, a)
    ensures LexLeq(a, b) && LexLeq(b, a) <==> a == b
  {
    if a == [] || b == [] {
    } else {
      LexTotal(a[1..], b[1..]);
      if a[0] == b[0] && a[1..] == b[1..] {
        assert a == [a[0]] + a[1..] == [b[0]] + b[1..] == b;
      }
    }
  }

  lemma {:induction false} LexTransitive(a: Bytes, b: Bytes, c: Bytes)
    requires LexLeq(a, b) && LexLeq(b, c)
    ensures LexLeq(a, c)
  {
    if a == [] || !(a[0] == b[0] == c[0]) {
    } else {
      LexTransitive(a[1..], b[1..], c[1..]);
    }
  }

  /** leq is a total preorder, as a comparison passed to a sort must be. */
  ghost predicate IsOrder<T(!new)>(leq: (T, T) -> bool) {
    && (forall a, b :: leq(a, b) || leq(b, a))
    && (forall a, b, c :: leq(a, b) && leq(b, c) ==> leq(a, c))
  }

  predicate IsSorted<T>(s: seq<T>, leq: (T, T) -> bool) {
    forall i, j :: 0 <= i < j < |s| ==> leq(s[i], s[j])
  }

  /** x goes before the first element that it may precede, hence before its equals. */
  function Insert<T>(x: T, s: seq<T>, leq: (T, T) -> bool): (r: seq<T>)
    ensures |r| == |s| + 1
  {
    if s == [] || leq(x, s[0]) then [x] + s else [s[0]] + Insert(x, s[1..], leq)
  }

  /** The stable sort. */
  function Sort<T>(s: seq<T>, leq: (T, T) -> bool): (r: seq<T>)
    ensures |r| == |s|
  {
    if s == [] then [] else Insert(s[0], Sort(s[1..], leq), leq)
  }

  lemma {:induction false} InsertElements<T>(x: T, s: seq<T>, leq: (T, T) -> bool)
    ensures multiset(Insert(x, s, leq)) == multiset([x] + s)
  {
    if s == [] || leq(x, s[0]) {
    } else {
      InsertElements(x, s[1..], leq);
      assert s == [s[0]] + s[1..];
    }
  }

  /** Sorting rearranges. */
  lemma {:induction false} SortElements<T>(s: seq<T>, leq: (T, T) -> bool)
    ensures multiset(Sort(s, leq)) == multiset(s)
    ensures forall x :: x in Sort(s, leq) <==> x in s
  {
    if s == [] {
    } else {
      SortElements(s[1..], leq);
      InsertElements(s[0], Sort(s[1..], leq), leq);
      assert s == [s[0]] + s[1..];
    }
    assert forall x :: x in Sort(s, leq) <==> x in multiset(Sort(s, leq));
    assert forall x :: x in s <==> x in multiset(s);
  }

  lemma {:induction false} InsertSorted<T(!new)>(x: T, s: seq<T>, leq: (T, T) -> bool)
    requires IsOrder(leq) && IsSorted(s, leq)
    ensures IsSorted(Insert(x, s, leq), leq)
  {
    if s == [] || leq(x, s[0]) {
    } else {
      var rest := s[1..];
      InsertSorted(x, rest, leq);
      InsertElements(x, rest, leq);
      var t := Insert(x, rest, leq);
      forall j | 0 <= j < |t| ensures leq(s[0], t[j]) {
        assert t[j] in multiset(t);
        assert t[j] == x || t[j] in rest;
      }
    }
  }

  /** The result is in order. */
  lemma {:induction false} SortSorts<T(!new)>(s: seq<T>, leq: (T, T) -> bool)
    requires IsOrder(leq)
    ensures IsSorted(Sort(s, leq), leq)
  {
    if s == [] {
    } else {
      SortSorts(s[1..], leq);
      InsertSorted(s[0], Sort(s[1..], leq), leq);
    }
  }

  /** Sorting what is already in order changes nothing. */
  lemma {:induction false} SortIdempotent<T>(s: seq<T>, leq: (T, T) -> bool)
    requires IsSorted(s, leq)
    ensures Sort(s, leq) == s
  {
    if s == [] {
    } else {
      SortIdempotent(s[1..], leq);
      assert s == [s[0]] + s[1..];
    }
  }

  function Filter<T>(s: seq<T>, keep: T -> bool): (r: seq<T>) {
    if s == [] then []
    else if keep(s[0]) then [s[0]] + Filter(s[1..], keep)
    else Filter(s[1..], keep)
  }

  lemma {:induction false} FilterAppend<T>(s: seq<T>, t: seq<T>, keep: T -> bool)
    ensures Filter(s + t, keep) == Filter(s, keep) + Filter(t, keep)
  {
    if s == [] {
      assert s + t == t;
    } else {
      assert (s + t)[1..] == s[1..] + t;
      FilterAppend(s[1..], t, keep);
    }
  }

  lemma {:induction false} FilterElements<T>(s: seq<T>, keep: T -> bool)
    ensures forall x :: x in Filter(s, keep) <==> x in s && keep(x)
  {
    if s == [] {
    } else {
      FilterElements(s[1..], keep);
      assert s == [s[0]] + s[1..];
    }
  }

  /** Selecting keeps the order. */
  lemma {:induction false} FilterOrder<T>(s: seq<T>, keep: T -> bool, i: nat, j: nat) returns (k: nat, l: nat)
    requires i < j < |s| && keep(s[i]) && keep(s[j])
    ensures k < l < |Filter(s, keep)| && Filter(s, keep)[k] == s[i] && Filter(s, keep)[l] == s[j]
    decreases i
  {
    if i > 0 {
      k, l := FilterOrder(s[1..], keep, i - 1, j - 1);
      if keep(s[0]) {
        k, l := k + 1, l + 1;
      }
    } else {
      FilterElements(s[1..], keep);
      assert s[1..][j - 1] == s[j];
      var m :| 0 <= m < |Filter(s[1..], keep)| && Filter(s[1..], keep)[m] == s[j];
      k, l := 0, m + 1;
    }
  }

  lemma {:induction false} FilterInsert<T(!new)>(x: T, s: seq<T>, leq: (T, T) -> bool, keep: T -> bool)
    requires IsOrder(leq) && IsSorted(s, leq)
    ensures Filter(Insert(x, s, leq), keep)
            == if keep(x) then Insert(x, Filter(s, keep), leq) else Filter(s, keep)
  {
    if s == [] || leq(x, s[0]) {
      assert ([x] + s)[1..] == s;
      InsertFirst(x, s, leq, keep);
    } else {
      var rest := s[1..];
      FilterInsert(x, rest, leq, keep);
      assert ([s[0]] + Insert(x, rest, leq))[1..] == Insert(x, rest, leq);
      if keep(s[0]) {
        assert ([s[0]] + Filter(rest, keep))[1..] == Filter(rest, keep);
      }
    }
  }

  lemma InsertFirst<T(!new)>(x: T, s: seq<T>, leq: (T, T) -> bool, keep: T -> bool)
    requires IsOrder(leq) && IsSorted(s, leq) && (s == [] || leq(x, s[0]))
    ensures Insert(x, Filter(s, keep), leq) == [x] + Filter(s, keep)
  {
    var f := Filter(s, keep);
    FilterElements(s, keep);
    if f != [] {
      assert f[0] in s;
    }
  }

  /** Because the sort is stable, selecting before or after sorting is the same. */
  lemma {:induction false} FilterSort<T(!new)>(s: seq<T>, leq: (T, T) -> bool, keep: T -> bool)
    requires IsOrder(leq)
    ensures Filter(Sort(s, leq), keep) == Sort(Filter(s, keep), leq)
  {
    if s == [] {
    } else {
      FilterSort(s[1..], leq, keep);
      SortSorts(s[1..], leq);
      FilterInsert(s[0], Sort(s[1..], leq), leq, keep);
      if keep(s[0]) {
        assert ([s[0]] + Filter(s[1..], keep))[1..] == Filter(s[1..], keep);
      }
    }
  }

  function Map<T, U>(s: seq<T>, f: T -> U): (r: seq<U>)
    ensures |r| == |s| && forall i :: 0 <= i < |s| ==> r[i] == f(s[i])
  {
    seq(|s|, i requires 0 <= i < |s| => f(s[i]))
  }

  /** leq compares the elements of s as below compares their images. */
  ghost predicate Agree<T, U>(s: seq<T>, f: T -> U, leq: (T, T) -> bool, below: (U, U) -> bool) {
    forall a, b :: a in s && b in s ==> leq(a, b) == below(f(a), f(b))
  }

  lemma AgreeSubset<T, U>(s: seq<T>, t: seq<T>, f: T -> U, leq: (T, T) -> bool, below: (U, U) -> bool)
    requires Agree(s, f, leq, below) && forall a :: a in t ==> a in s
    ensures Agree(t, f, leq, below)
  {
  }

  lemma {:induction false} MapInsert<T, U>(x: T, s: seq<T>, f: T -> U, leq: (T, T) -> bool, below: (U, U) -> bool)
    requires Agree([x] + s, f, leq, below)
    ensures Map(Insert(x, s, leq), f) == Insert(f(x), Map(s, f), below)
  {
    if s == [] {
    } else {
      assert leq(x, s[0]) == below(f(x), f(s[0])) by {
        assert x in [x] + s && s[0] in [x] + s;
      }
      var rest := s[1..];
      AgreeSubset([x] + s, [x] + rest, f, leq, below);
      hide Agree;
      assert Map(s, f)[1..] == Map(rest, f);
      if leq(x, s[0]) {
        MapCons(x, s, f);
      } else {
        MapInsert(x, rest, f, leq, below);
        MapCons(s[0], Insert(x, rest, leq), f);
      }
    }
  }

  lemma MapCons<T, U>(x: T, s: seq<T>, f: T -> U)
    ensures Map([x] + s, f) == [f(x)] + Map(s, f)
  {
  }

  /** Sorting commutes with any change of view that keeps the sort keys. */
  lemma {:induction false} MapSort<T, U>(s: seq<T>, f: T -> U, leq: (T, T) -> bool, below: (U, U) -> bool)
    requires Agree(s, f, leq, below)
    ensures Map(Sort(s, leq), f) == Sort(Map(s, f), below)
  {
    hide Agree, Insert;
    if s == [] {
    } else {
      var rest := s[1..];
      AgreeSubset(s, rest, f, leq, below);
      MapSort(rest, f, leq, below);
      HeadAndSorted(s, leq);
      AgreeSubset(s, [s[0]] + Sort(rest, leq), f, leq, below);
      MapInsert(s[0], Sort(rest, leq), f, leq, below);
      assert Map(s, f)[1..] == Map(rest, f);
    }
  }

  lemma HeadAndSorted<T>(s: seq<T>, leq: (T, T) -> bool)
    requires s != []
    ensures forall a :: a in [s[0]] + Sort(s[1..], leq) ==> a in s
  {
    var t := [s[0]] + Sort(s[1..], leq);
    assert multiset(t) == multiset(s) by {
      SortElements(s[1..], leq);
      assert s == [s[0]] + s[1..];
    }
    forall a | a in t ensures a in s {
      assert a in multiset(t);
      assert a in multiset(s);
    }
  }

  predicate NoDuplicates<T(==)>(s: seq<T>) {
    forall i, j :: 0 <= i < j < |s| ==> s[i] != s[j]
  }

  lemma {:induction false} CountOnce<T>(s: seq<T>)
    requires NoDuplicates(s)
    ensures forall x :: multiset(s)[x] <= 1
  {
    if s == [] {
    } else {
      assert s == [s[0]] + s[1..];
      CountOnce(s[1..]);
      assert s[0] !in s[1..];
    }
  }

  /** A rearrangement of a list without duplicates has none either. */
  lemma RearrangedNoDuplicates<T>(s: seq<T>, t: seq<T>)
    requires NoDuplicates(s) && multiset(s) == multiset(t)
    ensures NoDuplicates(t)
  {
    CountOnce(s);
    forall i, j | 0 <= i < j < |t| ensures t[i] != t[j] {
      assert t == t[..j] + [t[j]] + t[j + 1..];
      assert t[..j] == t[..i] + [t[i]] + t[i + 1..j];
      assert multiset(t)[t[j]] <= 1;
    }
  }

  lemma SortNoDuplicates<T>(s: seq<T>, leq: (T, T) -> bool)
    requires NoDuplicates(s)
    ensures NoDuplicates(Sort(s, leq))
  {
    SortElements(s, leq);
    RearrangedNoDuplicates(s, Sort(s, leq));
  }

  lemma {:induction false} LexOrder()
    ensures IsOrder(LexLeq)
  {
    forall a: Bytes, b: Bytes ensures LexLeq(a, b) || LexLeq(b, a) {
      LexTotal(a, b);
    }
    forall a: Bytes, b: Bytes, c: Bytes | LexLeq(a, b) && LexLeq(b, c) ensures LexLeq(a, c) {
      LexTransitive(a, b, c);
    }
  }

  /** In order, without repeats. */
  predicate StrictlySorted(s: seq<Bytes>) {
    IsSorted(s, LexLeq) && NoDuplicates(s)
  }

  /** The elements of a set as a sorted list: collect in any order, then sort. */
  method SortedList(ids: set<Bytes>) returns (list: seq<Bytes>)
    ensures StrictlySorted(list) && forall id :: id in list <==> id in ids
  {
    list := [];
    var todo := ids;
    while todo != {}
      invariant todo <= ids && NoDuplicates(list)
      invariant forall id :: id in list <==> id in ids && id !in todo
      decreases |todo|
    {
      var id :| id in todo;
      list := list + [id];
      todo := todo - {id};
    }
    LexOrder();
    SortSorts(list, LexLeq);
    SortElements(list, LexLeq);
    SortNoDuplicates(list, LexLeq);
    list := Sort(list, LexLeq);
  }

  lemma {:induction false} FilterLength<T>(s: seq<T>, keep: T -> bool)
    ensures |Filter(s, keep)| <= |s|
    ensures (forall i :: 0 <= i < |s| ==> keep(s[i])) ==> |Filter(s, keep)| == |s|
    ensures (forall i :: 0 <= i < |s| ==> !keep(s[i])) ==> Filter(s, keep) == []
  {
    if s == [] {
    } else {
      FilterLength(s[1..], keep);
      assert forall i :: 0 <= i < |s[1..]| ==> s[1..][i] == s[i + 1];
    }
  }

  lemma {:induction false} FilterWider<T(!new)>(s: seq<T>, keep: T -> bool, wider: T -> bool)
    requires forall x :: keep(x) ==> wider(x)
    ensures |Filter(s, keep)| <= |Filter(s, wider)|
  {
    if s == [] {
    } else {
      FilterWider(s[1..], keep, wider);
    }
  }
}
