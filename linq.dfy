/** The LINQ-to-objects operators the report builder chains together, with the
    semantics .NET gives them: Where and Join keep the order of their sources,
    OrderBy is a stable sort, DistinctBy keeps the first element per key, and a
    Select whose projection throws aborts the whole ToList. List.ForEach is the
    one loop; it is a method proved against the all-or-nothing Select. */
module Linq {
  import opened Tables

  // ---------------------------------------------------------------- Where

  /** Enumerable.Where. */
  function Where<T(!new)>(s: seq<T>, p: T -> bool): (r: seq<T>)
    ensures |r| <= |s|
    ensures forall x :: x in r <==> x in s && p(x)
  {
    if s == [] then []
    else if p(s[0]) then [s[0]] + Where(s[1..], p)
    else Where(s[1..], p)
  }

  /** An element that passes the filter is kept, one that fails it is dropped: the two halves
      of a Where split its source. */
  lemma {:induction false} WherePartition<T(!new)>(s: seq<T>, p: T -> bool, q: T -> bool)
    requires forall x :: q(x) <==> !p(x)
    ensures |Where(s, p)| + |Where(s, q)| == |s|
  {
    if s != [] {
      WherePartition(s[1..], p, q);
    }
  }

  /** Two Where calls in a row filter by the conjunction. */
  lemma {:induction false} WhereWhere<T(!new)>(s: seq<T>, p: T -> bool, q: T -> bool)
    ensures Where(Where(s, p), q) == Where(s, x => p(x) && q(x))
  {
    if s != [] {
      WhereWhere(s[1..], p, q);
      if p(s[0]) {
        assert Where(s, p) == [s[0]] + Where(s[1..], p);
        assert ([s[0]] + Where(s[1..], p))[1..] == Where(s[1..], p);
      }
    }
  }

  /** Where distributes over concatenation. */
  lemma {:induction false} WhereConcat<T(!new)>(a: seq<T>, b: seq<T>, p: T -> bool)
    ensures Where(a + b, p) == Where(a, p) + Where(b, p)
  {
    if a != [] {
      assert (a + b)[0] == a[0] && (a + b)[1..] == a[1..] + b;
      WhereConcat(a[1..], b, p);
    } else {
      assert a + b == b;
    }
  }

  /** A filter every element passes keeps everything; one none passes keeps nothing. */
  lemma {:induction false} WhereAllOrNone<T(!new)>(s: seq<T>, p: T -> bool)
    ensures (forall x :: x in s ==> p(x)) ==> Where(s, p) == s
    ensures (forall x :: x in s ==> !p(x)) ==> Where(s, p) == []
  {
    if s != [] {
      WhereAllOrNone(s[1..], p);
      assert s == [s[0]] + s[1..];
    }
  }

  /** The elements of s whose key is k, in the order of s. */
  function WithKey<T(!new), K(==)>(s: seq<T>, key: T -> K, k: K): (r: seq<T>)
  {
    Where(s, KeyIs(key, k))
  }

  function KeyIs<T, K(==)>(key: T -> K, k: K): (r: T -> bool)
  {
    x => key(x) == k
  }

  /** With pairwise distinct keys, a key picks out at most one element. */
  lemma {:induction false} DistinctKeysCount<T(!new), K>(s: seq<T>, key: T -> K, k: K)
    requires forall i, j :: 0 <= i < j < |s| ==> key(s[i]) != key(s[j])
    ensures |WithKey(s, key, k)| == if exists x :: x in s && key(x) == k then 1 else 0
  {
    if s != [] {
      DistinctKeysCount(s[1..], key, k);
      if key(s[0]) == k {
        forall x | x in s[1..] ensures key(x) != k {
          var j :| 0 <= j < |s[1..]| && s[1..][j] == x;
          assert s[j + 1] == x;
        }
      } else {
        assert forall x :: x in s && key(x) == k ==> x in s[1..];
      }
    }
  }

  // ---------------------------------------------------------------- Select

  /** Enumerable.Select with a projection that cannot throw. */
  function Select<T, U>(s: seq<T>, f: T -> U): (r: seq<U>)
    ensures |r| == |s|
    ensures forall i :: 0 <= i < |s| ==> r[i] == f(s[i])
  {
    seq(|s|, i requires 0 <= i < |s| => f(s[i]))
  }

  /** Select followed by ToList when the projection can throw: the first element whose
      projection faults aborts the whole list with that fault. */
  function SelectAll<T, U>(s: seq<T>, f: T -> Result<U>): (r: Result<seq<U>>)
    ensures r.Ok? <==> forall i :: 0 <= i < |s| ==> f(s[i]).Ok?
    ensures r.Ok? ==> |r.value| == |s| && forall i :: 0 <= i < |s| ==> r.value[i] == f(s[i]).value
    ensures r.Err? ==> exists i :: 0 <= i < |s| && f(s[i]) == Err(r.fault) &&
                                   forall j :: 0 <= j < i ==> f(s[j]).Ok?
    decreases |s|
  {
    if s == [] then Ok([])
    else
      var init := s[..|s| - 1];
      assert forall i :: 0 <= i < |init| ==> init[i] == s[i];
      match SelectAll(init, f)
      case Err(e) => Err(e)
      case Ok(done) =>
        match f(s[|s| - 1])
        case Err(e) => Err(e)
        case Ok(y) => Ok(done + [y])
  }

  /** Once a prefix has faulted, the rest of the list cannot change the outcome. */
  lemma {:induction false} SelectAllPrefixFault<T, U>(s: seq<T>, k: nat, f: T -> Result<U>)
    requires k <= |s|
    requires SelectAll(s[..k], f).Err?
    ensures SelectAll(s, f) == SelectAll(s[..k], f)
    decreases |s| - k
  {
    if k == |s| {
      assert s[..k] == s;
    } else {
      assert s[..k + 1][..k] == s[..k];
      assert SelectAll(s[..k + 1], f) == SelectAll(s[..k], f);
      SelectAllPrefixFault(s, k + 1, f);
    }
  }

  /** List.ForEach with an action that rebuilds each row; an exception thrown by the action
      for some row ends the loop and is passed on. */
  method ForEach<T>(rows: seq<T>, action: T -> Result<T>) returns (r: Result<seq<T>>)
    ensures r == SelectAll(rows, action)
  {
    var done: seq<T> := [];
    var i := 0;
    while i < |rows|
      invariant 0 <= i <= |rows|
      invariant SelectAll(rows[..i], action) == Ok(done)
    {
      var next := action(rows[i]);
      assert rows[..i + 1][..i] == rows[..i];
      if next.Err? {
        r := Err(next.fault);
        SelectAllPrefixFault(rows, i + 1, action);
        return;
      }
      done := done + [next.value];
      i := i + 1;
    }
    assert rows[..i] == rows;
    r := Ok(done);
  }

  // ---------------------------------------------------------------- FirstOrDefault

  /** Enumerable.FirstOrDefault with a predicate; None is the default (null). */
  function First<T(!new)>(s: seq<T>, p: T -> bool): (r: Option<T>)
    ensures r.None? <==> forall x :: x in s ==> !p(x)
    ensures r.Some? ==> exists i :: 0 <= i < |s| && s[i] == r.value && p(s[i]) &&
                                    forall j :: 0 <= j < i ==> !p(s[j])
  {
    if s == [] then None
    else if p(s[0]) then Some(s[0])
    else
      assert forall i :: 0 <= i < |s[1..]| ==> s[1..][i] == s[i + 1];
      First(s[1..], p)
  }

  // ---------------------------------------------------------------- Join

  /** The inner elements whose key matches one outer element, paired with it, in inner order. */
  function Matches<A(!new), B(!new), K(==)>(a: A, inner: seq<B>, outerKey: A -> K, innerKey: B -> K): (r: seq<(A, B)>)
    ensures forall x :: x in r <==> x.0 == a && x.1 in inner && innerKey(x.1) == outerKey(a)
  {
    if inner == [] then []
    else (if innerKey(inner[0]) == outerKey(a) then [(a, inner[0])] else []) +
         Matches(a, inner[1..], outerKey, innerKey)
  }

  /** Enumerable.Join: for each outer element in turn, its matches in inner order. */
  function Join<A(!new), B(!new), K(==)>(outer: seq<A>, inner: seq<B>, outerKey: A -> K, innerKey: B -> K): (r: seq<(A, B)>)
    ensures forall x :: x in r <==> x.0 in outer && x.1 in inner && outerKey(x.0) == innerKey(x.1)
  {
    if outer == [] then []
    else Matches(outer[0], inner, outerKey, innerKey) + Join(outer[1..], inner, outerKey, innerKey)
  }

  /** Lifts a key on the outer element to the pairs a Join yields. */
  function OnOuter<A, B, K>(key: A -> K): (f: ((A, B)) -> K)
  {
    (x: (A, B)) => key(x.0)
  }

  lemma {:induction false} MatchesCount<A(!new), B(!new), K>(a: A, inner: seq<B>, outerKey: A -> K, innerKey: B -> K)
    ensures |Matches(a, inner, outerKey, innerKey)| == |WithKey(inner, innerKey, outerKey(a))|
  {
    if inner != [] {
      MatchesCount(a, inner[1..], outerKey, innerKey);
    }
  }

  /** The pairs one outer element contributes to key k: all its matches if its key is k,
      none otherwise. */
  lemma MatchesOnKey<A(!new), B(!new), K>(a: A, inner: seq<B>, outerKey: A -> K, innerKey: B -> K, k: K)
    ensures |Where(Matches(a, inner, outerKey, innerKey), KeyIs(OnOuter(outerKey), k))| ==
            if outerKey(a) == k then |WithKey(inner, innerKey, k)| else 0
  {
    var m := Matches(a, inner, outerKey, innerKey);
    var onKey := KeyIs(OnOuter(outerKey), k);
    WhereAllOrNone(m, onKey);
    if outerKey(a) == k {
      assert forall x :: x in m ==> onKey(x);
      MatchesCount(a, inner, outerKey, innerKey);
    } else {
      assert forall x :: x in m ==> !onKey(x);
    }
  }

  lemma MulSucc(c: nat, n: nat)
    ensures (c + 1) * n == n + c * n
  {
  }

  /** Join multiplies: the pairs for key k are every outer element with key k matched with
      every inner element with key k. */
  lemma {:induction false} JoinCount<A(!new), B(!new), K>(outer: seq<A>, inner: seq<B>, outerKey: A -> K,
                                                               innerKey: B -> K, k: K)
    ensures |WithKey(Join(outer, inner, outerKey, innerKey), OnOuter(outerKey), k)| ==
            |WithKey(outer, outerKey, k)| * |WithKey(inner, innerKey, k)|
  {
    if outer != [] {
      var m := Matches(outer[0], inner, outerKey, innerKey);
      var rest := Join(outer[1..], inner, outerKey, innerKey);
      var onKey := KeyIs(OnOuter(outerKey), k);
      var n := |WithKey(inner, innerKey, k)|;
      var c := |WithKey(outer[1..], outerKey, k)|;
      assert Join(outer, inner, outerKey, innerKey) == m + rest;
      JoinCount(outer[1..], inner, outerKey, innerKey, k);
      WhereConcat(m, rest, onKey);
      MatchesOnKey(outer[0], inner, outerKey, innerKey, k);
      if outerKey(outer[0]) == k {
        assert |WithKey(outer, outerKey, k)| == c + 1;
        MulSucc(c, n);
      } else {
        assert |WithKey(outer, outerKey, k)| == c;
      }
    }
  }

  /** Join's order: the pairs of a concatenated outer source are those of the first part,
      then those of the second. */
  lemma {:induction false} JoinConcat<A(!new), B(!new), K>(o1: seq<A>, o2: seq<A>, inner: seq<B>,
                                                                outerKey: A -> K, innerKey: B -> K)
    ensures Join(o1 + o2, inner, outerKey, innerKey) ==
            Join(o1, inner, outerKey, innerKey) + Join(o2, inner, outerKey, innerKey)
  {
    var o := o1 + o2;
    if o1 == [] {
      assert o == o2;
    } else {
      assert o[0] == o1[0] && o[1..] == o1[1..] + o2;
      JoinConcat(o1[1..], o2, inner, outerKey, innerKey);
      var m := Matches(o1[0], inner, outerKey, innerKey);
      var j1, j2 := Join(o1[1..], inner, outerKey, innerKey), Join(o2, inner, outerKey, innerKey);
      assert Join(o, inner, outerKey, innerKey) == m + (j1 + j2);
      assert Join(o1, inner, outerKey, innerKey) == m + j1;
      assert m + (j1 + j2) == (m + j1) + j2;
    }
  }

  /** A single outer element yields exactly its matches. */
  lemma JoinOne<A(!new), B(!new), K>(a: A, inner: seq<B>, outerKey: A -> K, innerKey: B -> K)
    ensures Join([a], inner, outerKey, innerKey) == Matches(a, inner, outerKey, innerKey)
  {
    assert [a][1..] == [];
    assert Matches(a, inner, outerKey, innerKey) + [] == Matches(a, inner, outerKey, innerKey);
  }

  /** Pairs one element with each inner element in turn. */
  function PairWith<A, B>(a: A): (r: B -> (A, B))
  {
    b => (a, b)
  }

  /** One outer element's matches are its key's inner elements, in inner order. */
  lemma {:induction false} MatchesInInnerOrder<A(!new), B(!new), K>(a: A, inner: seq<B>, outerKey: A -> K, innerKey: B -> K)
    ensures Matches(a, inner, outerKey, innerKey) == Select(WithKey(inner, innerKey, outerKey(a)), PairWith(a))
  {
    if inner != [] {
      MatchesInInnerOrder(a, inner[1..], outerKey, innerKey);
      var w := WithKey(inner[1..], innerKey, outerKey(a));
      var f: B -> (A, B) := PairWith(a);
      if innerKey(inner[0]) == outerKey(a) {
        assert WithKey(inner, innerKey, outerKey(a)) == [inner[0]] + w;
        assert Select([inner[0]] + w, f) == [(a, inner[0])] + Select(w, f);
      } else {
        assert WithKey(inner, innerKey, outerKey(a)) == w;
        assert Matches(a, inner, outerKey, innerKey) == [] + Matches(a, inner[1..], outerKey, innerKey);
      }
    }
  }

  // ---------------------------------------------------------------- OrderBy on DateTime?

  /** Sorted by a nullable DateTime key, as OrderBy leaves it. */
  predicate SortedBy<T>(s: seq<T>, key: T -> Option<DateTime>)
  {
    forall i, j :: 0 <= i < j < |s| ==> StampLe(key(s[i]), key(s[j]))
  }


  /** Puts x before the first element whose key is not smaller than its own. */
  function InsertBy<T(!new)>(x: T, s: seq<T>, key: T -> Option<DateTime>): (r: seq<T>)
    ensures multiset(r) == multiset(s) + multiset{x}
  {
    if s == [] || StampLe(key(x), key(s[0])) then [x] + s
    else
      assert s == [s[0]] + s[1..];
      [s[0]] + InsertBy(x, s[1..], key)
  }

  /** An element no later than any element of a sorted sequence can go in front of it. */
  lemma ConsSorted<T>(x: T, s: seq<T>, key: T -> Option<DateTime>)
    requires SortedBy(s, key) && forall y :: y in s ==> StampLe(key(x), key(y))
    ensures SortedBy([x] + s, key)
  {
    var r := [x] + s;
    forall i, j | 0 <= i < j < |r| ensures StampLe(key(r[i]), key(r[j])) {
      assert r[j] == s[j - 1];
      if i == 0 {
        assert r[j] in s;
      } else {
        assert r[i] == s[i - 1];
      }
    }
  }

  lemma {:induction false} InsertBySorted<T(!new)>(x: T, s: seq<T>, key: T -> Option<DateTime>)
    requires SortedBy(s, key)
    ensures SortedBy(InsertBy(x, s, key), key)
  {
    if s == [] || StampLe(key(x), key(s[0])) {
      forall y | y in s ensures StampLe(key(x), key(y)) {
        var j :| 0 <= j < |s| && s[j] == y;
        assert j == 0 || StampLe(key(s[0]), key(s[j]));
      }
      ConsSorted(x, s, key);
    } else {
      var rest := InsertBy(x, s[1..], key);
      assert SortedBy(s[1..], key);
      InsertBySorted(x, s[1..], key);
      forall y | y in rest ensures StampLe(key(s[0]), key(y)) {
        assert y in multiset(rest);
        if y != x {
          assert y in multiset(s[1..]);
          var j :| 0 <= j < |s[1..]| && s[1..][j] == y;
          assert s[j + 1] == y;
        }
      }
      ConsSorted(s[0], rest, key);
    }
  }


  /** Enumerable.OrderBy on a DateTime? key: a stable insertion sort. */
  function SortBy<T(!new)>(s: seq<T>, key: T -> Option<DateTime>): (r: seq<T>)
    ensures multiset(r) == multiset(s)
    ensures SortedBy(r, key)
  {
    if s == [] then []
    else
      var rest := SortBy(s[1..], key);
      InsertBySorted(s[0], rest, key);
      assert s == [s[0]] + s[1..];
      InsertBy(s[0], rest, key)
  }

  lemma {:induction false} InsertByStable<T(!new)>(x: T, s: seq<T>, key: T -> Option<DateTime>, k: Option<DateTime>)
    ensures WithKey(InsertBy(x, s, key), key, k) ==
            if key(x) == k then [x] + WithKey(s, key, k) else WithKey(s, key, k)
  {
    if s == [] || StampLe(key(x), key(s[0])) {
      assert ([x] + s)[1..] == s;
    } else {
      var rest := InsertBy(x, s[1..], key);
      InsertByStable(x, s[1..], key, k);
      assert ([s[0]] + rest)[1..] == rest;
      assert key(s[0]) != key(x);
    }
  }

  /** OrderBy is stable: the elements sharing any one key keep their relative order. */
  lemma {:induction false} SortByStable<T(!new)>(s: seq<T>, key: T -> Option<DateTime>, k: Option<DateTime>)
    ensures WithKey(SortBy(s, key), key, k) == WithKey(s, key, k)
  {
    if s != [] {
      SortByStable(s[1..], key, k);
      InsertByStable(s[0], SortBy(s[1..], key), key, k);
    }
  }

  // ---------------------------------------------------------------- DistinctBy

  /** DistinctBy's scan with the set of keys already yielded. */
  function DistinctFrom<T(!new), K(==)>(s: seq<T>, key: T -> K, seen: set<K>): (r: seq<T>)
    ensures forall y :: y in r ==> y in s && key(y) !in seen
    ensures forall i, j :: 0 <= i < j < |r| ==> key(r[i]) != key(r[j])
  {
    if s == [] then []
    else if key(s[0]) in seen then DistinctFrom(s[1..], key, seen)
    else [s[0]] + DistinctFrom(s[1..], key, seen + {key(s[0])})
  }

  /** DistinctBy: the first element for each key, in the order of s. */
  function DistinctBy<T(!new), K(==)>(s: seq<T>, key: T -> K): (r: seq<T>)
    ensures forall y :: y in r ==> y in s
    ensures forall i, j :: 0 <= i < j < |r| ==> key(r[i]) != key(r[j])
  {
    DistinctFrom(s, key, {})
  }

  /** r sits inside s at the strictly increasing positions idx: r keeps the order of s. */
  ghost predicate EmbeddedAt<T>(r: seq<T>, s: seq<T>, idx: seq<nat>)
  {
    |idx| == |r| &&
    (forall i :: 0 <= i < |idx| ==> idx[i] < |s| && r[i] == s[idx[i]]) &&
    (forall i, j :: 0 <= i < j < |idx| ==> idx[i] < idx[j])
  }

  /** Positions in the tail of s, moved one place to the right. */
  function Shifted(idx: seq<nat>): (r: seq<nat>)
    ensures |r| == |idx| && forall i :: 0 <= i < |idx| ==> r[i] == idx[i] + 1
  {
    seq(|idx|, i requires 0 <= i < |idx| => idx[i] + 1)
  }

  lemma EmbeddedInTail<T>(r: seq<T>, s: seq<T>, idx: seq<nat>)
    requires s != [] && EmbeddedAt(r, s[1..], idx)
    ensures EmbeddedAt(r, s, Shifted(idx))
    ensures EmbeddedAt([s[0]] + r, s, [0] + Shifted(idx))
  {
    var sh := Shifted(idx);
    assert forall i :: 0 <= i < |idx| ==> r[i] == s[sh[i]];
    var r', idx' := [s[0]] + r, [0] + sh;
    assert forall i :: 1 <= i < |idx'| ==> idx'[i] == sh[i - 1] && r'[i] == r[i - 1];
  }

  /** DistinctFrom keeps the order of s: its result is a subsequence of s. */
  lemma {:induction false} DistinctFromInOrder<T(!new), K>(s: seq<T>, key: T -> K, seen: set<K>) returns (idx: seq<nat>)
    ensures EmbeddedAt(DistinctFrom(s, key, seen), s, idx)
  {
    if s == [] {
      idx := [];
    } else if key(s[0]) in seen {
      var rest := DistinctFromInOrder(s[1..], key, seen);
      EmbeddedInTail(DistinctFrom(s[1..], key, seen), s, rest);
      idx := Shifted(rest);
    } else {
      var rest := DistinctFromInOrder(s[1..], key, seen + {key(s[0])});
      EmbeddedInTail(DistinctFrom(s[1..], key, seen + {key(s[0])}), s, rest);
      idx := [0] + Shifted(rest);
    }
  }

  /** Every key of s not seen before is yielded once by DistinctFrom. */
  lemma {:induction false} DistinctFromCovers<T(!new), K>(s: seq<T>, key: T -> K, seen: set<K>, x: T)
    requires x in s && key(x) !in seen
    ensures exists y :: y in DistinctFrom(s, key, seen) && key(y) == key(x)
  {
    if key(s[0]) in seen {
      DistinctFromCovers(s[1..], key, seen, x);
    } else if key(s[0]) != key(x) {
      DistinctFromCovers(s[1..], key, seen + {key(s[0])}, x);
      var y :| y in DistinctFrom(s[1..], key, seen + {key(s[0])}) && key(y) == key(x);
      assert y in DistinctFrom(s, key, seen);
    } else {
      assert s[0] in DistinctFrom(s, key, seen);
    }
  }

  /** Each element DistinctFrom yields occurs in s no later than any element with its key. */
  lemma {:induction false} DistinctFromKeepsFirst<T(!new), K>(s: seq<T>, key: T -> K, seen: set<K>, y: T, j: nat)
    requires y in DistinctFrom(s, key, seen)
    requires j < |s| && key(s[j]) == key(y)
    ensures y in s[..j + 1]
  {
    var rest := s[1..];
    if key(s[0]) in seen {
      assert j != 0;
      DistinctFromKeepsFirst(rest, key, seen, y, j - 1);
      assert rest[..j] == s[1..j + 1];
    } else if y != s[0] {
      assert y in DistinctFrom(rest, key, seen + {key(s[0])});
      assert j != 0;
      DistinctFromKeepsFirst(rest, key, seen + {key(s[0])}, y, j - 1);
      assert rest[..j] == s[1..j + 1];
    }
  }

  /** DistinctBy keeps order, so a sorted source stays sorted. */
  lemma {:induction false} DistinctFromSorted<T(!new), K>(s: seq<T>, key: T -> K, seen: set<K>, sortKey: T -> Option<DateTime>)
    requires SortedBy(s, sortKey)
    ensures SortedBy(DistinctFrom(s, key, seen), sortKey)
  {
    if s != [] {
      assert SortedBy(s[1..], sortKey);
      if key(s[0]) in seen {
        DistinctFromSorted(s[1..], key, seen, sortKey);
      } else {
        var rest := DistinctFrom(s[1..], key, seen + {key(s[0])});
        DistinctFromSorted(s[1..], key, seen + {key(s[0])}, sortKey);
        forall y | y in rest ensures StampLe(sortKey(s[0]), sortKey(y)) {
          var j :| 0 <= j < |s[1..]| && s[1..][j] == y;
          assert s[j + 1] == y;
        }
        var r := [s[0]] + rest;
        forall i, j | 0 <= i < j < |r| ensures StampLe(sortKey(r[i]), sortKey(r[j])) {
          if i > 0 {
            assert r[i] == rest[i - 1] && r[j] == rest[j - 1];
          } else {
            assert r[j] in rest;
          }
        }
      }
    }
  }

  /** Join keeps the order of its outer source. */
  lemma {:induction false} JoinSorted<A(!new), B(!new), K>(outer: seq<A>, inner: seq<B>, outerKey: A -> K, innerKey: B -> K,
                                                    sortKey: A -> Option<DateTime>)
    requires SortedBy(outer, sortKey)
    ensures SortedBy(Join(outer, inner, outerKey, innerKey), OnOuter(sortKey))
  {
    if outer != [] {
      var m := Matches(outer[0], inner, outerKey, innerKey);
      var rest := Join(outer[1..], inner, outerKey, innerKey);
      assert SortedBy(outer[1..], sortKey);
      JoinSorted(outer[1..], inner, outerKey, innerKey, sortKey);
      var r := m + rest;
      forall i, j | 0 <= i < j < |r| ensures StampLe(sortKey(r[i].0), sortKey(r[j].0)) {
        if j < |m| {
          assert r[i] in m && r[j] in m;
        } else if i < |m| {
          assert r[i] in m && r[j] == rest[j - |m|];
          assert r[j] in rest;
          var k :| 0 <= k < |outer[1..]| && outer[1..][k] == r[j].0;
          assert outer[k + 1] == r[j].0;
        } else {
          assert r[i] == rest[i - |m|] && r[j] == rest[j - |m|];
        }
      }
    }
  }
}
