/** Strict total orders and the sort-and-compact canonical form that
    cmd/killswitch/bpf_maps.go uses to decide which tables may be left alone. */
module Orders {

  ghost predicate StrictTotal<K(!new)>(less: (K, K) -> bool) {
    && (forall a :: !less(a, a))
    && (forall a, b, c :: less(a, b) && less(b, c) ==> less(a, c))
    && (forall a, b :: a != b ==> less(a, b) || less(b, a))
  }

  ghost predicate Increasing<K>(less: (K, K) -> bool, s: seq<K>) {
    forall i, j :: 0 <= i < j < |s| ==> less(s[i], s[j])
  }

  ghost predicate SameElements<K(!new)>(s: seq<K>, t: seq<K>) {
    forall x :: x in s <==> x in t
  }

  /** What `sort.Slice` promises: no later element is less than an earlier one. */
  ghost predicate Sorted<K>(less: (K, K) -> bool, s: seq<K>) {
    forall i, j :: 0 <= i < j < |s| ==> !less(s[j], s[i])
  }

  /** `x` put in its place in an increasing list, once. */
  function Insert<K(==)>(less: (K, K) -> bool, s: seq<K>, x: K): seq<K> {
    if s == [] then [x]
    else if x == s[0] then s
    else if less(x, s[0]) then [x] + s
    else [s[0]] + Insert(less, s[1..], x)
  }

  /** The canonical list of the elements of `s`. */
  function Canon<K(==)>(less: (K, K) -> bool, s: seq<K>): seq<K> {
    if s == [] then [] else Insert(less, Canon(less, s[1..]), s[0])
  }

  lemma {:induction false} InsertIncreasing<K(!new)>(less: (K, K) -> bool, s: seq<K>, x: K)
    requires StrictTotal(less) && Increasing(less, s)
    ensures Increasing(less, Insert(less, s, x))
    ensures forall y :: y in Insert(less, s, x) <==> y in s || y == x
  {
    if s == [] || x == s[0] {
    } else if less(x, s[0]) {
      var r := [x] + s;
      forall j | 0 < j < |r| ensures less(x, r[j]) {
        assert r[j] == s[j - 1];
        assert j > 1 ==> less(s[0], s[j - 1]);
      }
    } else {
      InsertIncreasing(less, s[1..], x);
      var t := Insert(less, s[1..], x);
      var r := [s[0]] + t;
      forall j | 0 < j < |r| ensures less(s[0], r[j]) {
        assert r[j] == t[j - 1];
        assert r[j] in s[1..] || r[j] == x;
        if r[j] in s[1..] {
          var k :| 0 <= k < |s[1..]| && s[1..][k] == r[j];
          assert less(s[0], s[k + 1]);
        }
      }
      assert s == [s[0]] + s[1..];
    }
  }

  /** The canonical list is strictly increasing and has the same elements. */
  lemma {:induction false} CanonIncreasing<K(!new)>(less: (K, K) -> bool, s: seq<K>)
    requires StrictTotal(less)
    ensures Increasing(less, Canon(less, s)) && SameElements(s, Canon(less, s))
  {
    if s != [] {
      CanonIncreasing(less, s[1..]);
      InsertIncreasing(less, Canon(less, s[1..]), s[0]);
      assert s == [s[0]] + s[1..];
    }
  }

  lemma LeastFirst<K(!new)>(less: (K, K) -> bool, s: seq<K>, t: seq<K>)
    requires StrictTotal(less) && Increasing(less, s) && Increasing(less, t)
    requires s != [] && t != [] && SameElements(s, t)
    ensures s[0] == t[0]
  {
    assert s[0] in t && t[0] in s;
    var k :| 0 <= k < |t| && t[k] == s[0];
    var m :| 0 <= m < |s| && s[m] == t[0];
  }

  /** A finite set has one strictly increasing listing. */
  lemma {:induction false} IncreasingUnique<K(!new)>(less: (K, K) -> bool, s: seq<K>, t: seq<K>)
    requires StrictTotal(less) && Increasing(less, s) && Increasing(less, t)
    requires SameElements(s, t)
    ensures s == t
  {
    assert s != [] ==> s[0] in s;
    assert t != [] ==> t[0] in t;
    if s != [] && t != [] {
      LeastFirst(less, s, t);
      TailElements(less, s);
      TailElements(less, t);
      IncreasingUnique(less, s[1..], t[1..]);
      assert s == [s[0]] + s[1..] && t == [t[0]] + t[1..];
    }
  }

  lemma TailElements<K(!new)>(less: (K, K) -> bool, s: seq<K>)
    requires StrictTotal(less) && Increasing(less, s) && s != []
    ensures Increasing(less, s[1..])
    ensures forall x :: x in s[1..] <==> x in s && x != s[0]
  {
  }

  /** Canonical lists are equal exactly when the inputs agree as sets. */
  lemma CanonEqualExact<K(!new)>(less: (K, K) -> bool, s: seq<K>, t: seq<K>)
    requires StrictTotal(less)
    ensures Canon(less, s) == Canon(less, t) <==> SameElements(s, t)
  {
    CanonIncreasing(less, s);
    CanonIncreasing(less, t);
    if SameElements(s, t) {
      IncreasingUnique(less, Canon(less, s), Canon(less, t));
    }
  }

  /** `sort.Slice`, by insertion: any correct sort gives the same canonical list. */
  method SortSlice<K>(values: seq<K>, less: (K, K) -> bool) returns (out: seq<K>)
    requires StrictTotalOn(less, values)
    ensures Sorted(less, out) && multiset(out) == multiset(values)
  {
    out := [];
    for n := 0 to |values|
      invariant Sorted(less, out) && multiset(out) == multiset(values[..n])
    {
      assert values[..n + 1] == values[..n] + [values[n]];
      assert values == values[..n] + values[n..];
      out := Place(less, values, out, values[n]);
    }
    assert values[..|values|] == values;
  }

  method Place<K>(less: (K, K) -> bool, ghost values: seq<K>, s: seq<K>, x: K) returns (out: seq<K>)
    requires StrictTotalOn(less, values) && x in values
    requires Sorted(less, s) && multiset(s) <= multiset(values)
    ensures Sorted(less, out) && multiset(out) == multiset(s) + multiset{x}
  {
    var at := 0;
    while at < |s| && !less(x, s[at])
      invariant 0 <= at <= |s|
      invariant forall i :: 0 <= i < at ==> !less(x, s[i])
    {
      at := at + 1;
    }
    PlaceSorted(less, values, s, x, at);
    assert s == s[..at] + s[at..];
    out := s[..at] + [x] + s[at..];
  }

  /** The order laws, asked only of the listed values. */
  ghost predicate StrictTotalOn<K>(less: (K, K) -> bool, s: seq<K>) {
    && (forall a | a in s :: !less(a, a))
    && (forall a, b, c | a in s && b in s && c in s :: less(a, b) && less(b, c) ==> less(a, c))
    && (forall a, b | a in s && b in s :: a != b ==> less(a, b) || less(b, a))
  }

  lemma PlaceSorted<K>(less: (K, K) -> bool, values: seq<K>, s: seq<K>, x: K, at: nat)
    requires StrictTotalOn(less, values) && x in values && at <= |s|
    requires Sorted(less, s) && multiset(s) <= multiset(values)
    requires forall i :: 0 <= i < at ==> !less(x, s[i])
    requires at < |s| ==> less(x, s[at])
    ensures Sorted(less, s[..at] + [x] + s[at..])
  {
    var r := s[..at] + [x] + s[at..];
    forall y | y in s ensures y in values { assert y in multiset(s); }
    forall i, j | 0 <= i < j < |r| ensures !less(r[j], r[i]) {
      if j == at {
        assert r[i] == s[i];
      } else if i == at {
        assert r[j] == s[j - 1];
        assert j - 1 > at ==> !less(s[j - 1], s[at]);
      }
    }
  }

  lemma ExtendIncreasing<K(!new)>(less: (K, K) -> bool, s: seq<K>, x: K)
    requires StrictTotal(less) && Increasing(less, s)
    requires s != [] ==> less(s[|s| - 1], x)
    ensures Increasing(less, s + [x])
  {
  }

  /** The compaction loop: the kept elements overwrite the front of the slice. */
  method CompactInPlace<K(==,!new)>(a: array<K>, ghost less: (K, K) -> bool) returns (n: nat)
    requires StrictTotal(less) && Sorted(less, a[..])
    modifies a
    ensures n <= a.Length
    ensures Increasing(less, a[..n]) && SameElements(a[..n], old(a[..]))
  {
    n := 0;
    ghost var sorted := a[..];
    for r := 0 to a.Length
      invariant n <= r && (r > 0 ==> n > 0 && a[n - 1] == sorted[r - 1])
      invariant a[r..] == sorted[r..]
      invariant Increasing(less, a[..n])
      invariant SameElements(a[..n], sorted[..r])
    {
      ghost var was := a[..n];
      assert a[r] == a[r..][0] == sorted[r];
      assert sorted[..r + 1] == sorted[..r] + [sorted[r]];
      assert a[r + 1..] == a[r..][1..] && sorted[r + 1..] == sorted[r..][1..];
      if n == 0 || a[n - 1] != a[r] {
        assert n > 0 ==> !less(sorted[r], sorted[r - 1]);
        ExtendIncreasing(less, was, a[r]);
        a[n] := a[r];
        n := n + 1;
        assert a[..n] == was + [sorted[r]];
      } else {
        assert sorted[r] in was;
      }
    }
    assert sorted[..a.Length] == sorted;
  }

  lemma SameMultisetSameElements<K(!new)>(s: seq<K>, t: seq<K>)
    requires multiset(s) == multiset(t)
    ensures SameElements(s, t)
  {
    forall x ensures x in s <==> x in t {
      assert x in s <==> x in multiset(s);
      assert x in t <==> x in multiset(t);
    }
  }

  lemma StrictTotalEverywhere<K(!new)>(less: (K, K) -> bool, s: seq<K>)
    requires StrictTotal(less)
    ensures StrictTotalOn(less, s)
  {
  }

  /** `uniqueSorted`: sort a copy, then compact it over its own prefix. */
  method UniqueSorted<K(==,!new)>(values: seq<K>, less: (K, K) -> bool) returns (out: seq<K>)
    requires StrictTotal(less)
    ensures out == Canon(less, values)
  {
    if |values| == 0 {
      return [];
    }
    StrictTotalEverywhere(less, values);
    var sorted := SortSlice(values, less);
    var a := new K[|sorted|](i requires 0 <= i < |sorted| => sorted[i]);
    assert a[..] == sorted;
    var n := CompactInPlace(a, less);
    out := a[..n];
    SameMultisetSameElements(sorted, values);
    CanonIncreasing(less, values);
    IncreasingUnique(less, out, Canon(less, values));
  }

  /** Lexicographic order, as `bytes.Compare` and string comparison decide it. */
  predicate LexLess(a: seq<int>, b: seq<int>) {
    if b == [] then false
    else if a == [] then true
    else if a[0] != b[0] then a[0] < b[0]
    else LexLess(a[1..], b[1..])
  }

  /** `a` is a proper prefix of `b`, or smaller where they first differ. */
  predicate Precedes(a: seq<int>, b: seq<int>) {
    a < b || exists k :: 0 <= k < |a| && k < |b| && a[..k] == b[..k] && a[k] < b[k]
  }

  lemma {:induction false} LexLessExact(a: seq<int>, b: seq<int>)
    ensures LexLess(a, b) <==> Precedes(a, b)
  {
    if a != [] && b != [] && a[0] == b[0] {
      LexLessExact(a[1..], b[1..]);
      assert a == [a[0]] + a[1..] && b == [b[0]] + b[1..];
      if k :| 0 <= k < |a| && k < |b| && a[..k] == b[..k] && a[k] < b[k] {
        assert k > 0 && a[1..][..k - 1] == a[..k][1..] && b[1..][..k - 1] == b[..k][1..];
        assert a[1..][k - 1] < b[1..][k - 1];
      }
      if k :| 0 <= k < |a| - 1 && k < |b| - 1 && a[1..][..k] == b[1..][..k] && a[1..][k] < b[1..][k] {
        assert a[..k + 1] == [a[0]] + a[1..][..k] && b[..k + 1] == [b[0]] + b[1..][..k];
        assert a[k + 1] < b[k + 1];
      }
    } else if a != [] && b != [] {
      assert forall k :: 0 < k <= |a| && k <= |b| ==> a[..k][0] == a[0] && b[..k][0] == b[0];
      if a[0] < b[0] { assert a[..0] == b[..0]; }
    }
  }

  lemma {:induction false} LexIrreflexive(a: seq<int>)
    ensures !LexLess(a, a)
  {
    if a != [] { LexIrreflexive(a[1..]); }
  }

  lemma {:induction false} LexTransitive(a: seq<int>, b: seq<int>, c: seq<int>)
    requires LexLess(a, b) && LexLess(b, c)
    ensures LexLess(a, c)
  {
    if a != [] && a[0] == b[0] == c[0] { LexTransitive(a[1..], b[1..], c[1..]); }
  }

  lemma {:induction false} LexTotal(a: seq<int>, b: seq<int>)
    requires a != b
    ensures LexLess(a, b) || LexLess(b, a)
  {
    if a != [] && b != [] && a[0] == b[0] {
      assert a == [a[0]] + a[1..] && b == [b[0]] + b[1..];
      LexTotal(a[1..], b[1..]);
    }
  }

  function Codes(s: string): seq<int> {
    seq(|s|, i requires 0 <= i < |s| => s[i] as int)
  }

  /** The order of `sort.Strings`. */
  predicate StringLess(a: string, b: string) {
    LexLess(Codes(a), Codes(b))
  }

  lemma CodesInjective(a: string, b: string)
    requires Codes(a) == Codes(b)
    ensures a == b
  {
    assert |a| == |Codes(a)| == |Codes(b)| == |b|;
    forall i | 0 <= i < |a| ensures a[i] == b[i] {
      assert Codes(a)[i] == Codes(b)[i];
    }
  }

  /** Names sort by their first different character, a proper prefix first. */
  lemma StringLessExact(a: string, b: string)
    ensures StringLess(a, b) <==>
              a < b || exists k :: 0 <= k < |a| && k < |b| && a[..k] == b[..k] && a[k] < b[k]
  {
    var x, y := Codes(a), Codes(b);
    LexLessExact(x, y);
    forall k | 0 <= k <= |a| && k <= |b| ensures x[..k] == y[..k] <==> a[..k] == b[..k] {
      assert forall i :: 0 <= i < k ==> x[..k][i] == a[..k][i] as int && y[..k][i] == b[..k][i] as int;
    }
    assert a < b <==> |a| < |b| && a[..|a|] == b[..|a|];
    assert x < y <==> |x| < |y| && x[..|x|] == y[..|x|];
  }

  lemma StringLessTotal()
    ensures StrictTotal(StringLess)
  {
    forall a: string ensures !StringLess(a, a) { LexIrreflexive(Codes(a)); }
    forall a: string, b: string, c: string | StringLess(a, b) && StringLess(b, c) ensures StringLess(a, c) {
      LexTransitive(Codes(a), Codes(b), Codes(c));
    }
    forall a: string, b: string | a != b ensures StringLess(a, b) || StringLess(b, a) {
      if Codes(a) == Codes(b) { CodesInjective(a, b); }
      LexTotal(Codes(a), Codes(b));
    }
  }

  /** The keys of a map listed and sorted, as the program lists them. */
  method SortedKeys(keys: set<string>) returns (out: seq<string>)
    ensures Increasing(StringLess, out) && forall x :: x in out <==> x in keys
  {
    var todo, listed := keys, [];
    while todo != {}
      invariant todo <= keys && forall x :: x in listed <==> x in keys && x !in todo
      decreases |todo|
    {
      var x :| x in todo;
      todo := todo - {x};
      listed := listed + [x];
    }
    StringLessTotal();
    out := UniqueSorted(listed, StringLess);
    CanonIncreasing(StringLess, listed);
  }
}
