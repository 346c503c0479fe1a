/** Total orders, sorting, and the uniqueness of sorted listings. */
module Orders {

  ghost predicate TotalOrder<T(!new)>(leq: (T, T) -> bool) {
    && (forall x :: leq(x, x))
    && (forall x, y :: leq(x, y) && leq(y, x) ==> x == y)
    && (forall x, y, z :: leq(x, y) && leq(y, z) ==> leq(x, z))
    && (forall x, y :: leq(x, y) || leq(y, x))
  }

  ghost predicate Sorted<T(!new)>(leq: (T, T) -> bool, s: seq<T>) {
    forall i, j :: 0 <= i < j < |s| ==> leq(s[i], s[j])
  }

  ghost predicate StrictlySorted<T(!new)>(leq: (T, T) -> bool, s: seq<T>) {
    forall i, j :: 0 <= i < j < |s| ==> leq(s[i], s[j]) && s[i] != s[j]
  }

  lemma Assoc<T>(a: seq<T>, b: seq<T>, c: seq<T>)
    ensures a + b + c == a + (b + c)
  {
  }

  /** Moving the head of a queue to a table and refilling the queue keeps the whole in order. */
  lemma Rotate<T>(table: seq<T>, queue: seq<T>, more: seq<T>)
    requires queue != []
    ensures table + [queue[0]] + (queue[1..] + more) == table + queue + more
  {
    assert queue == [queue[0]] + queue[1..];
  }

  /** A subset has no more elements. */
  lemma SubsetSize<T>(a: set<T>, b: set<T>)
    requires a <= b
    ensures |a| <= |b|
  {
    assert b == a + (b - a);
    assert |b| == |a| + |b - a|;
  }

  /** Puts `x` before the first element that is not smaller. */
  function Insert<T>(leq: (T, T) -> bool, x: T, s: seq<T>): (r: seq<T>)
    ensures multiset(r) == multiset(s) + multiset{x}
  {
    if s == [] then [x]
    else if leq(x, s[0]) then [x] + s
    else
      assert s == [s[0]] + s[1..];
      [s[0]] + Insert(leq, x, s[1..])
  }

  lemma {:induction false} InsertSorted<T(!new)>(leq: (T, T) -> bool, x: T, s: seq<T>)
    requires TotalOrder(leq) && Sorted(leq, s)
    ensures Sorted(leq, Insert(leq, x, s))
  {
    if s != [] && !leq(x, s[0]) {
      InsertSorted(leq, x, s[1..]);
      var rest := Insert(leq, x, s[1..]);
      forall j | 0 <= j < |rest| ensures leq(s[0], rest[j]) {
        assert rest[j] in multiset(rest);
        assert rest[j] == x || rest[j] in s[1..];
      }
    }
  }

  function Sort<T(!new)>(leq: (T, T) -> bool, s: seq<T>): (r: seq<T>)
    requires TotalOrder(leq)
    ensures Sorted(leq, r) && multiset(r) == multiset(s)
  {
    if s == [] then []
    else
      assert s == [s[0]] + s[1..];
      InsertSorted(leq, s[0], Sort(leq, s[1..]));
      Insert(leq, s[0], Sort(leq, s[1..]))
  }

  lemma SortedHead<T(!new)>(leq: (T, T) -> bool, a: seq<T>, b: seq<T>)
    requires TotalOrder(leq) && Sorted(leq, a) && Sorted(leq, b)
    requires a != [] && multiset(a) == multiset(b)
    ensures b != [] && a[0] == b[0]
  {
    assert a[0] in multiset(b) && b[0] in multiset(a);
  }

  lemma SortedTail<T(!new)>(leq: (T, T) -> bool, a: seq<T>)
    requires a != [] && Sorted(leq, a)
    ensures Sorted(leq, a[1..])
  {
  }

  lemma SameTails<T>(a: seq<T>, b: seq<T>)
    requires a != [] && b != [] && a[0] == b[0] && multiset(a) == multiset(b)
    ensures multiset(a[1..]) == multiset(b[1..])
    ensures a[1..] == b[1..] ==> a == b
  {
    assert a == [a[0]] + a[1..] && b == [b[0]] + b[1..];
    assert multiset(a[1..]) == multiset(a) - multiset{a[0]};
    assert multiset(b[1..]) == multiset(b) - multiset{b[0]};
  }

  /** A sorted list is determined by the multiset of its elements. */
  lemma {:induction false} SortedUnique<T(!new)>(leq: (T, T) -> bool, a: seq<T>, b: seq<T>)
    requires TotalOrder(leq) && Sorted(leq, a) && Sorted(leq, b)
    requires multiset(a) == multiset(b)
    ensures a == b
  {
    if a == [] {
      assert |b| == |multiset(b)| == 0;
    } else {
      SortedHead(leq, a, b);
      SortedTail(leq, a);
      SortedTail(leq, b);
      SameTails(a, b);
      SortedUnique(leq, a[1..], b[1..]);
    }
  }

  /** A strictly sorted list is determined by the set of its elements. */
  lemma {:induction false} StrictlySortedUnique<T(!new)>(leq: (T, T) -> bool, a: seq<T>, b: seq<T>)
    requires TotalOrder(leq) && StrictlySorted(leq, a) && StrictlySorted(leq, b)
    requires forall x :: x in a <==> x in b
    ensures a == b
  {
    assert a != [] ==> a[0] in b;
    assert b != [] ==> b[0] in a;
    if a != [] {
      assert a[0] == b[0];
      forall x ensures x in a[1..] <==> x in b[1..] {
        assert x in a[1..] <==> x in a && x != a[0];
        assert x in b[1..] <==> x in b && x != b[0];
      }
      StrictlySortedUnique(leq, a[1..], b[1..]);
    }
  }

  ghost predicate Distinct<T>(s: seq<T>) {
    forall i, j :: 0 <= i < j < |s| ==> s[i] != s[j]
  }

  lemma DistinctConcat<T>(a: seq<T>, b: seq<T>)
    requires Distinct(a) && Distinct(b) && forall x :: x in b ==> x !in a
    ensures Distinct(a + b)
  {
    var s := a + b;
    forall i, j | 0 <= i < j < |s| ensures s[i] != s[j] {
      if i < |a| <= j {
        assert s[j] == b[j - |a|] && s[j] in b;
        assert s[i] == a[i] && s[i] in a;
      }
    }
  }

  lemma {:induction false} CountAtMostOne<T>(s: seq<T>, x: T)
    requires Distinct(s)
    ensures multiset(s)[x] <= 1
  {
    if s != [] {
      var n := |s| - 1;
      assert s == s[..n] + [s[n]];
      CountAtMostOne(s[..n], x);
      assert s[n] !in s[..n];
    }
  }

  /** A sorted list without repetitions is strictly sorted. */
  lemma SortedDistinct<T(!new)>(leq: (T, T) -> bool, s: seq<T>)
    requires Sorted(leq, s) && forall x :: multiset(s)[x] <= 1
    ensures StrictlySorted(leq, s)
  {
    forall i, j | 0 <= i < j < |s| ensures s[i] != s[j] {
      assert s == s[..j] + [s[j]] + s[j+1..];
      assert s[..j][i] in multiset(s[..j]);
      assert multiset(s)[s[j]] == multiset(s[..j])[s[j]] + 1 + multiset(s[j+1..])[s[j]];
    }
  }

  /** `a` is obtained from `b` by leaving elements out. */
  ghost predicate Subsequence<T>(a: seq<T>, b: seq<T>) {
    if a == [] then true
    else if b == [] then false
    else if a[0] == b[0] then Subsequence(a[1..], b[1..])
    else Subsequence(a, b[1..])
  }

  lemma {:induction false} SubsequenceSnoc<T>(a: seq<T>, b: seq<T>, x: T)
    requires Subsequence(a, b)
    ensures Subsequence(a + [x], b + [x])
    decreases |b|
  {
    if b == [] {
      assert a + [x] == b + [x] == [x];
    } else {
      assert (b + [x])[0] == b[0] && (b + [x])[1..] == b[1..] + [x];
      if a == [] {
        SubsequenceSnoc(a, b[1..], x);
        SubsequenceReflexive([x]);
        if x == b[0] { assert (a + [x])[1..] == []; }
      } else {
        assert (a + [x])[0] == a[0] && (a + [x])[1..] == a[1..] + [x];
        SubsequenceSnoc(if a[0] == b[0] then a[1..] else a, b[1..], x);
      }
    }
  }

  lemma {:induction false} SubsequenceReflexive<T>(a: seq<T>)
    ensures Subsequence(a, a)
  {
    if a != [] { SubsequenceReflexive(a[1..]); }
  }

  /** Leaving out one more element in front. */
  lemma {:induction false} SubsequenceTail<T>(a: seq<T>, b: seq<T>)
    requires a != [] && Subsequence(a, b)
    ensures Subsequence(a[1..], b)
    decreases |b|, 1
  {
    if a[0] == b[0] {
      SubsequenceLonger(a[1..], b);
    } else {
      SubsequenceTail(a, b[1..]);
      SubsequenceLonger(a[1..], b);
    }
  }

  lemma {:induction false} SubsequenceLonger<T>(a: seq<T>, b: seq<T>)
    requires b != [] && Subsequence(a, b[1..])
    ensures Subsequence(a, b)
    decreases |b|, 0
  {
    if a != [] && a[0] == b[0] {
      SubsequenceTail(a, b[1..]);
    }
  }

  lemma {:induction false} SubsequenceTransitive<T>(a: seq<T>, b: seq<T>, c: seq<T>)
    requires Subsequence(a, b) && Subsequence(b, c)
    ensures Subsequence(a, c)
    decreases |c|
  {
    if a != [] {
      if b[0] == c[0] {
        if a[0] == b[0] {
          SubsequenceTransitive(a[1..], b[1..], c[1..]);
        } else {
          SubsequenceTransitive(a, b[1..], c[1..]);
        }
      } else {
        SubsequenceTransitive(a, b, c[1..]);
        SubsequenceLonger(a, c);
      }
    }
  }

  lemma {:induction false} SubsequencePrepend<T>(p: seq<T>, a: seq<T>, b: seq<T>)
    requires Subsequence(a, b)
    ensures Subsequence(p + a, p + b)
  {
    if p == [] {
      assert p + a == a && p + b == b;
    } else {
      SubsequencePrepend(p[1..], a, b);
      assert (p + a)[1..] == p[1..] + a && (p + b)[1..] == p[1..] + b;
    }
  }

  /** The elements of `s` that satisfy `keep`, in order. */
  function Filter<T(!new)>(s: seq<T>, keep: T -> bool): (r: seq<T>)
    ensures forall x :: x in r <==> x in s && keep(x)
  {
    if s == [] then []
    else
      assert s == [s[0]] + s[1..];
      if keep(s[0]) then [s[0]] + Filter(s[1..], keep) else Filter(s[1..], keep)
  }

  /** Filtering keeps a strictly sorted list strictly sorted. */
  lemma {:induction false} FilterStrictlySorted<T(!new)>(leq: (T, T) -> bool, s: seq<T>, keep: T -> bool)
    requires StrictlySorted(leq, s)
    ensures StrictlySorted(leq, Filter(s, keep))
  {
    if s != [] {
      FilterStrictlySorted(leq, s[1..], keep);
      var rest := Filter(s[1..], keep);
      forall j | 0 <= j < |rest| ensures leq(s[0], rest[j]) && s[0] != rest[j] {
        assert rest[j] in s[1..];
      }
    }
  }

  lemma {:induction false} FilterIsSubsequence<T(!new)>(s: seq<T>, keep: T -> bool)
    ensures Subsequence(Filter(s, keep), s)
  {
    if s != [] {
      FilterIsSubsequence(s[1..], keep);
      var rest := Filter(s[1..], keep);
      assert rest != [] ==> rest[0] in rest;
    }
  }

  /** A strictly sorted list of some elements of another leaves the others out. */
  lemma SubsetIsSubsequence<T(!new)>(leq: (T, T) -> bool, a: seq<T>, b: seq<T>)
    requires TotalOrder(leq) && StrictlySorted(leq, a) && StrictlySorted(leq, b)
    requires forall x :: x in a ==> x in b
    ensures Subsequence(a, b)
  {
    var keep := (x: T) => x in a;
    FilterStrictlySorted(leq, b, keep);
    StrictlySortedUnique(leq, Filter(b, keep), a);
    FilterIsSubsequence(b, keep);
  }

  /** `chosen` is `all` with exactly the elements left out that do not satisfy `keep`. */
  ghost predicate Selects<T(!new)>(all: seq<T>, chosen: seq<T>, keep: T -> bool) {
    && Subsequence(chosen, all)
    && forall x :: multiset(chosen)[x] == if keep(x) then multiset(all)[x] else 0
  }

  lemma {:induction false} FilterSelects<T(!new)>(s: seq<T>, keep: T -> bool)
    ensures Selects(s, Filter(s, keep), keep)
  {
    FilterIsSubsequence(s, keep);
    if s != [] {
      var rest := Filter(s[1..], keep);
      FilterSelects(s[1..], keep);
      assert s == [s[0]] + s[1..];
      assert Filter(s, keep) == if keep(s[0]) then [s[0]] + rest else rest;
    }
  }

  // ----- Lexicographic order -----

  predicate LexLeq<T(==)>(leq: (T, T) -> bool, a: seq<T>, b: seq<T>) {
    if a == [] then true
    else if b == [] then false
    else if a[0] == b[0] then LexLeq(leq, a[1..], b[1..])
    else leq(a[0], b[0])
  }

  predicate CharLeq(c: char, d: char) {
    c <= d
  }

  /** Byte order of UTF-8 strings, which is code-point order. */
  predicate StringLeq(a: string, b: string) {
    LexLeq(CharLeq, a, b)
  }

  lemma {:induction false} LexReflexive<T(!new)>(leq: (T, T) -> bool, a: seq<T>)
    ensures LexLeq(leq, a, a)
  {
    if a != [] { LexReflexive(leq, a[1..]); }
  }

  lemma {:induction false} LexAntisymmetric<T(!new)>(leq: (T, T) -> bool, a: seq<T>, b: seq<T>)
    requires TotalOrder(leq) && LexLeq(leq, a, b) && LexLeq(leq, b, a)
    ensures a == b
  {
    if a != [] && b != [] {
      assert a[0] == b[0];
      LexAntisymmetric(leq, a[1..], b[1..]);
      assert a == [a[0]] + a[1..] && b == [b[0]] + b[1..];
    }
  }

  lemma {:induction false} LexTransitive<T(!new)>(leq: (T, T) -> bool, a: seq<T>, b: seq<T>, c: seq<T>)
    requires TotalOrder(leq) && LexLeq(leq, a, b) && LexLeq(leq, b, c)
    ensures LexLeq(leq, a, c)
  {
    if a != [] && a[0] == b[0] == c[0] {
      LexTransitive(leq, a[1..], b[1..], c[1..]);
    }
  }

  lemma {:induction false} LexConnected<T(!new)>(leq: (T, T) -> bool, a: seq<T>, b: seq<T>)
    requires TotalOrder(leq)
    ensures LexLeq(leq, a, b) || LexLeq(leq, b, a)
  {
    if a != [] && b != [] && a[0] == b[0] {
      LexConnected(leq, a[1..], b[1..]);
    }
  }

  lemma StringLeqTotal()
    ensures TotalOrder(StringLeq)
  {
    assert TotalOrder(CharLeq);
    forall a: string ensures StringLeq(a, a) { LexReflexive(CharLeq, a); }
    forall a: string, b: string | StringLeq(a, b) && StringLeq(b, a) ensures a == b {
      LexAntisymmetric(CharLeq, a, b);
    }
    forall a: string, b: string, c: string | StringLeq(a, b) && StringLeq(b, c) ensures StringLeq(a, c) {
      LexTransitive(CharLeq, a, b, c);
    }
    forall a: string, b: string ensures StringLeq(a, b) || StringLeq(b, a) { LexConnected(CharLeq, a, b); }
  }

  /** An absolute path as its list of components; paths compare component by component. */
  type Path = seq<string>

  predicate PathLeq(a: Path, b: Path) {
    LexLeq(StringLeq, a, b)
  }

  lemma PathLeqTotal()
    ensures TotalOrder(PathLeq)
  {
    StringLeqTotal();
    forall a: Path ensures PathLeq(a, a) { LexReflexive(StringLeq, a); }
    forall a: Path, b: Path | PathLeq(a, b) && PathLeq(b, a) ensures a == b {
      LexAntisymmetric(StringLeq, a, b);
    }
    forall a: Path, b: Path, c: Path | PathLeq(a, b) && PathLeq(b, c) ensures PathLeq(a, c) {
      LexTransitive(StringLeq, a, b, c);
    }
    forall a: Path, b: Path ensures PathLeq(a, b) || PathLeq(b, a) { LexConnected(StringLeq, a, b); }
  }

  // ----- Ordered listings of sets -----

  /** The first position where the two differ. */
  ghost predicate DiffersAt<T>(a: seq<T>, b: seq<T>, i: nat) {
    i < |a| && i < |b| && a[..i] == b[..i] && a[i] != b[i]
  }

  lemma {:induction false} LexLeqIs<T>(leq: (T, T) -> bool, a: seq<T>, b: seq<T>)
    ensures LexLeq(leq, a, b) <==> a <= b || exists i: nat :: DiffersAt(a, b, i) && leq(a[i], b[i])
  {
    if a != [] && b != [] {
      if a[0] == b[0] {
        LexLeqIs(leq, a[1..], b[1..]);
        DiffersInTail(a, b);
        assert a <= b <==> a[1..] <= b[1..];
        if i: nat :| DiffersAt(a[1..], b[1..], i) && leq(a[1..][i], b[1..][i]) {
          assert DiffersAt(a, b, i + 1) && leq(a[i+1], b[i+1]);
        }
      } else {
        assert DiffersAt(a, b, 0);
        forall i: nat | DiffersAt(a, b, i) ensures i == 0 {
          DiffersAfter(a, b, i);
        }
      }
    }
  }

  lemma DiffersAfter<T>(a: seq<T>, b: seq<T>, i: nat)
    requires DiffersAt(a, b, i)
    ensures i == 0 || a[0] == b[0]
  {
    if i > 0 {
      assert a[0] == a[..i][0] == b[..i][0] == b[0];
    }
  }

  lemma DiffersInTail<T>(a: seq<T>, b: seq<T>)
    requires a != [] && b != [] && a[0] == b[0]
    ensures forall i: nat :: DiffersAt(a, b, i) ==> i > 0 && DiffersAt(a[1..], b[1..], i - 1)
    ensures forall i: nat :: DiffersAt(a[1..], b[1..], i) ==> DiffersAt(a, b, i + 1)
  {
    forall i: nat | DiffersAt(a, b, i) ensures i > 0 && DiffersAt(a[1..], b[1..], i - 1) {
      assert a[1..][..i-1] == a[..i][1..] && b[1..][..i-1] == b[..i][1..];
    }
    forall i: nat | DiffersAt(a[1..], b[1..], i) ensures DiffersAt(a, b, i + 1) {
      assert a[..i+1] == [a[0]] + a[1..][..i] && b[..i+1] == [b[0]] + b[1..][..i];
    }
  }

  /** A string comes first if it is a prefix or has the smaller character where they first differ. */
  lemma {:induction false} StringOrder(a: string, b: string)
    ensures StringLeq(a, b) <==> a <= b || exists i: nat :: DiffersAt(a, b, i) && a[i] < b[i]
  {
    LexLeqIs(CharLeq, a, b);
    if i: nat :| DiffersAt(a, b, i) && CharLeq(a[i], b[i]) {
      assert a[i] < b[i];
    }
    if i: nat :| DiffersAt(a, b, i) && a[i] < b[i] {
      assert CharLeq(a[i], b[i]);
    }
  }

  /** A path comes first if it leads to the other or has the earlier name where they first differ. */
  lemma {:induction false} PathOrder(a: Path, b: Path)
    ensures PathLeq(a, b) <==> a <= b || exists i: nat :: DiffersAt(a, b, i) && StringLeq(a[i], b[i])
  {
    LexLeqIs(StringLeq, a, b);
  }

  /** The elements of a set in some order. */
  ghost function Elements<T>(s: set<T>): (r: seq<T>)
    ensures multiset(r) == multiset(s)
  {
    if s == {} then []
    else
      var x :| x in s;
      [x] + Elements(s - {x})
  }

  /** The elements of a set in ascending order, as an ordered map yields its keys. */
  ghost function Ascending<T(!new)>(leq: (T, T) -> bool, s: set<T>): (r: seq<T>)
    requires TotalOrder(leq)
    ensures StrictlySorted(leq, r)
    ensures forall x :: x in r <==> x in s
    ensures multiset(r) == multiset(s) && |r| == |s|
  {
    var r := Sort(leq, Elements(s));
    SortedDistinct(leq, r);
    assert forall x :: x in r <==> x in multiset(r);
    assert |r| == |multiset(r)|;
    r
  }

  /** `k` is the first of the keys. */
  ghost predicate IsLeast(k: string, keys: set<string>) {
    k in keys && forall x {:trigger StringLeq(k, x)} :: x in keys ==> StringLeq(k, x)
  }

  lemma {:induction false} LeastExists(keys: set<string>) returns (k: string)
    requires keys != {}
    ensures IsLeast(k, keys)
  {
    var y :| y in keys;
    LexReflexive(CharLeq, y);
    k := y;
    var rest := keys - {y};
    if rest != {} {
      var m := LeastExists(rest);
      LexConnected(CharLeq, y, m);
      if StringLeq(m, y) {
        k := m;
      } else {
        forall x | x in keys ensures StringLeq(y, x) {
          if x != y {
            assert StringLeq(m, x);
            LexTransitive(CharLeq, y, m, x);
          }
        }
      }
    } else {
      assert keys == {y};
    }
  }

  ghost function Least(keys: set<string>): (k: string)
    requires keys != {}
    ensures IsLeast(k, keys)
  {
    assert exists k :: IsLeast(k, keys) by { var k := LeastExists(keys); }
    var k :| IsLeast(k, keys);
    k
  }

  /** The keys of an ordered string map, in iteration order. */
  ghost function SortedKeys(keys: set<string>): (r: seq<string>)
    ensures Distinct(r) && |r| == |keys|
    ensures forall k :: k in r <==> k in keys
  {
    if keys == {} then []
    else [Least(keys)] + SortedKeys(keys - {Least(keys)})
  }

  lemma {:induction false} SortedKeysSorted(keys: set<string>)
    ensures StrictlySorted(StringLeq, SortedKeys(keys))
  {
    if keys != {} {
      var k := Least(keys);
      var rest := SortedKeys(keys - {k});
      SortedKeysSorted(keys - {k});
      forall j | 0 <= j < |rest| ensures StringLeq(k, rest[j]) && k != rest[j] {
        assert rest[j] in rest;
      }
    }
  }

  function SortStrings(s: seq<string>): (r: seq<string>)
    ensures Sorted(StringLeq, r) && multiset(r) == multiset(s)
  {
    StringLeqTotal();
    Sort(StringLeq, s)
  }

  lemma SortedKeysUnique(keys: set<string>, r: seq<string>)
    requires StrictlySorted(StringLeq, r) && forall k :: k in r <==> k in keys
    ensures r == SortedKeys(keys)
  {
    StringLeqTotal();
    SortedKeysSorted(keys);
    StrictlySortedUnique(StringLeq, r, SortedKeys(keys));
  }

  /** Walks an ordered map's keys. */
  method KeysInOrder(keys: set<string>) returns (r: seq<string>)
    ensures r == SortedKeys(keys)
  {
    var found: seq<string> := [];
    var todo := keys;
    while todo != {}
      invariant todo <= keys
      invariant forall k :: k in found <==> k in keys && k !in todo
      invariant Distinct(found)
      decreases todo
    {
      var k :| k in todo;
      found := found + [k];
      todo := todo - {k};
    }
    r := SortStrings(found);
    forall k ensures multiset(found)[k] <= 1 { CountAtMostOne(found, k); }
    SortedDistinct(StringLeq, r);
    assert forall k :: k in r <==> k in multiset(r);
    SortedKeysUnique(keys, r);
  }
}
