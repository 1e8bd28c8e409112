/** Tables as sequences of rows, and the group-by aggregation that the
    pipeline applies three times: rows are grouped on a key, and every group
    is reduced to column sums and a count. */
module Tables {

  /** A grouping key: (specie_str, structure_renamed). */
  type Key = (string, string)

  /** The sum of column f over the rows of s. */
  function Sum<T>(s: seq<T>, f: T -> real): real
  {
    if s == [] then 0.0 else f(s[0]) + Sum(s[1..], f)
  }

  lemma {:induction false} SumAppend<T>(a: seq<T>, b: seq<T>, f: T -> real)
    ensures Sum(a + b, f) == Sum(a, f) + Sum(b, f)
  {
    if a == [] {
      assert a + b == b;
    } else {
      assert (a + b)[1..] == a[1..] + b;
      SumAppend(a[1..], b, f);
    }
  }

  /** A column sum does not depend on the order of the rows. */
  lemma {:induction false} SumPermutation<T>(s: seq<T>, t: seq<T>, f: T -> real)
    requires multiset(s) == multiset(t)
    ensures Sum(s, f) == Sum(t, f)
    decreases |s|
  {
    if s == [] {
      assert |t| == |multiset(t)| == 0;
    } else {
      var a, b := PermutationSplit(s, t);
      SumPermutation(s[1..], a + b, f);
      SumAppend(a, [s[0]] + b, f);
      SumAppend(a, b, f);
      assert ([s[0]] + b)[1..] == b;
    }
  }

  lemma SumSingleton<T>(x: T, f: T -> real)
    ensures Sum([x], f) == f(x)
  {
    assert [x][1..] == [];
  }

  lemma SumOfThree<T>(x: T, y: T, z: T, f: T -> real)
    ensures Sum([x, y, z], f) == f(x) + f(y) + f(z)
  {
    assert [x, y, z][1..] == [y, z];
    assert [y, z][1..] == [z];
    SumSingleton(z, f);
  }

  lemma {:induction false} SumNonNegative<T>(s: seq<T>, f: T -> real)
    requires forall x :: x in s ==> f(x) >= 0.0
    ensures Sum(s, f) >= 0.0
  {
    if s != [] {
      assert forall x :: x in s[1..] ==> x in s;
      SumNonNegative(s[1..], f);
    }
  }

  lemma {:induction false} SumZero<T>(s: seq<T>, f: T -> real)
    requires forall x :: x in s ==> f(x) == 0.0
    ensures Sum(s, f) == 0.0
  {
    if s != [] {
      assert forall x :: x in s[1..] ==> x in s;
      SumZero(s[1..], f);
    }
  }

  lemma {:induction false} SumPositive<T>(s: seq<T>, f: T -> real)
    requires s != []
    requires forall x :: x in s ==> f(x) > 0.0
    ensures Sum(s, f) > 0.0
  {
    assert forall x :: x in s[1..] ==> x in s;
    SumNonNegative(s[1..], f);
  }

  lemma Distribute(a: real, x: real, y: real)
    ensures a * (x + y) == a * x + a * y
  {
  }

  /** g lies between lo * w and hi * w, for a non-negative w. */
  predicate Between(lo: real, hi: real, w: real, g: real)
  {
    w >= 0.0 && lo * w <= g <= hi * w
  }

  /** If every row's g lies between lo * w and hi * w for a non-negative
      weight w, the column sums keep that relation. */
  lemma {:induction false} SumBetween<T>(s: seq<T>, w: T -> real, g: T -> real, lo: real, hi: real)
    requires forall x :: x in s ==> Between(lo, hi, w(x), g(x))
    ensures Between(lo, hi, Sum(s, w), Sum(s, g))
  {
    if s != [] {
      assert forall x :: x in s[1..] ==> x in s;
      SumBetween(s[1..], w, g, lo, hi);
      var w0, ws, g0, gs := w(s[0]), Sum(s[1..], w), g(s[0]), Sum(s[1..], g);
      assert Between(lo, hi, w0, g0);
      assert Sum(s, w) == w0 + ws;
      assert Sum(s, g) == g0 + gs;
      Distribute(lo, w0, ws);
      Distribute(hi, w0, ws);
    }
  }

  /** h is the linear combination a * f1 + b * f2 + c * f3 at one point. */
  predicate Combination(h: real, f1: real, f2: real, f3: real, a: real, b: real, c: real)
  {
    h == a * f1 + b * f2 + c * f3
  }

  lemma CombinationAdd(h0: real, x0: real, y0: real, z0: real, h1: real, x1: real, y1: real, z1: real,
                       a: real, b: real, c: real)
    requires Combination(h0, x0, y0, z0, a, b, c) && Combination(h1, x1, y1, z1, a, b, c)
    ensures Combination(h0 + h1, x0 + x1, y0 + y1, z0 + z1, a, b, c)
  {
    Distribute(a, x0, x1);
    Distribute(b, y0, y1);
    Distribute(c, z0, z1);
  }

  /** A column sum is linear in the column. */
  lemma {:induction false} SumLinear<T>(s: seq<T>, h: T -> real, f1: T -> real, f2: T -> real, f3: T -> real,
                                        a: real, b: real, c: real)
    requires forall x :: x in s ==> Combination(h(x), f1(x), f2(x), f3(x), a, b, c)
    ensures Combination(Sum(s, h), Sum(s, f1), Sum(s, f2), Sum(s, f3), a, b, c)
  {
    if s != [] {
      assert forall x :: x in s[1..] ==> x in s;
      SumLinear(s[1..], h, f1, f2, f3, a, b, c);
      assert Combination(h(s[0]), f1(s[0]), f2(s[0]), f3(s[0]), a, b, c);
      CombinationAdd(h(s[0]), f1(s[0]), f2(s[0]), f3(s[0]),
                     Sum(s[1..], h), Sum(s[1..], f1), Sum(s[1..], f2), Sum(s[1..], f3), a, b, c);
    }
  }

  /** A property of every indexed element is a property of every member. */
  lemma InSeqIndexed<T>(s: seq<T>, p: T -> bool)
    requires forall i :: 0 <= i < |s| ==> p(s[i])
    ensures forall x :: x in s ==> p(x)
  {
  }

  /** The rows of s whose key is k, in their original order. */
  function Group<T>(s: seq<T>, key: T -> Key, k: Key): (g: seq<T>)
    ensures forall x :: x in g ==> x in s && key(x) == k
    ensures |g| <= |s|
  {
    if s == [] then []
    else if key(s[0]) == k then [s[0]] + Group(s[1..], key, k)
    else Group(s[1..], key, k)
  }

  /** The distinct keys that occur in s. */
  function KeysOf<T>(s: seq<T>, key: T -> Key): set<Key>
  {
    set i | 0 <= i < |s| :: key(s[i])
  }

  /** One group per distinct key of s. */
  function GroupBy<T>(s: seq<T>, key: T -> Key): map<Key, seq<T>>
  {
    map k | k in KeysOf(s, key) :: Group(s, key, k)
  }

  /** The masked column sum: f over the rows with key k, 0 for the others. */
  function SumWhere<T>(s: seq<T>, key: T -> Key, k: Key, f: T -> real): real
  {
    if s == [] then 0.0 else (if key(s[0]) == k then f(s[0]) else 0.0) + SumWhere(s[1..], key, k, f)
  }

  /** The number of rows with key k. */
  function CountWhere<T>(s: seq<T>, key: T -> Key, k: Key): nat
  {
    if s == [] then 0 else (if key(s[0]) == k then 1 else 0) + CountWhere(s[1..], key, k)
  }

  /** A group holds every row with its key, as often as the table does, and no other row. */
  lemma {:induction false} GroupMultiplicity<T>(s: seq<T>, key: T -> Key, k: Key, x: T)
    ensures multiset(Group(s, key, k))[x] == if key(x) == k then multiset(s)[x] else 0
  {
    if s != [] {
      GroupMultiplicity(s[1..], key, k, x);
      assert s == [s[0]] + s[1..];
    }
  }

  /** The group of k is non-empty exactly when k occurs in the table. */
  lemma GroupNonEmpty<T>(s: seq<T>, key: T -> Key, k: Key)
    ensures Group(s, key, k) != [] <==> k in KeysOf(s, key)
  {
    if k in KeysOf(s, key) {
      var i :| 0 <= i < |s| && key(s[i]) == k;
      GroupMultiplicity(s, key, k, s[i]);
      assert s[i] in multiset(Group(s, key, k));
    }
  }

  /** Summing a column over a group is the masked sum over the whole table. */
  lemma {:induction false} GroupSum<T>(s: seq<T>, key: T -> Key, k: Key, f: T -> real)
    ensures Sum(Group(s, key, k), f) == SumWhere(s, key, k, f)
  {
    if s != [] {
      GroupSum(s[1..], key, k, f);
      if key(s[0]) == k {
        assert ([s[0]] + Group(s[1..], key, k))[1..] == Group(s[1..], key, k);
      }
    }
  }

  /** The size of a group is the number of rows with its key. */
  lemma {:induction false} GroupCount<T>(s: seq<T>, key: T -> Key, k: Key)
    ensures |Group(s, key, k)| == CountWhere(s, key, k)
  {
    if s != [] {
      GroupCount(s[1..], key, k);
    }
  }

  lemma MultisetEquality<T>(a: multiset<T>, b: multiset<T>)
    requires forall x :: a[x] == b[x]
    ensures a == b
  {
  }

  lemma MapEquality<V>(a: map<Key, V>, b: map<Key, V>)
    requires a.Keys == b.Keys
    requires forall k :: k in a ==> a[k] == b[k]
    ensures a == b
  {
  }

  lemma MultisetCancel<T>(x: multiset<T>, z: multiset<T>, y: T)
    requires x + multiset{y} == z + multiset{y}
    ensures x == z
  {
    forall e ensures x[e] == z[e] {
      assert (x + multiset{y})[e] == (z + multiset{y})[e];
    }
    MultisetEquality(x, z);
  }

  /** Reordering the table changes neither the set of groups nor what each holds. */
  lemma GroupByPermutation<T>(s: seq<T>, t: seq<T>, key: T -> Key)
    requires multiset(s) == multiset(t)
    ensures KeysOf(s, key) == KeysOf(t, key)
    ensures forall k :: multiset(Group(s, key, k)) == multiset(Group(t, key, k))
  {
    forall k ensures multiset(Group(s, key, k)) == multiset(Group(t, key, k)) {
      var gs, gt := multiset(Group(s, key, k)), multiset(Group(t, key, k));
      forall x ensures gs[x] == gt[x] {
        GroupMultiplicity(s, key, k, x);
        GroupMultiplicity(t, key, k, x);
      }
      MultisetEquality(gs, gt);
    }
    forall k ensures k in KeysOf(s, key) <==> k in KeysOf(t, key) {
      GroupNonEmpty(s, key, k);
      GroupNonEmpty(t, key, k);
      assert |Group(s, key, k)| == |multiset(Group(s, key, k))|;
      assert |Group(t, key, k)| == |multiset(Group(t, key, k))|;
    }
  }

  /** Applies f to every row, keeping count and order. */
  function MapRows<T, U>(s: seq<T>, f: T --> U): (r: seq<U>)
    requires forall x :: x in s ==> f.requires(x)
    ensures |r| == |s|
    ensures forall i :: 0 <= i < |s| ==> r[i] == f(s[i])
  {
    if s == [] then [] else [f(s[0])] + MapRows(s[1..], f)
  }

  lemma {:induction false} MapRowsAppend<T, U>(a: seq<T>, b: seq<T>, f: T --> U)
    requires forall x :: x in a + b ==> f.requires(x)
    ensures MapRows(a + b, f) == MapRows(a, f) + MapRows(b, f)
  {
    assert forall x :: x in a ==> x in a + b;
    assert forall x :: x in b ==> x in a + b;
  }

  /** Inserting a row into a table inserts its image into the mapped table. */
  lemma MapRowsInsert<T, U>(a: seq<T>, y: T, b: seq<T>, f: T --> U)
    requires forall x :: x in a + ([y] + b) ==> f.requires(x)
    ensures forall x :: x in a + b ==> f.requires(x)
    ensures multiset(MapRows(a + ([y] + b), f)) == multiset(MapRows(a + b, f)) + multiset{f(y)}
  {
    assert forall x :: x in a + b ==> x in a + ([y] + b);
    assert forall x :: x in [y] + b ==> x in a + ([y] + b);
    var ma, mb := MapRows(a, f), MapRows(b, f);
    assert MapRows(a + ([y] + b), f) == ma + ([f(y)] + mb) by {
      MapRowsAppend(a, [y] + b, f);
      MapRowsAppend([y], b, f);
    }
    assert MapRows(a + b, f) == ma + mb by {
      MapRowsAppend(a, b, f);
    }
  }

  /** Reordering a table reorders its image under a row-wise map the same way. */
  lemma {:induction false} MapRowsPermutation<T, U>(s: seq<T>, t: seq<T>, f: T --> U)
    requires multiset(s) == multiset(t)
    requires forall x :: x in s ==> f.requires(x)
    ensures forall x :: x in t ==> f.requires(x)
    ensures multiset(MapRows(s, f)) == multiset(MapRows(t, f))
    decreases |s|
  {
    assert forall x :: x in t ==> x in multiset(s);
    if s == [] {
      assert |t| == |multiset(t)| == 0;
    } else {
      var a, b := PermutationSplit(s, t);
      assert forall x :: x in s[1..] ==> x in s;
      MapRowsPermutation(s[1..], a + b, f);
      MapRowsInsert(a, s[0], b, f);
      assert MapRows(s, f) == [f(s[0])] + MapRows(s[1..], f);
    }
  }

  /** The first row of s sits somewhere in its permutation t, between a
      prefix a and a suffix b, and the remaining rows of both are again
      permutations of each other. */
  lemma PermutationSplit<T>(s: seq<T>, t: seq<T>) returns (a: seq<T>, b: seq<T>)
    requires s != [] && multiset(s) == multiset(t)
    ensures t == a + ([s[0]] + b)
    ensures multiset(s[1..]) == multiset(a + b)
  {
    assert s[0] in multiset(t);
    var j :| 0 <= j < |t| && t[j] == s[0];
    a, b := t[..j], t[j + 1..];
    assert t == a + ([t[j]] + b) by {
      assert t[j..] == [t[j]] + b;
      assert t == a + t[j..];
    }
    assert multiset(t) == multiset(a) + multiset(b) + multiset{s[0]} by {
      assert multiset(t) == multiset(a) + multiset([t[j]] + b);
    }
    assert multiset(s) == multiset(s[1..]) + multiset{s[0]} by {
      assert s == [s[0]] + s[1..];
    }
    assert multiset(a + b) == multiset(a) + multiset(b);
    MultisetCancel(multiset(s[1..]), multiset(a + b), s[0]);
  }

  /** Grouping the image of a key-preserving row-wise map is mapping the group. */
  lemma {:induction false} GroupOfMapRows<T, U>(s: seq<T>, f: T --> U, keyT: T -> Key, keyU: U -> Key, k: Key)
    requires forall x :: x in s ==> f.requires(x) && keyU(f(x)) == keyT(x)
    ensures Group(MapRows(s, f), keyU, k) == MapRows(Group(s, keyT, k), f)
  {
    if s != [] {
      assert forall x :: x in s[1..] ==> x in s;
      GroupOfMapRows(s[1..], f, keyT, keyU, k);
      assert MapRows(s, f)[1..] == MapRows(s[1..], f);
    }
  }
}
