/** Finite sets and sequences: picking a member, sizes, members, removal of a value. */
module Collections {

  datatype Option<+T> = None | Some(value: T)

  function Lookup<K, V>(m: map<K, V>, k: K): Option<V> {
    if k in m then Some(m[k]) else None
  }

  ghost function Pick<T>(s: set<T>): (x: T)
    requires s != {}
    ensures x in s
  {
    var x :| x in s; x
  }

  /** Some member, as `range` over a Go map hands them out: in an order nobody may rely on. */
  method AnyOf<T>(s: set<T>) returns (x: T)
    requires s != {}
    ensures x in s
  {
    x :| x in s;
  }

  lemma {:induction false} SubsetSize<T>(a: set<T>, b: set<T>)
    requires a <= b
    ensures |a| <= |b|
    ensures |a| == |b| ==> a == b
  {
    if a != {} {
      var x := Pick(a);
      SubsetSize(a - {x}, b - {x});
      assert a == a - {x} + {x} && b == b - {x} + {x};
    }
  }

  function Elements<T>(w: seq<T>): set<T> {
    set x | x in w
  }

  lemma NonemptyHasMember<T>(q: seq<T>)
    requires q != []
    ensures Elements(q) != {}
  {
    assert q[0] in Elements(q);
  }

  ghost predicate Distinct<T>(w: seq<T>) {
    forall i, j :: 0 <= i < j < |w| ==> w[i] != w[j]
  }

  function Without<T(==,!new)>(w: seq<T>, x: T): (r: seq<T>)
    ensures forall v :: v in r <==> v in w && v != x
  {
    if w == [] then []
    else
      var n := |w| - 1;
      assert w == w[..n] + [w[n]];
      if w[n] == x then Without(w[..n], x) else Without(w[..n], x) + [w[n]]
  }

  /** The entries that lie in a set, in order. */
  function Within<T(==,!new)>(w: seq<T>, s: set<T>): (r: seq<T>)
    ensures forall v :: v in r <==> v in w && v in s
  {
    if w == [] then []
    else
      var n := |w| - 1;
      assert w == w[..n] + [w[n]];
      if w[n] in s then Within(w[..n], s) + [w[n]] else Within(w[..n], s)
  }

  lemma {:induction false} WithoutDistinct<T(!new)>(w: seq<T>, x: T)
    requires Distinct(w)
    ensures Distinct(Without(w, x))
  {
    if w != [] {
      var n := |w| - 1;
      WithoutDistinct(w[..n], x);
      assert forall i :: 0 <= i < n ==> w[..n][i] == w[i] != w[n];
      assert w[n] !in Without(w[..n], x);
    }
  }

  lemma PrefixOfSum<T>(a: seq<T>, b: seq<T>)
    requires b != []
    ensures (a + b)[..|a| + |b| - 1] == a + b[..|b| - 1] && (a + b)[|a| + |b| - 1] == b[|b| - 1]
  {
  }

  /** Dropping a value works entry by entry and keeps the order: together with its values on
      single entries this determines the list. */
  lemma {:induction false} WithoutSplits<T(!new)>(a: seq<T>, b: seq<T>, x: T)
    ensures Without(a + b, x) == Without(a, x) + Without(b, x)
  {
    if b == [] {
      assert a + b == a;
    } else {
      WithoutSplits(a, b[..|b| - 1], x);
      PrefixOfSum(a, b);
    }
  }

  lemma WithoutOne<T(!new)>(v: T, x: T)
    ensures Without([v], x) == if v == x then [] else [v]
  {
    assert [v][..0] == [];
  }

  lemma {:induction false} WithinSplits<T(!new)>(a: seq<T>, b: seq<T>, s: set<T>)
    ensures Within(a + b, s) == Within(a, s) + Within(b, s)
  {
    if b == [] {
      assert a + b == a;
    } else {
      WithinSplits(a, b[..|b| - 1], s);
      PrefixOfSum(a, b);
    }
  }

  lemma WithinOne<T(!new)>(v: T, s: set<T>)
    ensures Within([v], s) == if v in s then [v] else []
  {
    assert [v][..0] == [];
  }
}
