/** Facts about finite sets, sequences and maps used by both graph classes. */
module Collections {

  /** No element occurs twice in `s`. */
  ghost predicate Distinct<T>(s: seq<T>) {
    forall i, j :: 0 <= i < j < |s| ==> s[i] != s[j]
  }

  /** The set of elements of `s`. */
  ghost function Elements<T>(s: seq<T>): set<T> {
    set x | x in s
  }

  /** The elements of a prefix, one entry at a time. */
  lemma ElementsOfPrefix<T>(s: seq<T>, i: nat)
    requires i < |s|
    ensures Elements(s[..0]) == {}
    ensures Elements(s[..i + 1]) == Elements(s[..i]) + {s[i]}
  {
    assert s[..i + 1] == s[..i] + [s[i]];
  }

  lemma ElementsOfWhole<T>(s: seq<T>)
    ensures Elements(s[..|s|]) == Elements(s)
  {
    assert s[..|s|] == s;
  }

  /** A sequence without repetitions has as many elements as its element set. */
  lemma {:induction false} DistinctCard<T>(s: seq<T>)
    requires Distinct(s)
    ensures |Elements(s)| == |s|
  {
    if s != [] {
      assert Distinct(s[1..]) by {
        forall i, j | 0 <= i < j < |s[1..]| ensures s[1..][i] != s[1..][j] {
          assert s[1..][i] == s[i + 1] && s[1..][j] == s[j + 1];
        }
      }
      DistinctCard(s[1..]);
      assert Elements(s) == Elements(s[1..]) + {s[0]};
      assert s[0] !in Elements(s[1..]);
    }
  }

  /** A finite set has at least two elements exactly when it holds two different ones. */
  lemma CardAtLeastTwo<T>(s: set<T>)
    ensures |s| >= 2 <==> exists a, b :: a in s && b in s && a != b
  {
    if |s| >= 2 {
      var a :| a in s;
      assert |s - {a}| == |s| - 1;
      var b :| b in s - {a};
      assert a in s && b in s && a != b;
    }
    if exists a, b :: a in s && b in s && a != b {
      var a, b :| a in s && b in s && a != b;
      assert |s - {a}| == |s| - 1;
      assert b in s - {a};
    }
  }

  /** A set with exactly one element determines that element. */
  lemma SingletonUnique<T>(s: set<T>)
    requires |s| == 1
    ensures forall a, b :: a in s && b in s ==> a == b
  {
    CardAtLeastTwo(s);
  }

  /**
   * One pass over a finite set in the order the runtime happens to produce:
   * every element exactly once, in some order the caller cannot rely on.
   */
  method Enumerate<T(==)>(s: set<T>) returns (order: seq<T>)
    ensures Distinct(order)
    ensures forall x :: x in order <==> x in s
    ensures |order| == |s|
  {
    order := [];
    var rest := s;
    while rest != {}
      invariant rest <= s
      invariant Distinct(order)
      invariant forall x :: x in order <==> x in s && x !in rest
      invariant |order| + |rest| == |s|
    {
      var x :| x in rest;
      order := order + [x];
      rest := rest - {x};
    }
  }

  /** A second update of the same key overrides the first. */
  lemma UpdateTwice<K, T>(m: map<K, T>, k: K, a: T, b: T)
    ensures m[k := a][k := b] == m[k := b]
  {
  }

  /** `m` with key `k` bound to `d` unless `k` already has a value (Python's "add if absent"). */
  function WithKey<K, T>(m: map<K, T>, k: K, d: T): map<K, T> {
    if k in m then m else m[k := d]
  }
}
