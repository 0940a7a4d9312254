/** The order in which move reconciliation examines the copied rows of a
    change. The query that lists them leaves the order open; the model fixes
    ascending primary-key order: by change id, then by path, each compared
    character by character. */
module KeyOrder {
  import opened Common

  /** Strict lexicographic order on texts. */
  predicate Before(a: string, b: string)
    decreases |a|
  {
    b != [] && (a == [] || a[0] < b[0] || (a[0] == b[0] && Before(a[1..], b[1..])))
  }

  lemma {:induction false} BeforeIrreflexive(a: string)
    ensures !Before(a, a)
    decreases |a|
  {
    if a != [] {
      BeforeIrreflexive(a[1..]);
    }
  }

  lemma {:induction false} BeforeTransitive(a: string, b: string, c: string)
    requires Before(a, b) && Before(b, c)
    ensures Before(a, c)
    decreases |a|
  {
    if a != [] && a[0] == b[0] && b[0] == c[0] {
      BeforeTransitive(a[1..], b[1..], c[1..]);
    }
  }

  lemma {:induction false} BeforeTotal(a: string, b: string)
    requires a != b
    ensures Before(a, b) || Before(b, a)
    decreases |a|
  {
    if a != [] && b != [] && a[0] == b[0] {
      assert a == [a[0]] + a[1..] && b == [b[0]] + b[1..];
      BeforeTotal(a[1..], b[1..]);
    }
  }

  /** Primary-key order on rows of the paths table. */
  predicate KeyBefore(k1: PathKey, k2: PathKey) {
    Before(k1.0, k2.0) || (k1.0 == k2.0 && Before(k1.1, k2.1))
  }

  lemma KeyBeforeIrreflexive(k: PathKey)
    ensures !KeyBefore(k, k)
  {
    BeforeIrreflexive(k.0);
    BeforeIrreflexive(k.1);
  }

  lemma KeyBeforeTransitive(k1: PathKey, k2: PathKey, k3: PathKey)
    requires KeyBefore(k1, k2) && KeyBefore(k2, k3)
    ensures KeyBefore(k1, k3)
  {
    if Before(k1.0, k2.0) && Before(k2.0, k3.0) {
      BeforeTransitive(k1.0, k2.0, k3.0);
    } else if k1.0 == k2.0 && k2.0 == k3.0 {
      BeforeTransitive(k1.1, k2.1, k3.1);
    }
  }

  lemma KeyBeforeTotal(k1: PathKey, k2: PathKey)
    requires k1 != k2
    ensures KeyBefore(k1, k2) || KeyBefore(k2, k1)
  {
    if k1.0 != k2.0 {
      BeforeTotal(k1.0, k2.0);
    } else {
      BeforeTotal(k1.1, k2.1);
    }
  }

  /** `k` comes first among `keys`. */
  predicate IsFirst(k: PathKey, keys: set<PathKey>) {
    k in keys && forall other :: other in keys && other != k ==> KeyBefore(k, other)
  }

  lemma {:induction false} FirstExists(keys: set<PathKey>)
    requires keys != {}
    ensures exists k :: IsFirst(k, keys)
    decreases keys
  {
    var x :| x in keys;
    if keys == {x} {
      assert IsFirst(x, keys);
    } else {
      FirstExists(keys - {x});
      var m :| IsFirst(m, keys - {x});
      if KeyBefore(x, m) {
        forall other | other in keys && other != x
          ensures KeyBefore(x, other)
        {
          if other != m {
            KeyBeforeTransitive(x, m, other);
          }
        }
        assert IsFirst(x, keys);
      } else {
        KeyBeforeTotal(x, m);
        assert IsFirst(m, keys);
      }
    }
  }

  lemma FirstUnique(k1: PathKey, k2: PathKey, keys: set<PathKey>)
    requires IsFirst(k1, keys) && IsFirst(k2, keys)
    ensures k1 == k2
  {
    if k1 != k2 {
      KeyBeforeTransitive(k1, k2, k1);
      KeyBeforeIrreflexive(k1);
    }
  }

  /** The first of a non-empty set of keys. */
  ghost function First(keys: set<PathKey>): (k: PathKey)
    requires keys != {}
    ensures IsFirst(k, keys)
  {
    FirstExists(keys);
    var k :| IsFirst(k, keys); k
  }
}
