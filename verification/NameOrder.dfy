/** The order of type names in a registry: character by character, with the namespace mark before every other character. */
module NameOrder {
  const MARK := '/'

  predicate CharBefore(a: char, b: char) {
    a != b && (a == MARK || (b != MARK && a < b))
  }

  /** `a` and `b` agree on their first `k` characters, and there `a` ends or comes first. */
  ghost predicate BeforeAt(a: string, b: string, k: nat) {
    && k <= |a| && k < |b| && a[..k] == b[..k]
    && (k == |a| || CharBefore(a[k], b[k]))
  }

  ghost predicate Before(a: string, b: string) {
    exists k: nat :: BeforeAt(a, b, k)
  }

  /** `nameSort`. */
  method NameSort(name1: string, name2: string) returns (less: bool)
    ensures less <==> Before(name1, name2)
  {
    for i := 0 to |name1|
      invariant i <= |name2| && name1[..i] == name2[..i]
    {
      if |name2| <= i {
        NeverLonger(name1, name2);
        return false;
      }
      var c1, c2 := name1[i], name2[i];
      if c1 != c2 {
        FirstDifference(name1, name2, i);
        if c1 == MARK {
          return true;
        }
        if c2 == MARK {
          return false;
        }
        return c1 < c2;
      }
    }
    if |name1| < |name2| {
      assert BeforeAt(name1, name2, |name1|);
    } else {
      NeverLonger(name1, name2);
    }
    return |name1| < |name2|;
  }

  /** A name does not come before one of its own beginnings. */
  lemma NeverLonger(a: string, b: string)
    requires |b| <= |a| && a[..|b|] == b
    ensures !Before(a, b)
  {
    forall k: nat ensures !BeforeAt(a, b, k) {
      if k < |b| {
        assert a[k] == a[..|b|][k] == b[k];
      }
    }
  }

  lemma FirstDifference(a: string, b: string, i: nat)
    requires i < |a| && i < |b| && a[..i] == b[..i] && a[i] != b[i]
    ensures Before(a, b) <==> CharBefore(a[i], b[i])
  {
    if CharBefore(a[i], b[i]) {
      assert BeforeAt(a, b, i);
    }
    forall k: nat | BeforeAt(a, b, k) ensures k == i {
      if k < i {
        Agree(a, b, i, k);
      } else if i < k {
        Agree(a, b, k, i);
      }
    }
  }

  lemma Agree(a: string, b: string, n: nat, k: nat)
    requires k < n <= |a| && n <= |b| && a[..n] == b[..n]
    ensures a[k] == b[k]
  {
    assert a[k] == a[..n][k] == b[..n][k] == b[k];
  }

  // ----- a strict total order -----

  lemma Irreflexive(a: string)
    ensures !Before(a, a)
  {
    NeverLonger(a, a);
  }

  lemma Transitive(a: string, b: string, c: string)
    requires Before(a, b) && Before(b, c)
    ensures Before(a, c)
  {
    var i: nat :| BeforeAt(a, b, i);
    var j: nat :| BeforeAt(b, c, j);
    var k := if i < j then i else j;
    assert a[..k] == a[..i][..k] == b[..i][..k] == b[..k] == b[..j][..k] == c[..j][..k] == c[..k];
    if i < j {
      assert b[i] == b[..j][i] == c[..j][i] == c[i];
    } else if j < i {
      assert a[j] == a[..i][j] == b[..i][j] == b[j];
    }
    assert BeforeAt(a, c, k);
  }

  function Common(a: string, b: string): (k: nat)
    ensures k <= |a| && k <= |b| && a[..k] == b[..k]
    ensures k < |a| && k < |b| ==> a[k] != b[k]
  {
    if a == [] || b == [] || a[0] != b[0] then 0 else 1 + Common(a[1..], b[1..])
  }

  lemma Total(a: string, b: string)
    ensures a == b || Before(a, b) || Before(b, a)
  {
    var k := Common(a, b);
    if k < |a| && k < |b| {
      FirstDifference(a, b, k);
      FirstDifference(b, a, k);
    } else if k == |a| && k < |b| {
      assert BeforeAt(a, b, k);
    } else if k < |a| {
      assert BeforeAt(b, a, k);
    }
  }

  // ----- names with a common beginning lie together -----

  predicate Begins(name: string, prefix: string) {
    |prefix| <= |name| && name[..|prefix|] == prefix
  }

  /** Nothing with the prefix comes before it. */
  lemma BeginsAfter(name: string, prefix: string)
    requires Begins(name, prefix)
    ensures !Before(name, prefix)
  {
    NeverLonger(name, prefix);
  }

  /** A name after the prefix, but without it, comes after all that have it. */
  lemma Contiguous(prefix: string, inside: string, outside: string)
    requires Begins(inside, prefix) && !Begins(outside, prefix) && !Before(outside, prefix)
    ensures Before(inside, outside)
  {
    Total(outside, prefix);
    var k: nat :| BeforeAt(prefix, outside, k);
    assert prefix[..|prefix|] == prefix;
    assert inside[..k] == inside[..|prefix|][..k] == prefix[..k];
    assert inside[k] == inside[..|prefix|][k] == prefix[k];
    assert BeforeAt(inside, outside, k);
  }

  /** A name in a deeper namespace need not come first, although the description of the order says so. */
  lemma DeeperNotFirst()
    ensures !Before("/A/B/d/x", "/A/B/class") && Before("/A/B/class", "/A/B/d/x")
  {
    var deep, flat := "/A/B/d/x", "/A/B/class";
    assert deep[..5] == flat[..5];
    FirstDifference(deep, flat, 5);
    FirstDifference(flat, deep, 5);
  }
}
