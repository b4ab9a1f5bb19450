/**
The order of event files by first version and then by name: the order of every catalog query
(`ORDER BY first_version, name`) and of the file summaries from which the catalog is rebuilt.
*/
module VersionOrder {
  import TextOrder

  /** First versions by file name. */
  type Keys = map<string, int>

  predicate Before(keys: Keys, a: string, b: string)
    requires a in keys && b in keys
  {
    keys[a] < keys[b] || (keys[a] == keys[b] && TextOrder.Less(a, b))
  }

  predicate IsGreatest(keys: Keys, m: string)
  {
    m in keys && forall n | n in keys && n != m :: Before(keys, n, m)
  }

  lemma BeforeIsTransitive(keys: Keys, a: string, b: string, c: string)
    requires a in keys && b in keys && c in keys
    requires Before(keys, a, b) && Before(keys, b, c)
    ensures Before(keys, a, c)
  {
    if keys[a] == keys[b] == keys[c] { TextOrder.Transitive(a, b, c); }
  }

  lemma {:induction false} GreatestExists(keys: Keys)
    requires keys != map[]
    ensures exists m :: IsGreatest(keys, m)
    decreases |keys|
  {
    var a :| a in keys;
    var rest := keys - {a};
    if rest == map[] {
      assert forall n | n in keys && n != a :: n in rest;
      assert IsGreatest(keys, a);
    } else {
      GreatestExists(rest);
      var m :| IsGreatest(rest, m);
      TextOrder.Total(a, m);
      forall n | n in keys && n != a && n != m ensures Before(keys, n, m) {
        assert n in rest && Before(rest, n, m);
      }
      if Before(keys, a, m) {
        assert IsGreatest(keys, m);
      } else {
        forall n | n in keys && n != a ensures Before(keys, n, a) {
          if n != m { BeforeIsTransitive(keys, n, m, a); }
        }
        assert IsGreatest(keys, a);
      }
    }
  }

  lemma GreatestUnique(keys: Keys, a: string, b: string)
    requires IsGreatest(keys, a) && IsGreatest(keys, b)
    ensures a == b
  {
    if a != b {
      assert Before(keys, a, b) && Before(keys, b, a);
      TextOrder.Asymmetric(a, b);
    }
  }

  /** The file that comes last. */
  function Greatest(keys: Keys): (m: string)
    requires keys != map[]
    ensures IsGreatest(keys, m)
  {
    GreatestExists(keys);
    assert forall a, b | IsGreatest(keys, a) && IsGreatest(keys, b) :: a == b by {
      forall a, b | IsGreatest(keys, a) && IsGreatest(keys, b) ensures a == b { GreatestUnique(keys, a, b); }
    }
    var m :| IsGreatest(keys, m); m
  }

  predicate InOrder(keys: Keys, names: seq<string>)
  {
    && (forall i | 0 <= i < |names| :: names[i] in keys)
    && (forall i, j | 0 <= i < j < |names| :: Before(keys, names[i], names[j]))
  }

  /** All names in order. */
  function Sorted(keys: Keys): (names: seq<string>)
    ensures forall n :: n in names <==> n in keys
    decreases |keys|
  {
    if keys == map[] then []
    else
      var m := Greatest(keys);
      Sorted(keys - {m}) + [m]
  }

  lemma {:induction false} SortedInOrder(keys: Keys)
    ensures InOrder(keys, Sorted(keys))
    ensures forall i, j | 0 <= i < j < |Sorted(keys)| ::
              var a, b := Sorted(keys)[i], Sorted(keys)[j];
              a in keys && b in keys && (keys[a] < keys[b] || (keys[a] == keys[b] && TextOrder.Less(a, b)))
    decreases |keys|
  {
    if keys != map[] {
      var m := Greatest(keys);
      var rest := keys - {m};
      SortedInOrder(rest);
      forall i, j | 0 <= i < j < |Sorted(keys)| ensures Before(keys, Sorted(keys)[i], Sorted(keys)[j]) {
        if j == |Sorted(keys)| - 1 {
          assert Sorted(rest)[i] in rest;
        } else {
          assert Before(rest, Sorted(rest)[i], Sorted(rest)[j]);
        }
      }
    }
  }

  /** There is only one way to put the names in order. */
  lemma {:induction false} SortedUnique(keys: Keys, names: seq<string>)
    requires forall n :: n in names <==> n in keys
    requires InOrder(keys, names)
    ensures names == Sorted(keys)
    decreases |names|
  {
    if names == [] {
      assert keys == map[];
    } else {
      assert names[0] in keys;
      var m := Greatest(keys);
      assert m in names;
      var front, last := names[..|names| - 1], names[|names| - 1];
      assert names == front + [last];
      GreatestIsLast(keys, names);
      var rest := keys - {m};
      forall n ensures n in front <==> n in rest {
        if n in front {
          var i :| 0 <= i < |front| && front[i] == n;
          assert Before(keys, names[i], names[|names| - 1]);
          TextOrder.Irreflexive(m);
        }
      }
      SortedUnique(rest, front);
    }
  }

  lemma GreatestIsLast(keys: Keys, names: seq<string>)
    requires names != [] && (forall n :: n in names <==> n in keys) && InOrder(keys, names)
    ensures keys != map[] && Greatest(keys) == names[|names| - 1]
  {
    var last := names[|names| - 1];
    assert last in keys;
    var m := Greatest(keys);
    if last != m {
      var i :| 0 <= i < |names| && names[i] == m;
      assert Before(keys, m, last) && Before(keys, last, m);
      TextOrder.Asymmetric(m, last);
    }
  }

  lemma {:induction false} SortedLength(keys: Keys)
    ensures |Sorted(keys)| == |keys|
    decreases |keys|
  {
    if keys != map[] { SortedLength(keys - {Greatest(keys)}); }
  }
}
