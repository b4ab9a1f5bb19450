/** Picking the entry that was accessed longest ago. */
module LeastRecent {
  /** Access times by key. */
  type Accesses = map<string, int>

  predicate IsOldest(accesses: Accesses, k: string)
  {
    k in accesses && forall k' | k' in accesses :: accesses[k] <= accesses[k']
  }

  lemma {:induction false} OldestExists(accesses: Accesses)
    requires accesses != map[]
    ensures exists k :: IsOldest(accesses, k)
    decreases |accesses|
  {
    var k :| k in accesses;
    var rest := accesses - {k};
    assert forall k' | k' in accesses && k' != k :: k' in rest && rest[k'] == accesses[k'];
    if rest == map[] {
      assert IsOldest(accesses, k);
    } else {
      OldestExists(rest);
      var o :| IsOldest(rest, o);
      assert IsOldest(accesses, if accesses[k] <= accesses[o] then k else o);
    }
  }

  /** `min_by_key`: an entry with the least access time, whichever it is. */
  method Oldest(accesses: Accesses) returns (k: string)
    requires accesses != map[]
    ensures IsOldest(accesses, k)
  {
    OldestExists(accesses);
    k :| k in accesses && IsOldest(accesses, k);
  }

  lemma OldestIn(accesses: Accesses, k: string)
    requires IsOldest(accesses, k)
    ensures k in accesses
  {
  }

  lemma SubsetSize(a: set<string>, b: set<string>)
    requires a <= b
    ensures |a| <= |b| && (a != b ==> |a| < |b|)
  {
    assert b == a + (b - a);
  }

  /** Of two different sets of one size, each has something the other has not. */
  lemma PickOutside(a: set<string>, b: set<string>) returns (k: string)
    requires |a| == |b| && a != b
    ensures k in a && k !in b
  {
    if a <= b { SubsetSize(a, b); }
    k :| k in a && k !in b;
  }
}
