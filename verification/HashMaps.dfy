/** The iteration order of a hash map: any list of its keys, each once. */
module HashMaps {
  ghost predicate Enumerates(order: seq<string>, keys: set<string>) {
    && (forall name :: name in order <==> name in keys)
    && (forall i, j | 0 <= i < j < |order| :: order[i] != order[j])
  }

  lemma {:induction false} EnumerationExists(keys: set<string>) returns (order: seq<string>)
    ensures Enumerates(order, keys)
    decreases |keys|
  {
    if keys == {} {
      order := [];
    } else {
      var k :| k in keys;
      var rest := EnumerationExists(keys - {k});
      order := rest + [k];
    }
  }
}
