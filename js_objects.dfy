/**
 * A JavaScript object as the ordered list of its own enumerable entries,
 * the list `Object.entries` returns; property access and `in` look a key up.
 */
module JsObjects {
  import opened Wrappers

  function Keys<V>(entries: seq<(string, V)>): (ks: seq<string>)
    ensures |ks| == |entries|
    ensures forall i :: 0 <= i < |entries| ==> ks[i] == entries[i].0
  {
    if entries == [] then [] else [entries[0].0] + Keys(entries[1..])
  }

  predicate DistinctKeys<V>(entries: seq<(string, V)>) {
    forall i, j :: 0 <= i < j < |entries| ==> entries[i].0 != entries[j].0
  }

  /** `obj[key]`: the value of the first entry named `key`, or None (`undefined`). */
  function Lookup<V>(entries: seq<(string, V)>, key: string): (r: Option<V>)
    ensures r.None? <==> forall i :: 0 <= i < |entries| ==> entries[i].0 != key
    ensures r.Some? ==>
      exists i :: 0 <= i < |entries| && entries[i] == (key, r.value) && forall j :: 0 <= j < i ==> entries[j].0 != key
  {
    if entries == [] then None
    else if entries[0].0 == key then Some(entries[0].1)
    else
      var r := Lookup(entries[1..], key);
      assert forall i :: 1 <= i < |entries| ==> entries[i] == entries[1..][i - 1];
      r
  }

  /** `key in obj` exactly when some entry carries that key. */
  lemma {:induction false} LookupSomeIff<V>(entries: seq<(string, V)>, key: string)
    ensures Lookup(entries, key).Some? <==> key in Keys(entries)
  {
    if entries != [] {
      LookupSomeIff(entries[1..], key);
      assert Keys(entries) == [entries[0].0] + Keys(entries[1..]);
    }
  }

  /** With distinct keys, looking an entry's key up gives that entry's value. */
  lemma {:induction false} LookupEntry<V>(entries: seq<(string, V)>, i: nat)
    requires DistinctKeys(entries)
    requires i < |entries|
    ensures Lookup(entries, entries[i].0) == Some(entries[i].1)
  {
    if i > 0 {
      assert entries[0].0 != entries[i].0;
      assert entries[1..][i - 1] == entries[i];
      LookupEntry(entries[1..], i - 1);
    }
  }

  /** Entries added after a key do not change what the key finds. */
  lemma {:induction false} LookupAppend<V>(a: seq<(string, V)>, b: seq<(string, V)>, key: string)
    ensures Lookup(a + b, key) == if Lookup(a, key).Some? then Lookup(a, key) else Lookup(b, key)
  {
    if a == [] {
      assert a + b == b;
    } else {
      assert (a + b)[0] == a[0];
      assert (a + b)[1..] == a[1..] + b;
      LookupAppend(a[1..], b, key);
    }
  }
}
