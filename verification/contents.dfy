/** A log of records seen as a map, and the in-memory index that goes with it. */
module LogContents {
  import opened RawEntries
  import opened MetricLog
  import opened LogScan
  import SeqFacts

  /** Inserting the pairs of `keys` and `vals` one after the other. */
  function Collect<V>(keys: seq<StoredMetricKey>, vals: seq<V>): map<StoredMetricKey, V>
    requires |keys| == |vals|
  {
    if keys == [] then map[]
    else Collect(keys[..|keys| - 1], vals[..|vals| - 1])[keys[|keys| - 1] := vals[|vals| - 1]]
  }

  lemma {:induction false} CollectKeys<V>(keys: seq<StoredMetricKey>, vals: seq<V>)
    requires |keys| == |vals|
    ensures forall k :: k in Collect(keys, vals) <==> k in keys
  {
    if keys != [] {
      var n := |keys| - 1;
      CollectKeys(keys[..n], vals[..n]);
      assert keys == keys[..n] + [keys[n]];
    }
  }

  lemma {:induction false} CollectAt<V>(keys: seq<StoredMetricKey>, vals: seq<V>, i: nat)
    requires |keys| == |vals| && i < |keys| && SeqFacts.NoDuplicates(keys)
    ensures keys[i] in Collect(keys, vals) && Collect(keys, vals)[keys[i]] == vals[i]
  {
    var n := |keys| - 1;
    if i < n {
      CollectAt(keys[..n], vals[..n], i);
    }
  }

  lemma CollectUpdate<V>(keys: seq<StoredMetricKey>, vals: seq<V>, i: nat, v: V)
    requires |keys| == |vals| && i < |keys| && SeqFacts.NoDuplicates(keys)
    ensures Collect(keys, vals[i := v]) == Collect(keys, vals)[keys[i] := v]
  {
    var was, now := Collect(keys, vals), Collect(keys, vals[i := v]);
    CollectKeys(keys, vals);
    CollectKeys(keys, vals[i := v]);
    forall k | k in now
      ensures now[k] == was[keys[i] := v][k]
    {
      var j :| 0 <= j < |keys| && keys[j] == k;
      CollectAt(keys, vals, j);
      CollectAt(keys, vals[i := v], j);
    }
    assert now.Keys == was[keys[i] := v].Keys by {
      assert keys[i] in keys;
    }
  }

  lemma CollectAppend<V>(keys: seq<StoredMetricKey>, vals: seq<V>, k: StoredMetricKey, v: V)
    requires |keys| == |vals|
    ensures Collect(keys + [k], vals + [v]) == Collect(keys, vals)[k := v]
  {
    assert (keys + [k])[..|keys|] == keys && (vals + [v])[..|keys|] == vals;
  }

  function Keys(log: seq<Rec>): (keys: seq<StoredMetricKey>)
    ensures |keys| == |log|
  {
    seq(|log|, i requires 0 <= i < |log| => log[i].key)
  }

  function Values(log: seq<Rec>): (vals: seq<Bits>)
    ensures |vals| == |log|
  {
    seq(|log|, i requires 0 <= i < |log| => log[i].value)
  }

  /** The abstract value of a store. */
  function Contents(log: seq<Rec>): map<StoredMetricKey, Bits> {
    Collect(Keys(log), Values(log))
  }

  function ItemKeys(items: seq<Item>): (keys: seq<StoredMetricKey>)
    ensures |keys| == |items|
  {
    seq(|items|, i requires 0 <= i < |items| => items[i].key)
  }

  function Offsets(items: seq<Item>): (offsets: seq<nat>)
    ensures |offsets| == |items|
  {
    seq(|items|, i requires 0 <= i < |items| => items[i].valueOffset)
  }

  /** The index that `rebuild_index` builds from the entries it parsed. */
  function IndexOf(items: seq<Item>): map<StoredMetricKey, nat> {
    Collect(ItemKeys(items), Offsets(items))
  }

  lemma KeysDistinct(log: seq<Rec>)
    requires DistinctKeys(log)
    ensures SeqFacts.NoDuplicates(Keys(log)) && ItemKeys(Items(log)) == Keys(log)
  {
    assert forall i | 0 <= i < |log| :: Keys(log)[i] == log[i].key;
  }

  /** Contents and index have the keys of the log. */
  lemma ContentsKeys(log: seq<Rec>, k: StoredMetricKey)
    requires DistinctKeys(log)
    ensures k in Contents(log) <==> HasKey(log, k)
    ensures k in IndexOf(Items(log)) <==> HasKey(log, k)
  {
    hide ValueAt, Collect, DistinctKeys;
    KeysDistinct(log);
    CollectKeys(Keys(log), Values(log));
    CollectKeys(Keys(log), Offsets(Items(log)));
    if HasKey(log, k) {
      var i :| 0 <= i < |log| && log[i].key == k;
      assert Keys(log)[i] == k;
    }
    if k in Keys(log) {
      var i :| 0 <= i < |log| && Keys(log)[i] == k;
      assert log[i].key == k;
    }
  }

  lemma ContentsAt(log: seq<Rec>, i: nat)
    requires DistinctKeys(log) && i < |log|
    ensures log[i].key in Contents(log) && Contents(log)[log[i].key] == log[i].value
    ensures log[i].key in IndexOf(Items(log)) && IndexOf(Items(log))[log[i].key] == ValueAt(log, i)
  {
    hide ValueAt;
    KeysDistinct(log);
    CollectAt(Keys(log), Values(log), i);
    CollectAt(Keys(log), Offsets(Items(log)), i);
  }

  lemma ContentsAppend(log: seq<Rec>, r: Rec)
    ensures Contents(log + [r]) == Contents(log)[r.key := r.value]
  {
    var more := log + [r];
    assert Keys(more) == Keys(log) + [r.key] && Values(more) == Values(log) + [r.value];
    CollectAppend(Keys(log), Values(log), r.key, r.value);
  }

  lemma ItemsAppend(log: seq<Rec>, r: Rec)
    ensures Items(log + [r]) == Items(log) + [Item(r.key, End(log) + ValueOffset(r.key))]
  {
    hide End, ValueOffset;
    var more := log + [r];
    assert more[..|log|] == log;
    ItemsPrefix(log, more);
    SeqFacts.Snoc(Items(more), |log|);
    assert Items(more)[..|more|] == Items(more);
  }

  lemma IndexAppend(log: seq<Rec>, r: Rec)
    ensures IndexOf(Items(log + [r])) == IndexOf(Items(log))[r.key := End(log) + ValueOffset(r.key)]
  {
    hide End, ValueOffset, Items;
    ItemsAppend(log, r);
    CollectItem(Items(log), Item(r.key, End(log) + ValueOffset(r.key)));
  }

  /** One more parsed entry is one more insertion into the index. */
  lemma CollectItem(items: seq<Item>, item: Item)
    ensures IndexOf(items + [item]) == IndexOf(items)[item.key := item.valueOffset]
  {
    assert ItemKeys(items + [item]) == ItemKeys(items) + [item.key];
    assert Offsets(items + [item]) == Offsets(items) + [item.valueOffset];
    CollectAppend(ItemKeys(items), Offsets(items), item.key, item.valueOffset);
  }

  lemma ContentsOverwrite(log: seq<Rec>, i: nat, v: Bits)
    requires DistinctKeys(log) && i < |log|
    ensures Contents(log[i := Rec(log[i].key, v)]) == Contents(log)[log[i].key := v]
  {
    var log' := log[i := Rec(log[i].key, v)];
    KeysDistinct(log);
    assert Keys(log') == Keys(log) && Values(log') == Values(log)[i := v];
    CollectUpdate(Keys(log), Values(log), i, v);
  }

  lemma ItemsOverwrite(log: seq<Rec>, i: nat, v: Bits)
    requires i < |log|
    ensures Items(log[i := Rec(log[i].key, v)]) == Items(log)
  {
    hide ValueOffset, End;
    var log' := log[i := Rec(log[i].key, v)];
    assert log'[..|log|] == log';
    ItemsPrefix(log, log');
    assert Items(log')[..|log|] == Items(log');
  }
}
