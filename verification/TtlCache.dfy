/** The in-memory cache with expiry, an item counter kept beside the map, and a one-pass
    eviction of the items that expire first. Instants and durations are whole nanoseconds. */
module TtlCache {
  import opened Results

  datatype Item<+V> = Item(value: V, expiration: int)

  type Data<V> = map<string, Item<V>>

  /** How many items one eviction removes. */
  function Threshold(maxItems: int): int {
    if maxItems / 5 > 1 then maxItems / 5 else 1
  }

  /** `evicted` are the `k` items of the cache that expire first; ties are broken freely. */
  ghost predicate ExpireFirst<V>(data: Data<V>, evicted: set<string>, k: int) {
    && evicted <= data.Keys && |evicted| == k
    && forall out, kept :: out in evicted && kept in data.Keys - evicted ==>
                             data[out].expiration <= data[kept].expiration
  }

  /** The one item that expires last is never among them, if anything is kept. */
  lemma LastToExpireIsKept<V>(data: Data<V>, evicted: set<string>, k: int, last: string)
    requires ExpireFirst(data, evicted, k) && k < |data|
    requires last in data && forall other :: other in data && other != last ==> data[other].expiration < data[last].expiration
    ensures last !in evicted
  {
    var kept := data.Keys - evicted;
    assert |data.Keys| == |data| && data.Keys == evicted + kept;
    assert |kept| > 0;
    var other :| other in kept;
  }

  /** The cache after storing an item: at the limit it is stored as is, above it the items that
      expire first are evicted, and the new item may be one of them. */
  ghost predicate Stored<V>(before: Data<V>, key: string, item: Item<V>, maxItems: int, after: Data<V>) {
    var full := before[key := item];
    if maxItems > 0 && |full| > maxItems
    then exists evicted :: ExpireFirst(full, evicted, Threshold(maxItems)) && after == full - evicted
    else after == full
  }

  /** What is left keeps its value, and whatever is gone expires no later than anything left. */
  ghost predicate KeepsLatest<V>(full: Data<V>, left: Data<V>) {
    && (forall k :: k in left ==> k in full && left[k] == full[k])
    && (forall gone, k :: gone in full && gone !in left && k in left ==> full[gone].expiration <= full[k].expiration)
  }

  lemma EvictionKeepsLatest<V>(full: Data<V>, evicted: set<string>, k: int)
    requires ExpireFirst(full, evicted, k)
    ensures KeepsLatest(full, full - evicted)
  {
  }

  /** The cache without the items that expired before `now`. */
  function Unexpired<V>(data: Data<V>, now: int): Data<V> {
    map k | k in data && now <= data[k].expiration :: data[k]
  }

  lemma RemoveOne<V>(data: Data<V>, key: string)
    ensures |data - {key}| == |data| - if key in data then 1 else 0
  {
    var rest := data - {key};
    assert |data.Keys| == |data| && |rest.Keys| == |rest|;
    assert rest.Keys == data.Keys - {key};
  }

  lemma PutOne<V>(data: Data<V>, key: string, item: Item<V>)
    ensures |data[key := item]| == |data| + if key in data then 0 else 1
  {
    RemoveOne(data[key := item], key);
    RemoveOne(data, key);
    assert data[key := item] - {key} == data - {key};
  }

  // The one-pass selection of the items that expire first.

  /** The keys and items selected so far. */
  ghost predicate Selected<V>(data: Data<V>, chosen: seq<(string, Item<V>)>) {
    && (forall c :: c in chosen ==> c.0 in data && data[c.0] == c.1)
    && (forall i, j :: 0 <= i < j < |chosen| ==> chosen[i].0 != chosen[j].0)
  }

  ghost function Keys<V>(chosen: seq<(string, Item<V>)>): set<string> {
    set c | c in chosen :: c.0
  }

  /** The selection holds the first `k` to expire of the visited rows, or all of them. */
  ghost predicate Selecting<V>(data: Data<V>, visited: set<(string, Item<V>)>, chosen: seq<(string, Item<V>)>, k: int) {
    && Selected(data, chosen) && visited <= data.Items && |chosen| <= k
    && (forall c :: c in chosen ==> c in visited)
    && (|chosen| < k ==> forall v :: v in visited ==> v in chosen)
    && (forall c, v :: c in chosen && v in visited && v !in chosen ==> c.1.expiration <= v.1.expiration)
  }

  lemma SelectMore<V>(data: Data<V>, visited: set<(string, Item<V>)>, chosen: seq<(string, Item<V>)>, k: int,
                      row: (string, Item<V>))
    requires Selecting(data, visited, chosen, k) && |chosen| < k && row in data.Items && row !in visited
    ensures Selecting(data, visited + {row}, chosen + [row], k)
  {
    forall c | c in chosen ensures c.0 != row.0 {
      assert c in data.Items;
    }
  }

  lemma KeepSelection<V>(data: Data<V>, visited: set<(string, Item<V>)>, chosen: seq<(string, Item<V>)>, k: int,
                         row: (string, Item<V>))
    requires Selecting(data, visited, chosen, k) && |chosen| == k && row in data.Items
    requires forall c :: c in chosen ==> c.1.expiration <= row.1.expiration
    ensures Selecting(data, visited + {row}, chosen, k)
  {
  }

  lemma ReplaceNewest<V>(data: Data<V>, visited: set<(string, Item<V>)>, chosen: seq<(string, Item<V>)>, k: int,
                         row: (string, Item<V>), newest: nat)
    requires Selecting(data, visited, chosen, k) && |chosen| == k && row in data.Items && row !in visited
    requires newest < |chosen| && row.1.expiration < chosen[newest].1.expiration
    requires forall i :: 0 <= i < |chosen| ==> chosen[i].1.expiration <= chosen[newest].1.expiration
    ensures Selecting(data, visited + {row}, chosen[newest := row], k)
  {
    var next := chosen[newest := row];
    forall i, j | 0 <= i < j < |next| ensures next[i].0 != next[j].0 {
      assert chosen[i] in chosen && chosen[j] in chosen;
    }
    assert next[newest] == row;
    forall i | 0 <= i < |chosen| && i != newest ensures chosen[i] in next {
      assert next[i] == chosen[i];
    }
    forall c | c in next ensures c == row || c in chosen {}
    forall v | v in visited + {row} && v !in next ensures v == chosen[newest] || (v in visited && v !in chosen) {
      if v in chosen {
        var i :| 0 <= i < |chosen| && chosen[i] == v;
      }
    }
    forall c, v | c in next && v in visited + {row} && v !in next ensures c.1.expiration <= v.1.expiration {
      if v == chosen[newest] {
      } else if c == row {
        assert chosen[newest] in chosen;
      }
    }
  }

  lemma AllChosen<V>(data: Data<V>, chosen: seq<(string, Item<V>)>)
    requires Selected(data, chosen) && forall v :: v in data.Items ==> v in chosen
    ensures |chosen| == |data|
  {
    var keys := Keys(chosen);
    DistinctKeys(data, chosen);
    forall key | key in data.Keys ensures key in keys {
      assert (key, data[key]) in data.Items;
    }
    assert keys == data.Keys && |data.Keys| == |data|;
  }

  /** A run over all rows selects exactly `k` of them when there are that many. */
  lemma SelectionIsFull<V>(data: Data<V>, chosen: seq<(string, Item<V>)>, k: int)
    requires Selecting(data, data.Items, chosen, k) && 0 < k < |data|
    ensures |chosen| == k && ExpireFirst(data, Keys(chosen), k)
  {
    var keys := Keys(chosen);
    DistinctKeys(data, chosen);
    if |chosen| < k {
      AllChosen(data, chosen);
    }
    forall out, kept | out in keys && kept in data.Keys - keys
      ensures data[out].expiration <= data[kept].expiration
    {
      assert (out, data[out]) in chosen by {
        var c :| c in chosen && c.0 == out;
      }
      assert (kept, data[kept]) in data.Items && (kept, data[kept]) !in chosen;
    }
  }

  lemma {:induction false} DistinctKeys<V>(data: Data<V>, chosen: seq<(string, Item<V>)>)
    requires Selected(data, chosen)
    ensures |Keys(chosen)| == |chosen| && Keys(chosen) <= data.Keys
  {
    if |chosen| > 0 {
      var n := |chosen| - 1;
      DistinctKeys(data, chosen[..n]);
      var rest := Keys(chosen[..n]);
      assert chosen == chosen[..n] + [chosen[n]];
      assert Keys(chosen) == rest + {chosen[n].0};
      forall c | c in chosen[..n] ensures c.0 != chosen[n].0 {
        var i :| 0 <= i < n && chosen[i] == c;
      }
    } else {
      assert Keys(chosen) == {};
    }
  }

  lemma NoKeys<V>()
    ensures Keys<V>([]) == {}
  {
  }

  lemma RemoveOneMore<V>(data: Data<V>, keys: set<string>, key: string)
    ensures data - keys - {key} == data - (keys + {key})
  {
  }

  lemma DeleteCandidate<V>(data: Data<V>, chosen: seq<(string, Item<V>)>, i: nat)
    requires Selected(data, chosen) && i < |chosen|
    ensures chosen[i].0 in data - Keys(chosen[..i])
    ensures Keys(chosen[..i + 1]) == Keys(chosen[..i]) + {chosen[i].0}
  {
    assert chosen[..i + 1] == chosen[..i] + [chosen[i]] && chosen[i] in chosen;
    forall c | c in chosen[..i] ensures c.0 != chosen[i].0 {
      var j :| 0 <= j < i && chosen[j] == c;
    }
  }

  class Cache<V(==)> {
    var itemCount: int
    var data: Data<V>
    const maxItems: int
    const defaultTtl: int

    ghost predicate Valid()
      reads this
    {
      itemCount == |data| && (maxItems > 0 ==> |data| <= maxItems)
    }

    constructor (maxItems: int, defaultTtl: int)
      ensures Valid() && data == map[] && this.maxItems == maxItems && this.defaultTtl == defaultTtl
    {
      this.maxItems, this.defaultTtl := maxItems, defaultTtl;
      itemCount, data := 0, map[];
    }

    method Set(key: string, value: V, now: int)
      requires Valid()
      modifies this
      ensures Valid() && Stored(old(data), key, Item(value, now + defaultTtl), maxItems, data)
    {
      SetWithTtl(key, value, defaultTtl, now);
    }

    method SetWithTtl(key: string, value: V, ttl: int, now: int)
      requires Valid()
      modifies this
      ensures Valid() && Stored(old(data), key, Item(value, now + ttl), maxItems, data)
      ensures var full := old(data)[key := Item(value, now + ttl)];
              if maxItems > 0 && |full| > maxItems
              then |data| == |full| - (if maxItems / 5 >= 1 then maxItems / 5 else 1) && KeepsLatest(full, data)
              else data == full
    {
      hide ExpireFirst, KeepsLatest;
      PutOne(data, key, Item(value, now + ttl));
      ghost var full := data[key := Item(value, now + ttl)];
      if key in data {
        data := data - {key};
      } else {
        itemCount := itemCount + 1;
      }
      data := data[key := Item(value, now + ttl)];
      assert data == full;
      if maxItems > 0 && itemCount > maxItems {
        CleanupOldest();
        ghost var evicted :| ExpireFirst(full, evicted, Threshold(maxItems)) && data == full - evicted;
        EvictionKeepsLatest(full, evicted, Threshold(maxItems));
      }
    }

    /** The one pass over the map, in whatever order its rows come. */
    method SelectOldest(threshold: int) returns (candidates: seq<(string, Item<V>)>)
      requires 0 < threshold < |data|
      ensures Selecting(data, data.Items, candidates, threshold)
    {
      candidates := [];
      var left := data.Items;
      while left != {}
        invariant left <= data.Items && Selecting(data, data.Items - left, candidates, threshold)
        decreases left
      {
        var row :| row in left;
        ghost var visited := data.Items - left;
        left := left - {row};
        assert data.Items - left == visited + {row};
        if |candidates| < threshold {
          SelectMore(data, visited, candidates, threshold, row);
          candidates := candidates + [row];
          continue;
        }
        var newestIdx := NewestIndex(candidates);
        if row.1.expiration < candidates[newestIdx].1.expiration {
          ReplaceNewest(data, visited, candidates, threshold, row, newestIdx);
          candidates := candidates[newestIdx := row];
        } else {
          KeepSelection(data, visited, candidates, threshold, row);
        }
      }
      assert data.Items - left == data.Items;
    }

    static method NewestIndex(candidates: seq<(string, Item<V>)>) returns (newestIdx: nat)
      requires |candidates| > 0
      ensures newestIdx < |candidates|
      ensures forall j :: 0 <= j < |candidates| ==>
                candidates[j].1.expiration <= candidates[newestIdx].1.expiration
    {
      newestIdx := 0;
      for i := 1 to |candidates|
        invariant newestIdx < |candidates|
        invariant forall j :: 0 <= j < i ==> candidates[j].1.expiration <= candidates[newestIdx].1.expiration
      {
        if candidates[i].1.expiration > candidates[newestIdx].1.expiration {
          newestIdx := i;
        }
      }
    }

    /** Evicts exactly the items that expire first, whatever order the map is visited in. */
    method CleanupOldest()
      requires maxItems > 0 && itemCount == |data|
      modifies this`data, this`itemCount
      ensures itemCount == |data|
      ensures old(|data|) <= maxItems ==> data == old(data)
      ensures old(|data|) > maxItems ==>
                && |data| == old(|data|) - (if maxItems / 5 >= 1 then maxItems / 5 else 1)
                && exists evicted :: ExpireFirst(old(data), evicted, Threshold(maxItems)) && data == old(data) - evicted
    {
      hide ExpireFirst, Keys;
      var threshold := if maxItems / 5 > 1 then maxItems / 5 else 1;
      if itemCount <= maxItems {
        return;
      }
      var candidates := SelectOldest(threshold);
      SelectionIsFull(data, candidates, threshold);
      var deletedCount := RemoveAll(candidates);
      if deletedCount > 0 {
        itemCount := itemCount - deletedCount;
      }
    }

    method RemoveAll(candidates: seq<(string, Item<V>)>) returns (deletedCount: int)
      requires Selected(data, candidates)
      modifies this`data
      ensures data == old(data) - Keys(candidates)
      ensures deletedCount == |candidates| && |data| == old(|data|) - deletedCount
    {
      hide Keys, Selected;
      deletedCount := 0;
      NoKeys<V>();
      assert candidates[..0] == [] && data - {} == data;
      for i := 0 to |candidates|
        invariant data == old(data) - Keys(candidates[..i])
        invariant |data| == old(|data|) - i && deletedCount == i
      {
        DeleteCandidate(old(data), candidates, i);
        RemoveOneMore(old(data), Keys(candidates[..i]), candidates[i].0);
        RemoveOne(data, candidates[i].0);
        data := data - {candidates[i].0};
        deletedCount := deletedCount + 1;
      }
      assert candidates[..|candidates|] == candidates;
    }

    /** A hit is a stored value that has not expired; an expired item is dropped on the way. */
    method Get(key: string, now: int) returns (r: Option<V>)
      requires Valid()
      modifies this
      ensures Valid()
      ensures r.Some? <==> key in old(data) && now <= old(data)[key].expiration
      ensures r.Some? ==> r.value == old(data)[key].value && data == old(data)
      ensures r.None? ==> data == old(data) - {key}
    {
      RemoveOne(data, key);
      if key !in data {
        return None;
      }
      var item := data[key];
      if now > item.expiration {
        data := data - {key};
        itemCount := itemCount - 1;
        return None;
      }
      return Some(item.value);
    }

    method Delete(key: string)
      requires Valid()
      modifies this
      ensures Valid() && data == old(data) - {key}
    {
      RemoveOne(data, key);
      if key in data {
        data := data - {key};
        itemCount := itemCount - 1;
      }
    }

    method Clear()
      requires Valid()
      modifies this
      ensures Valid() && data == map[]
    {
      var left := data.Items;
      while left != {}
        invariant left <= old(data).Items
        invariant data == map k | k in old(data) && (k, old(data)[k]) in left :: old(data)[k]
        decreases left
      {
        var row :| row in left;
        data := data - {row.0};
        left := left - {row};
      }
      itemCount := 0;
    }

    /** Removes the expired items and lowers the counter by as many. */
    method Cleanup(now: int)
      requires Valid()
      modifies this
      ensures Valid() && data == Unexpired(old(data), now)
      ensures forall k :: k in data <==> k in old(data) && now <= old(data)[k].expiration
      ensures forall k :: k in data ==> data[k] == old(data)[k]
    {
      var count := 0;
      var left := data.Items;
      while left != {}
        invariant left <= old(data).Items
        invariant data == map k | k in old(data) && ((k, old(data)[k]) in left || now <= old(data)[k].expiration) :: old(data)[k]
        invariant count == old(|data|) - |data| && itemCount == old(itemCount)
        decreases left
      {
        var row :| row in left;
        left := left - {row};
        if now > row.1.expiration {
          assert row.0 in data;
          RemoveOne(data, row.0);
          data := data - {row.0};
          count := count + 1;
        }
      }
      if count > 0 {
        itemCount := itemCount - count;
      }
      assert |data| <= old(|data|) by {
        assert |data.Keys| == |data| && |old(data).Keys| == old(|data|);
        SubsetSize(data.Keys, old(data).Keys);
      }
    }
  }

  lemma {:induction false} SubsetSize<T>(a: set<T>, b: set<T>)
    requires a <= b
    ensures |a| <= |b|
  {
    assert |b| == |a| + |b - a| by { assert b == a + (b - a); }
  }

  // Whole runs.

  datatype Operation<V> =
    | SetOp(key: string, value: V, ttl: int, now: int)
    | GetOp(key: string, now: int)
    | DeleteOp(key: string)
    | ClearOp
    | CleanupOp(now: int)

  /** One operation as the methods above specify it. */
  ghost predicate Step<V>(before: Data<V>, op: Operation<V>, maxItems: int, after: Data<V>) {
    match op
    case SetOp(key, value, ttl, now) => Stored(before, key, Item(value, now + ttl), maxItems, after)
    case GetOp(key, now) =>
      after == if key in before && now <= before[key].expiration then before else before - {key}
    case DeleteOp(key) => after == before - {key}
    case ClearOp => after == map[]
    case CleanupOp(now) => after == Unexpired(before, now)
  }

  /** A run: the contents before every operation, and at the end. */
  ghost predicate IsRun<V>(ops: seq<Operation<V>>, states: seq<Data<V>>, maxItems: int) {
    && |states| == |ops| + 1 && states[0] == map[]
    && forall i :: 0 <= i < |ops| ==> Step(states[i], ops[i], maxItems, states[i + 1])
  }

  /** What the latest Set of a key stored, unless it was deleted or the cache cleared since. */
  function Latest<V>(ops: seq<Operation<V>>, key: string): Option<Item<V>> {
    if |ops| == 0 then None
    else
      var n := |ops| - 1;
      match ops[n]
      case SetOp(k, value, ttl, now) => if k == key then Some(Item(value, now + ttl)) else Latest(ops[..n], key)
      case DeleteOp(k) => if k == key then None else Latest(ops[..n], key)
      case ClearOp => None
      case _ => Latest(ops[..n], key)
  }

  ghost predicate HoldsLatest<V>(ops: seq<Operation<V>>, data: Data<V>) {
    forall key :: key in data ==> Latest(ops, key) == Some(data[key])
  }

  lemma StepStoresLatest<V>(ops: seq<Operation<V>>, op: Operation<V>, before: Data<V>, maxItems: int, after: Data<V>)
    requires HoldsLatest(ops, before) && Step(before, op, maxItems, after)
    ensures HoldsLatest(ops + [op], after)
  {
    assert (ops + [op])[..|ops|] == ops;
    forall key | key in after ensures Latest(ops + [op], key) == Some(after[key]) {
      assert (op.SetOp? && key == op.key) || (key in before && after[key] == before[key]);
    }
  }

  /** After any run every stored item is the latest one set under its key, and the limit holds. */
  lemma {:induction false} RunStoresLatest<V>(ops: seq<Operation<V>>, states: seq<Data<V>>, maxItems: int)
    requires IsRun(ops, states, maxItems)
    ensures HoldsLatest(ops, states[|ops|]) && (maxItems > 0 ==> |states[|ops|]| <= maxItems)
    decreases |ops|
  {
    hide HoldsLatest, Step;
    if |ops| > 0 {
      var n := |ops| - 1;
      RunStoresLatest(ops[..n], states[..n + 1], maxItems);
      assert ops == ops[..n] + [ops[n]];
      StepStoresLatest(ops[..n], ops[n], states[n], maxItems, states[n + 1]);
      StepRespectsLimit(states[n], ops[n], maxItems, states[n + 1]);
    } else {
      NothingStored(ops);
    }
  }

  lemma NothingStored<V>(ops: seq<Operation<V>>)
    ensures HoldsLatest(ops, map[])
  {
  }

  lemma StepRespectsLimit<V>(before: Data<V>, op: Operation<V>, maxItems: int, after: Data<V>)
    requires Step(before, op, maxItems, after) && (maxItems > 0 ==> |before| <= maxItems)
    ensures maxItems > 0 ==> |after| <= maxItems
  {
    match op
    case SetOp(key, value, ttl, now) =>
      var full := before[key := Item(value, now + ttl)];
      PutOne(before, key, Item(value, now + ttl));
      if maxItems > 0 && |full| > maxItems {
        var evicted :| ExpireFirst(full, evicted, Threshold(maxItems)) && after == full - evicted;
        assert |full.Keys| == |full| && |after.Keys| == |after|;
        assert after.Keys == full.Keys - evicted && full.Keys == after.Keys + evicted;
      }
    case GetOp(key, _) => RemoveOne(before, key);
    case DeleteOp(key) => RemoveOne(before, key);
    case ClearOp =>
    case CleanupOp(now) =>
      assert |before.Keys| == |before| && |after.Keys| == |after|;
      SubsetSize(after.Keys, before.Keys);
  }

  /** Nothing stale is ever served: a hit after any run returns the value of the latest Set of
      the key since it was last deleted or cleared, and not after that value expired. */
  lemma HitsAreLatest<V>(ops: seq<Operation<V>>, states: seq<Data<V>>, maxItems: int, key: string, now: int)
    requires IsRun(ops, states, maxItems)
    requires key in states[|ops|] && now <= states[|ops|][key].expiration
    ensures var latest := Latest(ops, key);
            latest.Some? && latest.value.value == states[|ops|][key].value && now <= latest.value.expiration
  {
    RunStoresLatest(ops, states, maxItems);
  }
}
