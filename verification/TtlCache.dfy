/** The TTL cache of `store/cache/cache.go`, one call at a time. */
module TtlCache {
  import opened Wrappers

  datatype Item<V> = Item(value: V, expiration: int)

  type Items<V> = map<string, Item<V>>

  /** Items removed per capacity clean-up: a fifth of the maximum, at least one. */
  function Threshold(maxItems: int): (n: int)
    ensures 1 <= n && (0 < maxItems ==> n <= maxItems)
  {
    if maxItems / 5 < 1 then 1 else maxItems / 5
  }

  /** `after` lacks exactly `n` keys of `before` (all, if there are fewer), and no removed item expires
    * later than a kept one.
    */
  ghost predicate OldestRemoved<V>(before: Items<V>, after: Items<V>, n: nat) {
    && after.Keys <= before.Keys
    && (forall k :: k in after ==> after[k] == before[k])
    && |after| == (if n <= |before| then |before| - n else 0)
    && forall r, k :: r in before && r !in after && k in after ==> before[r].expiration <= before[k].expiration
  }

  /** The effect of storing an item: the capacity clean-up runs when the maximum is exceeded. */
  ghost predicate Stored<V>(before: Items<V>, after: Items<V>, key: string, item: Item<V>, maxItems: int) {
    var all := before[key := item];
    if 0 < maxItems < |all| then OldestRemoved(all, after, Threshold(maxItems)) else after == all
  }

  /** A store that exceeds the maximum removes a fifth of it, rounded down, and at least one; any other store
    * removes nothing.
    */
  lemma RemovedCount<V>(before: Items<V>, after: Items<V>, key: string, item: Item<V>, maxItems: int)
    requires Stored(before, after, key, item, maxItems)
    ensures var all := before[key := item];
            var removed := |all| - |after|;
            if 0 < maxItems < |all|
                then (if maxItems < 5 then removed == 1 else 5 * removed <= maxItems < 5 * removed + 5)
            else after == all
  {
  }

  /** An item that expires strictly later than every other one survives its own store. */
  lemma NewestSurvives<V>(before: Items<V>, after: Items<V>, key: string, item: Item<V>, maxItems: int)
    requires Stored(before, after, key, item, maxItems)
    requires forall k :: k in before && k != key ==> before[k].expiration < item.expiration
    ensures key in after && after[key] == item
  {
    var all := before[key := item];
    if 0 < maxItems < |all| {
      assert |after| > 0;
      var k :| k in after;
    }
  }

  /** The effect of storing several items in order, with the clean-ups in between. */
  ghost predicate StoredAll<V(!new)>(before: Items<V>, after: Items<V>, puts: seq<(string, Item<V>)>, maxItems: int)
    decreases |puts|
  {
    if puts == [] then after == before else
      var last := |puts| - 1;
      exists mid: Items<V> ::
        StoredAll(before, mid, puts[..last], maxItems) && Stored(mid, after, puts[last].0, puts[last].1, maxItems)
  }

  function PutKeys<V>(puts: seq<(string, Item<V>)>): set<string> { set i | 0 <= i < |puts| :: puts[i].0 }

  /** The items with every put applied, without any clean-up. */
  function PutAll<V>(before: Items<V>, puts: seq<(string, Item<V>)>): (all: Items<V>)
    ensures all.Keys == before.Keys + PutKeys(puts)
    decreases |puts|
  {
    if puts == [] then before else
      var last := |puts| - 1;
      assert PutKeys(puts) == PutKeys(puts[..last]) + {puts[last].0};
      PutAll(before, puts[..last])[puts[last].0 := puts[last].1]
  }

  lemma OneFits<V>(before: Items<V>, after: Items<V>, key: string, item: Item<V>, maxItems: int)
    requires Stored(before, after, key, item, maxItems)
    requires maxItems <= 0 || |before[key := item].Keys| <= maxItems
    ensures after == before[key := item]
  {
    assert |before[key := item]| == |before[key := item].Keys|;
  }

  lemma SubsetSize(a: set<string>, b: set<string>)
    requires a <= b
    ensures |a| <= |b|
  {
    assert b == a + (b - a);
  }

  /** As long as everything fits, nothing is evicted. */
  lemma {:induction false} AllFit<V(!new)>(before: Items<V>, after: Items<V>, puts: seq<(string, Item<V>)>,
                                    maxItems: int)
    requires StoredAll(before, after, puts, maxItems)
    requires maxItems <= 0 || |before.Keys + PutKeys(puts)| <= maxItems
    ensures after == PutAll(before, puts)
    decreases |puts|
  {
    hide Stored, PutKeys;
    if puts != [] {
      var last := |puts| - 1;
      var mid: Items<V> :|
        StoredAll(before, mid, puts[..last], maxItems) && Stored(mid, after, puts[last].0, puts[last].1, maxItems);
      assert PutAll(before, puts).Keys == PutAll(before, puts[..last]).Keys + {puts[last].0};
      SubsetSize(PutAll(before, puts[..last]).Keys, PutAll(before, puts).Keys);
      AllFit(before, mid, puts[..last], maxItems);
      OneFits(mid, after, puts[last].0, puts[last].1, maxItems);
    }
  }

  /** A key that is put once has the item that was put. */
  lemma {:induction false} PutOnce<V>(before: Items<V>, puts: seq<(string, Item<V>)>, i: nat)
    requires i < |puts| && forall j :: 0 <= j < |puts| && j != i ==> puts[j].0 != puts[i].0
    ensures puts[i].0 in PutAll(before, puts) && PutAll(before, puts)[puts[i].0] == puts[i].1
    decreases |puts|
  {
    if i < |puts| - 1 {
      PutOnce(before, puts[..|puts| - 1], i);
    }
  }

  function Chosen(candidates: seq<string>): set<string> { set k | k in candidates }

  lemma RemoveNone<V>(m: Items<V>, candidates: seq<string>)
    ensures m - Chosen(candidates[..0]) == m
  {
  }

  lemma RemoveNext<V>(m: Items<V>, candidates: seq<string>, i: nat)
    requires i < |candidates|
    ensures m - Chosen(candidates[..i]) - {candidates[i]} == m - Chosen(candidates[..i + 1])
  {
  }

  ghost predicate DistinctKeys(candidates: seq<string>) {
    forall i, j :: 0 <= i < j < |candidates| ==> candidates[i] != candidates[j]
  }

  /** The candidates are the oldest of the visited items: as many as allowed, and every other visited
    * item expires no earlier than any of them.
    */
  ghost predicate Selected<V>(data: Items<V>, candidates: seq<string>, visited: set<string>, threshold: nat) {
    && Chosen(candidates) <= visited <= data.Keys && DistinctKeys(candidates)
    && (forall i :: 0 <= i < |candidates| ==> candidates[i] in data)
    && |candidates| <= threshold
    && (|candidates| < threshold ==> Chosen(candidates) == visited)
    && forall k, i :: k in visited && k !in Chosen(candidates) && 0 <= i < |candidates| ==>
         data[candidates[i]].expiration <= data[k].expiration
  }

  lemma NothingSelected<V>(data: Items<V>, threshold: nat)
    requires 0 < threshold
    ensures Selected(data, [], {}, threshold)
  {
  }

  lemma SelectedInData<V>(data: Items<V>, candidates: seq<string>, visited: set<string>, threshold: nat)
    requires Selected(data, candidates, visited, threshold)
    ensures |candidates| <= threshold && forall i :: 0 <= i < |candidates| ==> candidates[i] in data
  {
  }

  lemma SkipCandidate<V>(data: Items<V>, candidates: seq<string>, visited: set<string>, threshold: nat, key: string,
                         newest: nat)
    requires Selected(data, candidates, visited, threshold) && |candidates| == threshold && newest < |candidates|
    requires key in data && forall i :: 0 <= i < |candidates| ==> candidates[i] in data
    requires forall j :: 0 <= j < |candidates| ==> data[candidates[j]].expiration <= data[candidates[newest]].expiration
    requires data[candidates[newest]].expiration <= data[key].expiration
    ensures Selected(data, candidates, visited + {key}, threshold)
  {
  }

  lemma SizeAfterSet<V>(m: Items<V>, key: string, item: Item<V>)
    ensures |m[key := item]| == if key in m then |m| else |m| + 1
  {
  }

  lemma SizeAfterRemove<V>(m: Items<V>, key: string)
    requires key in m
    ensures |m - {key}| == |m| - 1
  {
  }

  lemma AddCandidate<V>(data: Items<V>, candidates: seq<string>, visited: set<string>, threshold: nat, key: string)
    requires Selected(data, candidates, visited, threshold) && |candidates| < threshold
    requires key in data && key !in visited
    ensures Selected(data, candidates + [key], visited + {key}, threshold)
  {
  }

  lemma ReplaceCandidate<V>(data: Items<V>, candidates: seq<string>, visited: set<string>, threshold: nat, key: string,
                            newest: nat)
    requires Selected(data, candidates, visited, threshold) && |candidates| == threshold && newest < |candidates|
    requires key in data && key !in visited && forall i :: 0 <= i < |candidates| ==> candidates[i] in data
    requires forall j :: 0 <= j < |candidates| ==> data[candidates[j]].expiration <= data[candidates[newest]].expiration
    requires data[key].expiration < data[candidates[newest]].expiration
    ensures Selected(data, candidates[newest := key], visited + {key}, threshold)
  {
    var next := candidates[newest := key];
    forall k | k in Chosen(next)
      ensures k in visited + {key}
    {
      var i :| 0 <= i < |next| && next[i] == k;
      assert i != newest ==> candidates[i] in Chosen(candidates);
    }
    assert next[newest] == key;
    forall i | 0 <= i < |candidates| && i != newest
      ensures candidates[i] in Chosen(next)
    {
      assert next[i] == candidates[i];
    }
  }

  lemma {:induction false} ChosenSize(candidates: seq<string>)
    requires DistinctKeys(candidates)
    ensures |Chosen(candidates)| == |candidates|
  {
    if candidates == [] {
      assert Chosen(candidates) == {};
    } else {
      var init, last := candidates[..|candidates| - 1], candidates[|candidates| - 1];
      ChosenSize(init);
      assert Chosen(candidates) == Chosen(init) + {last};
      assert last !in Chosen(init);
    }
  }

  lemma RemovedExactly<V>(data: Items<V>, candidates: seq<string>, threshold: nat)
    requires Selected(data, candidates, data.Keys, threshold)
    ensures OldestRemoved(data, data - Chosen(candidates), threshold)
    ensures |data - Chosen(candidates)| == |data| - |candidates|
  {
    ChosenSize(candidates);
    var kept := data - Chosen(candidates);
    assert kept.Keys == data.Keys - Chosen(candidates);
    assert |candidates| < threshold ==> kept.Keys == {};
    forall r, k | r in data && r !in kept && k in kept
      ensures data[r].expiration <= data[k].expiration
    {
      var i :| 0 <= i < |candidates| && candidates[i] == r;
    }
  }

  class Cache<V> {
    const maxItems: int
    var data: Items<V>
    var itemCount: int

    /** The counter is the number of stored keys and stays within a positive maximum. */
    ghost predicate Valid()
      reads this
    {
      itemCount == |data| && (0 < maxItems ==> itemCount <= maxItems)
    }

    constructor (maxItems: int)
      ensures this.maxItems == maxItems && data == map[] && Valid()
    {
      this.maxItems := maxItems;
      data, itemCount := map[], 0;
    }

    method SetWithTTL(key: string, value: V, ttl: int, now: int)
      requires Valid()
      modifies this
      ensures Valid() && Stored(old(data), data, key, Item(value, now + ttl), maxItems)
    {
      if key in data {
        data := data - {key};
      } else {
        itemCount := itemCount + 1;
      }
      data := data[key := Item(value, now + ttl)];
      assert data == old(data)[key := Item(value, now + ttl)];
      assert |data| == itemCount by { SizeAfterSet(old(data), key, Item(value, now + ttl)); }
      if maxItems > 0 && itemCount > maxItems {
        CleanupOldest();
      }
    }

    /** An expired item is dropped when it is read. */
    method Get(key: string, now: int) returns (found: Option<V>)
      requires Valid()
      modifies this
      ensures Valid()
      ensures found == if key in old(data) && now <= old(data)[key].expiration then Some(old(data)[key].value) else None
      ensures data == if found.None? then old(data) - {key} else old(data)
    {
      if key !in data {
        assert data - {key} == data;
        return None;
      }
      var item := data[key];
      if now > item.expiration {
        SizeAfterRemove(data, key);
        data := data - {key};
        itemCount := itemCount - 1;
        return None;
      }
      return Some(item.value);
    }

    method Delete(key: string)
      requires Valid()
      modifies this
      ensures Valid() && data == old(data) - {key}
    {
      if key in data {
        SizeAfterRemove(data, key);
        data := data - {key};
        itemCount := itemCount - 1;
      } else {
        assert data - {key} == data;
      }
    }

    method Clear()
      modifies this
      ensures Valid() && data == map[]
    {
      var left := data.Keys;
      while left != {}
        invariant data.Keys == left
      {
        var key :| key in left;
        data := data - {key};
        left := left - {key};
      }
      assert data == map[];
      itemCount := 0;
    }

    /** Drop every expired item; the counter is adjusted once at the end. */
    method Cleanup(now: int)
      requires Valid()
      modifies this
      ensures Valid() && data == map k | k in old(data) && now <= old(data)[k].expiration :: old(data)[k]
    {
      var left := data.Keys;
      var count := 0;
      while left != {}
        invariant left <= old(data).Keys && itemCount == old(itemCount)
        invariant data == map k | k in old(data) && (k in left || now <= old(data)[k].expiration) :: old(data)[k]
        invariant |data| + count == itemCount
      {
        var key :| key in left;
        if now > data[key].expiration {
          SizeAfterRemove(data, key);
          data := data - {key};
          count := count + 1;
        }
        left := left - {key};
      }
      itemCount := itemCount - count;
    }

    /** The scan of `cleanupOldest`: items are visited in an arbitrary order, and once the candidates
      * are complete an older item replaces the newest candidate in place.
      */
    method SelectOldest(threshold: nat) returns (candidates: seq<string>)
      requires 0 < threshold
      ensures Selected(data, candidates, data.Keys, threshold)
    {
      hide Selected;
      candidates := [];
      NothingSelected(data, threshold);
      var left := data.Keys;
      assert data.Keys - left == {};
      while left != {}
        invariant left <= data.Keys && Selected(data, candidates, data.Keys - left, threshold)
      {
        var key :| key in left;
        ghost var visited := data.Keys - left;
        left := left - {key};
        assert data.Keys - left == visited + {key};
        SelectedInData(data, candidates, visited, threshold);
        if |candidates| < threshold {
          AddCandidate(data, candidates, visited, threshold, key);
          candidates := candidates + [key];
          continue;
        }
        var newest := 0;
        for i := 1 to |candidates|
          invariant 0 <= newest < |candidates|
          invariant forall j :: 0 <= j < i ==> data[candidates[j]].expiration <= data[candidates[newest]].expiration
        {
          if data[candidates[i]].expiration > data[candidates[newest]].expiration {
            newest := i;
          }
        }
        if data[key].expiration < data[candidates[newest]].expiration {
          ReplaceCandidate(data, candidates, visited, threshold, key, newest);
          candidates := candidates[newest := key];
        } else {
          SkipCandidate(data, candidates, visited, threshold, key, newest);
        }
      }
      assert data.Keys - left == data.Keys;
    }

    /** Remove the oldest items when the maximum is exceeded: as many as the threshold, or all. */
    method CleanupOldest()
      requires itemCount == |data|
      modifies this
      ensures itemCount == |data|
      ensures if old(itemCount) <= maxItems then data == old(data)
              else OldestRemoved(old(data), data, Threshold(maxItems))
    {
      if itemCount <= maxItems {
        return;
      }
      var threshold := Threshold(maxItems);
      var candidates := SelectOldest(threshold);
      hide Selected, OldestRemoved, Chosen;
      ghost var before := data;
      var deleted := 0;
      RemoveNone(before, candidates);
      for i := 0 to |candidates|
        invariant data == before - Chosen(candidates[..i]) && deleted == i && itemCount == old(itemCount)
      {
        RemoveNext(before, candidates, i);
        data := data - {candidates[i]};
        deleted := deleted + 1;
      }
      assert candidates[..|candidates|] == candidates;
      RemovedExactly(before, candidates, threshold);
      itemCount := itemCount - deleted;
    }
  }
}
