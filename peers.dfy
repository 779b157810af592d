/// The peer registry of app/index.js: the record kept per verified device, the
/// insertion-ordered JavaScript `Map` that holds them (`peersRef`), the ordering of
/// the displayed list by signal strength, and the staleness rule of the purge.
module Peers {
  import opened Common

  /** One verified nearby device, as stored under its device id. */
  datatype Peer = Peer(
    id: string,
    userUuid: string,
    displayName: string,
    avatarUrl: Option<string>,
    rssi: Option<int>,
    lastSeen: int)

  /** The sort key a missing signal strength gets. */
  const MissingRssi: int := -999
  /** A peer not seen for more than this many milliseconds is purged. */
  const StaleAfterMs: int := 15000

  function RssiKey(p: Peer): int {
    p.rssi.GetOr(MissingRssi)
  }

  predicate Stale(p: Peer, now: int) {
    now - p.lastSeen > StaleAfterMs
  }

  // ---------------------------------------------------------------------------
  // Ordering of the displayed list

  /** Places `p`, which came first in the input, before every peer of equal or lower key. */
  function Insert(p: Peer, s: seq<Peer>): (r: seq<Peer>)
  {
    if s == [] || RssiKey(p) >= RssiKey(s[0]) then [p] + s else [s[0]] + Insert(p, s[1..])
  }

  /** `values.sort((a, b) => (b.rssi ?? -999) - (a.rssi ?? -999))`: a stable sort by
      non-increasing signal strength. */
  function SortByRssi(s: seq<Peer>): (r: seq<Peer>)
  {
    if s == [] then [] else Insert(s[0], SortByRssi(s[1..]))
  }

  ghost predicate ByRssiDesc(s: seq<Peer>) {
    forall i, j :: 0 <= i < j < |s| ==> RssiKey(s[i]) >= RssiKey(s[j])
  }

  /** The peers of `s` whose sort key is `k`, in their order in `s`. */
  function WithRssiKey(s: seq<Peer>, k: int): (r: seq<Peer>)
  {
    if s == [] then []
    else (if RssiKey(s[0]) == k then [s[0]] else []) + WithRssiKey(s[1..], k)
  }

  lemma {:induction false} InsertPermutes(p: Peer, s: seq<Peer>)
    ensures multiset(Insert(p, s)) == multiset(s) + multiset{p}
  {
    if s != [] && RssiKey(p) < RssiKey(s[0]) {
      InsertPermutes(p, s[1..]);
      assert s == [s[0]] + s[1..];
    }
  }

  /** The displayed list holds exactly the registry's peers, each as often as there. */
  lemma {:induction false} SortPermutes(s: seq<Peer>)
    ensures multiset(SortByRssi(s)) == multiset(s)
  {
    if s != [] {
      SortPermutes(s[1..]);
      InsertPermutes(s[0], SortByRssi(s[1..]));
      assert s == [s[0]] + s[1..];
    }
  }

  lemma {:induction false} InsertOrdered(p: Peer, s: seq<Peer>)
    requires ByRssiDesc(s)
    ensures ByRssiDesc(Insert(p, s))
    ensures |Insert(p, s)| == |s| + 1
    ensures Insert(p, s)[0] == p || (s != [] && Insert(p, s)[0] == s[0])
  {
    if s != [] && RssiKey(p) < RssiKey(s[0]) {
      InsertOrdered(p, s[1..]);
    }
  }

  /** The displayed list is ordered by non-increasing signal strength, a missing one
      counting as -999. */
  lemma {:induction false} SortOrdered(s: seq<Peer>)
    ensures ByRssiDesc(SortByRssi(s))
    ensures |SortByRssi(s)| == |s|
  {
    if s != [] {
      SortOrdered(s[1..]);
      InsertOrdered(s[0], SortByRssi(s[1..]));
    }
  }

  lemma {:induction false} WithRssiKeyAppend(a: seq<Peer>, b: seq<Peer>, k: int)
    ensures WithRssiKey(a + b, k) == WithRssiKey(a, k) + WithRssiKey(b, k)
  {
    if a != [] {
      WithRssiKeyAppend(a[1..], b, k);
      assert (a + b)[1..] == a[1..] + b;
    } else {
      assert a + b == b;
    }
  }

  lemma {:induction false} InsertStable(p: Peer, s: seq<Peer>, k: int)
    ensures WithRssiKey(Insert(p, s), k) == WithRssiKey([p], k) + WithRssiKey(s, k)
  {
    if s == [] || RssiKey(p) >= RssiKey(s[0]) {
      WithRssiKeyAppend([p], s, k);
    } else {
      InsertStable(p, s[1..], k);
      WithRssiKeyAppend([s[0]], Insert(p, s[1..]), k);
      WithRssiKeyAppend([s[0]], s[1..], k);
      assert s == [s[0]] + s[1..];
    }
  }

  /** The sort is stable: peers with equal keys keep their registry order. */
  lemma {:induction false} SortStable(s: seq<Peer>, k: int)
    ensures WithRssiKey(SortByRssi(s), k) == WithRssiKey(s, k)
  {
    if s != [] {
      SortStable(s[1..], k);
      InsertStable(s[0], SortByRssi(s[1..]), k);
      WithRssiKeyAppend([s[0]], s[1..], k);
      assert s == [s[0]] + s[1..];
    }
  }

  // ---------------------------------------------------------------------------
  // Insertion-ordered map

  predicate Distinct(s: seq<string>) {
    forall i, j :: 0 <= i < j < |s| ==> s[i] != s[j]
  }

  /** `s` without `x`, the rest in order. */
  function Remove(s: seq<string>, x: string): (r: seq<string>)
  {
    if s == [] then []
    else (if s[0] == x then [] else [s[0]]) + Remove(s[1..], x)
  }

  lemma {:induction false} RemoveSpec(s: seq<string>, x: string)
    requires Distinct(s)
    ensures Distinct(Remove(s, x))
    ensures forall y :: y in Remove(s, x) <==> y in s && y != x
  {
    if s != [] {
      RemoveSpec(s[1..], x);
      var r := Remove(s[1..], x);
      assert s[0] !in s[1..] by {
        forall j | 0 <= j < |s[1..]| ensures s[1..][j] != s[0] {
          assert s[1..][j] == s[j + 1];
        }
      }
      if s[0] != x {
        var t := [s[0]] + r;
        assert Remove(s, x) == t;
        forall i, j | 0 <= i < j < |t| ensures t[i] != t[j] {
          assert t[j] == r[j - 1];
          if i > 0 {
            assert t[i] == r[i - 1];
          }
        }
      } else {
        assert Remove(s, x) == r;
      }
      assert s == [s[0]] + s[1..];
    }
  }

  lemma {:induction false} RemoveAbsent(s: seq<string>, x: string)
    requires x !in s
    ensures Remove(s, x) == s
  {
    if s != [] {
      assert s[0] in s && s[0] != x;
      RemoveAbsent(s[1..], x);
      assert Remove(s, x) == [s[0]] + s[1..];
      assert s == [s[0]] + s[1..];
    }
  }

  lemma {:induction false} RemoveAppend(a: seq<string>, b: seq<string>, x: string)
    ensures Remove(a + b, x) == Remove(a, x) + Remove(b, x)
  {
    if a != [] {
      RemoveAppend(a[1..], b, x);
      assert (a + b)[1..] == a[1..] + b;
    } else {
      assert a + b == b;
    }
  }

  /** The values of `entries` listed in the order of `keys`: `[...map.values()]`. */
  function InOrder(keys: seq<string>, entries: map<string, Peer>): (r: seq<Peer>)
    requires forall i :: 0 <= i < |keys| ==> keys[i] in entries
    ensures |r| == |keys|
    ensures forall i :: 0 <= i < |keys| ==> r[i] == entries[keys[i]]
  {
    seq(|keys|, i requires 0 <= i < |keys| => entries[keys[i]])
  }

  /** A map whose keys are exactly the elements of a list without repeats has as many
      entries as the list has elements. */
  lemma {:induction false} DistinctKeysCount(keys: seq<string>, entries: map<string, Peer>)
    requires Distinct(keys)
    requires forall k :: k in entries <==> k in keys
    ensures |entries| == |keys|
    decreases |keys|
  {
    if keys == [] {
      assert entries.Keys == {};
    } else {
      var x, tail := keys[0], keys[1..];
      var rest := entries - {x};
      DistinctApart(keys, 0);
      assert Distinct(tail) by {
        forall i, j | 0 <= i < j < |tail| ensures tail[i] != tail[j] {
          assert tail[i] == keys[i + 1] && tail[j] == keys[j + 1];
        }
      }
      assert keys == [x] + tail;
      forall k ensures k in rest <==> k in tail {
      }
      DistinctKeysCount(tail, rest);
      assert rest.Keys == entries.Keys - {x};
    }
  }

  /** Every key listed has its value in `InOrder`. */
  lemma InOrderCovers(keys: seq<string>, entries: map<string, Peer>)
    requires forall i :: 0 <= i < |keys| ==> keys[i] in entries
    ensures forall k :: k in keys ==> entries[k] in InOrder(keys, entries)
  {
    var r := InOrder(keys, entries);
    forall k | k in keys ensures entries[k] in r {
      var i :| 0 <= i < |keys| && keys[i] == k;
      assert r[i] == entries[k];
    }
  }

  /** A JavaScript `Map` from device id to peer: entries in insertion order, a key that
      is set again keeps its place. */
  class PeerMap {
    var keys: seq<string>
    var entries: map<string, Peer>

    ghost predicate Valid()
      reads this
    {
      && Distinct(keys)
      && forall k :: k in entries <==> k in keys
    }

    /** `[...map.values()]`: the values in insertion order. */
    function Values(): (r: seq<Peer>)
      reads this
      requires Valid()
      ensures |r| == |keys|
      ensures forall i :: 0 <= i < |keys| ==> r[i] == entries[keys[i]]
    {
      InOrder(keys, entries)
    }

    /** `[...map.values()]` lists one value per entry, and every entry's peer is
        among them. */
    lemma ValuesOnePerEntry()
      requires Valid()
      ensures |Values()| == |entries|
      ensures forall k :: k in entries ==> entries[k] in Values()
    {
      DistinctKeysCount(keys, entries);
      InOrderCovers(keys, entries);
    }

    constructor ()
      ensures Valid() && keys == [] && entries == map[]
    {
      keys := [];
      entries := map[];
    }

    /** `map.set(k, v)`. */
    method Set(k: string, v: Peer)
      requires Valid()
      modifies this
      ensures Valid()
      ensures entries == old(entries)[k := v]
      ensures keys == if k in old(entries) then old(keys) else old(keys) + [k]
    {
      if k !in entries {
        keys := keys + [k];
      }
      entries := entries[k := v];
    }

    /** `map.delete(k)`. */
    method Delete(k: string)
      requires Valid()
      modifies this
      ensures Valid()
      ensures entries == old(entries) - {k}
      ensures keys == Remove(old(keys), k)
    {
      RemoveSpec(keys, k);
      keys := Remove(keys, k);
      entries := entries - {k};
    }

    /** The purge loop's invariant after `i` keys of the snapshot `ks` of the keys:
        the stale ones among them are gone, the rest of the map is as it was, and
        `changed` records whether anything was deleted. */
    ghost predicate PurgedUpTo(ks: seq<string>, entries0: map<string, Peer>, now: int, i: nat, changed: bool)
      requires i <= |ks|
      reads this
    {
      && Valid()
      && keys == Survivors(ks[..i], entries0, now) + ks[i..]
      && (forall k :: k in entries ==> k in entries0 && entries[k] == entries0[k])
      && (changed <==> |keys| < |ks|)
      && (!changed ==> keys == ks && entries == entries0)
    }

    /** One turn of the purge loop: `ks[i]` is deleted when its peer was last seen more
        than 15000 ms before `now`, and `changed` is set when it is. */
    method PurgeKey(ks: seq<string>, ghost entries0: map<string, Peer>, now: int, i: nat, changed: bool)
      returns (changedNext: bool)
      requires Distinct(ks) && i < |ks|
      requires PurgedUpTo(ks, entries0, now, i, changed)
      modifies this
      ensures PurgedUpTo(ks, entries0, now, i + 1, changedNext)
    {
      var k := ks[i];
      PurgeStep(ks, entries0, now, i);
      assert k in keys;
      var v := entries[k];
      changedNext := changed;
      if now - v.lastSeen > StaleAfterMs {
        Delete(k);
        changedNext := true;
      }
    }

    /** The loop of the purge: every entry seen more than 15000 ms before `now` is
        deleted, walking a snapshot of the keys. */
    method DeleteStale(now: int) returns (changed: bool)
      requires Valid()
      modifies this
      ensures Valid()
      ensures keys == Survivors(old(keys), old(entries), now)
      ensures forall k :: k in entries <==> k in old(entries) && !Stale(old(entries)[k], now)
      ensures forall k :: k in entries ==> entries[k] == old(entries)[k]
      ensures changed <==> exists k :: k in old(keys) && Stale(old(entries)[k], now)
      ensures !changed ==> keys == old(keys) && entries == old(entries)
    {
      var ks := keys;
      ghost var entries0 := entries;
      changed := false;
      var i := 0;
      PurgeEnds(ks, entries0, now);
      while i < |ks|
        invariant 0 <= i <= |ks|
        invariant PurgedUpTo(ks, entries0, now, i, changed)
      {
        changed := PurgeKey(ks, entries0, now, i, changed);
        i := i + 1;
      }
      SurvivorsExactly(ks, entries0, now);
      SurvivorsShrink(ks, entries0, now);
    }
  }

  // ---------------------------------------------------------------------------
  // Purge

  /** `k` has an entry and that peer is stale at `now`. */
  predicate StaleAt(entries: map<string, Peer>, k: string, now: int) {
    k in entries && Stale(entries[k], now)
  }

  /** The keys whose peers are not stale at `now`, in key order. */
  function Survivors(keys: seq<string>, entries: map<string, Peer>, now: int): (r: seq<string>)
    ensures |r| <= |keys|
  {
    if keys == [] then []
    else (if StaleAt(entries, keys[0], now) then [] else [keys[0]]) + Survivors(keys[1..], entries, now)
  }

  /** The purge keeps exactly the keys whose peers were seen within the last 15000 ms. */
  lemma {:induction false} SurvivorsExactly(keys: seq<string>, entries: map<string, Peer>, now: int)
    ensures forall k :: k in Survivors(keys, entries, now) <==> k in keys && !StaleAt(entries, k, now)
  {
    if keys != [] {
      SurvivorsExactly(keys[1..], entries, now);
    }
  }

  /** Something is purged exactly when some key's peer is stale. */
  lemma {:induction false} SurvivorsShrink(keys: seq<string>, entries: map<string, Peer>, now: int)
    ensures |Survivors(keys, entries, now)| < |keys| <==> exists k :: k in keys && StaleAt(entries, k, now)
  {
    if keys != [] {
      SurvivorsShrink(keys[1..], entries, now);
      if exists k :: k in keys[1..] && StaleAt(entries, k, now) {
        var k :| k in keys[1..] && StaleAt(entries, k, now);
        assert k in keys;
      }
      assert forall k :: k in keys ==> k == keys[0] || k in keys[1..];
    }
  }

  lemma {:induction false} SurvivorsAppend(a: seq<string>, b: seq<string>, entries: map<string, Peer>, now: int)
    ensures Survivors(a + b, entries, now) == Survivors(a, entries, now) + Survivors(b, entries, now)
  {
    if a != [] {
      SurvivorsAppend(a[1..], b, entries, now);
      assert (a + b)[0] == a[0] && (a + b)[1..] == a[1..] + b;
      var head := if StaleAt(entries, a[0], now) then [] else [a[0]];
      assert Survivors(a + b, entries, now) == head + Survivors(a[1..] + b, entries, now);
      assert Survivors(a, entries, now) == head + Survivors(a[1..], entries, now);
      var rest, tail := Survivors(a[1..], entries, now), Survivors(b, entries, now);
      assert head + (rest + tail) == (head + rest) + tail;
    } else {
      assert a + b == b;
    }
  }

  /** Before the purge loop nothing of `ks` is filtered; after it, all of it is. */
  lemma PurgeEnds(ks: seq<string>, entries: map<string, Peer>, now: int)
    ensures Survivors(ks[..0], entries, now) + ks[0..] == ks
    ensures Survivors(ks[..|ks|], entries, now) + ks[|ks|..] == Survivors(ks, entries, now)
  {
    assert ks[..0] == [] && ks[0..] == ks;
    assert ks[..|ks|] == ks && ks[|ks|..] == [];
  }

  /** One step of the purge loop over a snapshot `ks` of the keys, with the prefix
      `ks[..i]` already filtered: deleting a stale `ks[i]`, or keeping a fresh one,
      leaves the prefix `ks[..i + 1]` filtered. */
  lemma PurgeStep(ks: seq<string>, entries: map<string, Peer>, now: int, i: nat)
    requires Distinct(ks) && i < |ks|
    ensures Survivors(ks[..i + 1], entries, now)
      == Survivors(ks[..i], entries, now) + (if StaleAt(entries, ks[i], now) then [] else [ks[i]])
    ensures StaleAt(entries, ks[i], now) ==>
      Remove(Survivors(ks[..i], entries, now) + ks[i..], ks[i]) == Survivors(ks[..i + 1], entries, now) + ks[i + 1..]
    ensures !StaleAt(entries, ks[i], now) ==>
      Survivors(ks[..i], entries, now) + ks[i..] == Survivors(ks[..i + 1], entries, now) + ks[i + 1..]
  {
    var done, k := Survivors(ks[..i], entries, now), ks[i];
    assert ks[..i + 1] == ks[..i] + [k];
    assert ks[i..] == [k] + ks[i + 1..];
    SurvivorsAppend(ks[..i], [k], entries, now);
    if StaleAt(entries, k, now) {
      assert Survivors(ks[..i + 1], entries, now) == done;
      PurgeDrop(ks, entries, now, i);
    } else {
      assert Survivors(ks[..i + 1], entries, now) == done + [k];
      assert done + ks[i..] == (done + [k]) + ks[i + 1..];
    }
  }

  /** Deleting `ks[i]` from the filtered prefix followed by the rest of the snapshot
      removes just that key. */
  lemma PurgeDrop(ks: seq<string>, entries: map<string, Peer>, now: int, i: nat)
    requires Distinct(ks) && i < |ks|
    ensures Remove(Survivors(ks[..i], entries, now) + ks[i..], ks[i]) == Survivors(ks[..i], entries, now) + ks[i + 1..]
  {
    DistinctApart(ks, i);
    SurvivorsExactly(ks[..i], entries, now);
    assert ks[i..] == [ks[i]] + ks[i + 1..];
    RemoveMiddle(Survivors(ks[..i], entries, now), ks[i], ks[i + 1..]);
  }

  /** In a list without repeats, an element occurs neither before nor after itself. */
  lemma DistinctApart(s: seq<string>, i: nat)
    requires Distinct(s) && i < |s|
    ensures s[i] !in s[..i] && s[i] !in s[i + 1..]
  {
    var before, after := s[..i], s[i + 1..];
    assert forall j :: 0 <= j < |before| ==> before[j] == s[j];
    assert forall j :: 0 <= j < |after| ==> after[j] == s[i + 1 + j];
  }

  /** Removing a key that occurs once, between two parts without it, leaves the parts. */
  lemma RemoveMiddle(before: seq<string>, x: string, after: seq<string>)
    requires x !in before && x !in after
    ensures Remove(before + ([x] + after), x) == before + after
  {
    RemoveAppend(before, [x] + after, x);
    RemoveAppend([x], after, x);
    RemoveOnly(x);
    RemoveAbsent(before, x);
    RemoveAbsent(after, x);
    assert [] + after == after;
  }

  lemma RemoveOnly(x: string)
    ensures Remove([x], x) == []
  {
    assert [x][1..] == [];
  }
}
