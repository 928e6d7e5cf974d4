/**
 * The access records a rate limiter keeps, and pure functions describing its two
 * structures: the global queue of admitted records in arrival order, and the
 * per-key index derived from it.
 */
module AccessLog {

  /**
   * One access: the key it is counted under and the time it happened (milliseconds).
   * `id` stands for the identity of the record object: two accesses with the same key
   * and the same time are still two distinct entries.
   */
  datatype Access = Access(id: nat, key: string, accessTime: int)

  /** Records appear in strictly increasing id order, so no record occurs twice. */
  predicate IdsIncreasing(q: seq<Access>)
  {
    forall i, j :: 0 <= i < j < |q| ==> q[i].id < q[j].id
  }

  /** The queue is ordered by access time, oldest first. */
  predicate Sorted(q: seq<Access>)
  {
    forall i, j :: 0 <= i < j < |q| ==> q[i].accessTime <= q[j].accessTime
  }

  /** No record of `q` is later than `t`. */
  predicate NotAfter(q: seq<Access>, t: int)
  {
    forall i :: 0 <= i < |q| ==> q[i].accessTime <= t
  }

  /**
   * Eviction from the head of the queue: drop records while the head is older than
   * `horizon`.
   */
  function DropExpired(q: seq<Access>, horizon: int): (r: seq<Access>)
    decreases |q|
  {
    if q != [] && q[0].accessTime < horizon then DropExpired(q[1..], horizon) else q
  }

  /**
   * What eviction leaves: a suffix of the queue, everything dropped was older than
   * `horizon`, and the new head, if any, is not.
   */
  lemma {:induction false} DropExpiredSpec(q: seq<Access>, horizon: int)
    ensures var r := DropExpired(q, horizon);
            && |r| <= |q| && r == q[|q| - |r|..]
            && (r == [] || r[0].accessTime >= horizon)
            && forall i :: 0 <= i < |q| - |r| ==> q[i].accessTime < horizon
    decreases |q|
  {
    if q != [] && q[0].accessTime < horizon {
      DropExpiredSpec(q[1..], horizon);
      var r := DropExpired(q, horizon);
      forall i | 0 <= i < |q| - |r| ensures q[i].accessTime < horizon {
        if i > 0 { assert q[i] == q[1..][i - 1]; }
      }
    }
  }

  /**
   * Eviction stops at the first record that is not expired: if the first `d` records are
   * expired and the next one (if any) is not, eviction leaves exactly `q[d..]`.
   */
  lemma {:induction false} DropExpiredAt(q: seq<Access>, d: nat, horizon: int)
    requires d <= |q|
    requires forall i :: 0 <= i < d ==> q[i].accessTime < horizon
    requires d == |q| || q[d].accessTime >= horizon
    ensures DropExpired(q, horizon) == q[d..]
  {
    var r := DropExpired(q, horizon);
    DropExpiredSpec(q, horizon);
    var e := |q| - |r|;
    if e < |q| {
      assert r[0] == q[e];
    }
    assert e == d;
  }

  /** The records of `q` counted under key `k`. */
  function KeySet(q: seq<Access>, k: string): (s: set<Access>)
  {
    set a | a in q && a.key == k
  }

  /** The keys that have at least one record in `q`. */
  function Keys(q: seq<Access>): (ks: set<string>)
  {
    set a | a in q :: a.key
  }

  /** The per-key index the limiter must hold for queue `q`: each present key to its records. */
  function Index(q: seq<Access>): (m: map<string, set<Access>>)
  {
    map k | k in Keys(q) :: KeySet(q, k)
  }

  /** Index update on admission: `a` joins its key's set, which is created when absent. */
  function Link(m: map<string, set<Access>>, a: Access): (m': map<string, set<Access>>)
  {
    m[a.key := (if a.key in m then m[a.key] else {}) + {a}]
  }

  /** Index update on eviction: `a` leaves its key's set, and an emptied set is dropped. */
  function Unlink(m: map<string, set<Access>>, a: Access): (m': map<string, set<Access>>)
  {
    if a.key !in m then m
    else if m[a.key] - {a} == {} then m - {a.key}
    else m[a.key := m[a.key] - {a}]
  }

  /** Number of entries of `q` under key `k`, counting every entry separately. */
  function CountKey(q: seq<Access>, k: string): (n: nat)
    decreases |q|
  {
    if q == [] then 0 else (if q[0].key == k then 1 else 0) + CountKey(q[1..], k)
  }

  /**
   * The index and the queue hold exactly the same records: every queued record sits in
   * its own key's set, every set member is a queued record of that key, and no key is
   * mapped to an empty set.
   */
  lemma LockStep(q: seq<Access>)
    ensures forall a :: a in q ==> a.key in Index(q) && a in Index(q)[a.key]
    ensures forall k :: k in Index(q) ==> Index(q)[k] != {}
    ensures forall k, a :: k in Index(q) && a in Index(q)[k] ==> a in q && a.key == k
  {
    forall k | k in Index(q)
      ensures Index(q)[k] != {}
    {
      var a :| a in q && a.key == k;
      assert a in Index(q)[k];
    }
  }

  /** The head of a queue without repeated records does not occur in its tail. */
  lemma HeadNotInTail(q: seq<Access>)
    requires q != [] && IdsIncreasing(q)
    ensures q[0] !in q[1..]
    ensures forall a :: a in q <==> a == q[0] || a in q[1..]
  {
    var t := q[1..];
    forall i | 0 <= i < |t| ensures t[i] != q[0] { assert q[i + 1] == t[i]; }
  }

  /** Removing the head of a queue without repeated records unlinks exactly that record. */
  lemma IndexPop(q: seq<Access>)
    requires q != [] && IdsIncreasing(q)
    ensures Index(q[1..]) == Unlink(Index(q), q[0])
  {
    HeadNotInTail(q);
    assert q == [q[0]] + q[1..];
    IndexCons(q[0], q[1..]);
  }

  /** Unlinking the first record of `[h] + t` from its index gives the index of `t`. */
  lemma IndexCons(h: Access, t: seq<Access>)
    requires h !in t
    ensures Index(t) == Unlink(Index([h] + t), h)
  {
    var m, m' := Index([h] + t), Index(t);
    forall k ensures k in Keys(t) <==> KeySet(t, k) != {} { KeysNonEmpty(t, k); }
    ConsKeys(h, t);
    forall k ensures KeySet([h] + t, k) == KeySet(t, k) + (if k == h.key then {h} else {}) {
      ConsKeySet(h, t, k);
    }
    assert KeySet([h] + t, h.key) - {h} == KeySet(t, h.key);
    assert h.key in m;
    var u := Unlink(m, h);
    if KeySet(t, h.key) == {} {
      assert u == m - {h.key};
      assert m'.Keys == u.Keys;
    } else {
      assert u == m[h.key := KeySet(t, h.key)];
      assert m'.Keys == u.Keys;
    }
    forall k | k in m' ensures m'[k] == u[k] {
      assert m'[k] == KeySet(t, k);
    }
  }

  /** A key is among the present keys exactly when it has a record. */
  lemma KeysNonEmpty(t: seq<Access>, k: string)
    ensures k in Keys(t) <==> KeySet(t, k) != {}
  {
    if k in Keys(t) {
      var b :| b in t && b.key == k;
      assert b in KeySet(t, k);
    }
    if KeySet(t, k) != {} {
      var b :| b in KeySet(t, k);
    }
  }

  /** The present keys of `[h] + t`. */
  lemma ConsKeys(h: Access, t: seq<Access>)
    ensures Keys([h] + t) == Keys(t) + {h.key}
  {
    assert forall a :: a in [h] + t <==> a == h || a in t;
  }

  /** The records of key `k` in `[h] + t`. */
  lemma ConsKeySet(h: Access, t: seq<Access>, k: string)
    ensures KeySet([h] + t, k) == KeySet(t, k) + (if k == h.key then {h} else {})
  {
    assert forall a :: a in [h] + t <==> a == h || a in t;
  }

  /** How removing the head changes each key's set and the set of present keys. */
  lemma PopKeys(q: seq<Access>)
    requires q != [] && IdsIncreasing(q)
    ensures KeySet(q[1..], q[0].key) == KeySet(q, q[0].key) - {q[0]}
    ensures forall k :: k != q[0].key ==> KeySet(q[1..], k) == KeySet(q, k)
    ensures q[0].key in Keys(q)
    ensures forall k :: k != q[0].key ==> (k in Keys(q[1..]) <==> k in Keys(q))
    ensures q[0].key in Keys(q[1..]) <==> KeySet(q[1..], q[0].key) != {}
  {
    var h, t := q[0], q[1..];
    HeadNotInTail(q);
    assert q == [h] + t;
    ConsKeys(h, t);
    forall k ensures KeySet(q, k) == KeySet(t, k) + (if k == h.key then {h} else {}) {
      ConsKeySet(h, t, k);
    }
    KeysNonEmpty(t, h.key);
  }

  /** Appending a record that is not yet queued links exactly that record. */
  lemma IndexPush(q: seq<Access>, a: Access)
    requires a !in q
    ensures Index(q + [a]) == Link(Index(q), a)
  {
    var q' := q + [a];
    assert forall b :: b in q' <==> b in q || b == a;
    forall k ensures KeySet(q', k) == KeySet(q, k) + (if k == a.key then {a} else {}) { }
    assert Keys(q') == Keys(q) + {a.key};
    var m, m' := Index(q), Index(q');
    forall k | k in m' ensures k in Link(m, a) && m'[k] == Link(m, a)[k] {
      if k != a.key {
        assert k in m;
      }
    }
  }

  /** Without repeated records, a key's set has as many members as the key has queue entries. */
  lemma {:induction false} KeySetCount(q: seq<Access>, k: string)
    requires IdsIncreasing(q)
    ensures |KeySet(q, k)| == CountKey(q, k)
    decreases |q|
  {
    if q != [] {
      var h, t := q[0], q[1..];
      assert IdsIncreasing(t) by {
        forall i, j | 0 <= i < j < |t| ensures t[i].id < t[j].id { assert q[i + 1] == t[i] && q[j + 1] == t[j]; }
      }
      KeySetCount(t, k);
      assert h !in t by {
        forall i | 0 <= i < |t| ensures t[i] != h { assert q[i + 1] == t[i]; }
      }
      assert forall b :: b in q <==> b == h || b in t;
      if h.key == k {
        assert KeySet(q, k) == KeySet(t, k) + {h};
      } else {
        assert KeySet(q, k) == KeySet(t, k);
      }
    }
  }

  /** Appending one record adds one entry to its own key's count and none to any other. */
  lemma {:induction false} CountKeyAppend(q: seq<Access>, a: Access, k: string)
    ensures CountKey(q + [a], k) == CountKey(q, k) + (if a.key == k then 1 else 0)
    decreases |q|
  {
    if q != [] {
      assert (q + [a])[1..] == q[1..] + [a];
      CountKeyAppend(q[1..], a, k);
    }
  }

  /**
   * The index seen through counts: a key is present exactly when it has queue entries,
   * and then its set has as many members as it has entries.
   */
  lemma IndexCount(q: seq<Access>, k: string)
    requires IdsIncreasing(q)
    ensures k in Index(q) <==> CountKey(q, k) > 0
    ensures k in Index(q) ==> |Index(q)[k]| == CountKey(q, k)
  {
    KeySetCount(q, k);
    if KeySet(q, k) != {} {
      var a :| a in KeySet(q, k);
      assert k in Keys(q);
    }
  }

  /** Eviction never adds a record to any key's set. */
  lemma EvictionShrinks(q: seq<Access>, horizon: int, k: string)
    ensures KeySet(DropExpired(q, horizon), k) <= KeySet(q, k)
    ensures |KeySet(DropExpired(q, horizon), k)| <= |KeySet(q, k)|
  {
    var r := DropExpired(q, horizon);
    DropExpiredSpec(q, horizon);
    assert forall a :: a in r ==> a in q by {
      forall a | a in r ensures a in q {
        var i :| 0 <= i < |r| && r[i] == a;
        assert q[|q| - |r| + i] == a;
      }
    }
    SubsetCard(KeySet(r, k), KeySet(q, k));
  }

  /** A subset is no larger than its superset. */
  lemma {:induction false} SubsetCard<T>(s: set<T>, u: set<T>)
    requires s <= u
    ensures |s| <= |u|
    decreases s
  {
    if s != {} {
      var x :| x in s;
      SubsetCard(s - {x}, u - {x});
    }
  }

  /**
   * On a time-ordered queue, evicting from the head removes exactly the expired records:
   * a record survives if and only if its time is not before the horizon.
   */
  lemma SortedEvictionExact(q: seq<Access>, horizon: int)
    requires Sorted(q)
    ensures forall a :: a in DropExpired(q, horizon) <==> a in q && a.accessTime >= horizon
  {
    var r := DropExpired(q, horizon);
    DropExpiredSpec(q, horizon);
    var d := |q| - |r|;
    forall a | a in q && a.accessTime >= horizon ensures a in r {
      var i :| 0 <= i < |q| && q[i] == a;
      assert d <= i;
      assert r[i - d] == q[i];
    }
    forall a | a in r ensures a in q && a.accessTime >= horizon {
      var i :| 0 <= i < |r| && r[i] == a;
      assert r[0] == q[d] && r[i] == q[d + i];
      assert q[d].accessTime <= q[d + i].accessTime;
    }
  }

  /**
   * Eviction is global: on a time-ordered queue, a key all of whose records are expired
   * is absent from the index afterwards, not merely mapped to an empty set.
   */
  lemma ExpiredKeyRemoved(q: seq<Access>, horizon: int, k: string)
    requires Sorted(q)
    requires forall i :: 0 <= i < |q| && q[i].key == k ==> q[i].accessTime < horizon
    ensures k !in Index(DropExpired(q, horizon))
  {
    var r := DropExpired(q, horizon);
    DropExpiredSpec(q, horizon);
    SortedEvictionExact(q, horizon);
    forall a | a in r ensures a.key != k {
      var i :| 0 <= i < |q| && q[i] == a;
    }
  }

  /** Appending a record no older than any queued one keeps the queue time-ordered. */
  lemma SortedAppend(q: seq<Access>, a: Access)
    requires Sorted(q) && NotAfter(q, a.accessTime)
    ensures Sorted(q + [a])
  {
  }

  /** Every suffix of a time-ordered queue is time-ordered. */
  lemma SortedSuffix(q: seq<Access>, d: nat)
    requires Sorted(q) && d <= |q|
    ensures Sorted(q[d..])
  {
    var r := q[d..];
    forall i, j | 0 <= i < j < |r| ensures r[i].accessTime <= r[j].accessTime {
      assert r[i] == q[d + i] && r[j] == q[d + j];
    }
  }

  /** Eviction keeps a suffix, so it keeps the queue time-ordered. */
  lemma SortedDropExpired(q: seq<Access>, horizon: int)
    requires Sorted(q)
    ensures Sorted(DropExpired(q, horizon))
  {
    var r := DropExpired(q, horizon);
    DropExpiredSpec(q, horizon);
    SortedSuffix(q, |q| - |r|);
  }
}
