/**
 * A sliding-window admission limiter in the manner of nftables "limit rate". Each call
 * evicts expired records from the head of the queue and admits a key while its set of
 * records in the window is below `accessLimit`. With `accessLimit >= 1`, no key ever holds
 * more than `accessLimit` records at once. Only admitted accesses are counted, so
 * rejected attempts never extend a block.
 */
module RateLimiting {
  import opened AccessLog

  class RateLimitter {
    /** Admitted accesses of every key, in the order they were admitted. */
    var accessList: seq<Access>
    /** For each key with admitted accesses in the window, the set of those accesses. */
    var accessMap: map<string, set<Access>>
    /** Width of the sliding window, in milliseconds. */
    const timeWindow: int
    /** Number of accesses a key may make within one window. */
    const accessLimit: int
    /** Identity the next admitted record receives; stands for allocating a fresh object. */
    var nextId: nat

    /**
     * Most records any key can hold. A key with no set is always admitted once, so with
     * a limit below one a key still gets a single record.
     */
    function PerKeyCap(): (cap: nat)
    {
      if accessLimit >= 1 then accessLimit else 1
    }

    /**
     * The object invariant: the queue holds distinct records with identities below
     * `nextId`, the index is exactly the per-key view of the queue, and no key's set
     * exceeds the cap.
     */
    ghost predicate Valid()
      reads this
    {
      Consistent(accessList, accessMap, nextId, PerKeyCap())
    }

    /** A limiter with the given window and limit; neither is checked. */
    constructor (timeWindow: int, accessLimit: int)
      ensures Valid()
      ensures this.timeWindow == timeWindow && this.accessLimit == accessLimit
      ensures accessList == [] && accessMap == map[]
    {
      this.timeWindow := timeWindow;
      this.accessLimit := accessLimit;
      accessList := [];
      accessMap := map[];
      nextId := 0;
    }

    /** A limiter with the default window of 60 seconds and limit of 10 accesses. */
    constructor Default()
      ensures Valid()
      ensures timeWindow == 60000 && accessLimit == 10
      ensures accessList == [] && accessMap == map[]
    {
      timeWindow := 60 * 1000;
      accessLimit := 10;
      accessList := [];
      accessMap := map[];
      nextId := 0;
    }

    /**
     * Decides whether `address` may access at `accessTime`: evicts every expired record
     * of every key, rejects when the key already holds `accessLimit` records, and
     * otherwise admits a new record at the tail of the queue and in the key's set.
     */
    method AllowAccess(address: string, accessTime: int) returns (allowed: bool)
      requires Valid()
      modifies this
      ensures Valid()
      ensures var evicted := DropExpired(old(accessList), accessTime - timeWindow);
              var entry := Access(old(nextId), address, accessTime);
              && allowed == (address !in Index(evicted) || |Index(evicted)[address]| < accessLimit)
              && accessList == (if allowed then evicted + [entry] else evicted)
              && accessMap == (if allowed then Link(Index(evicted), entry) else Index(evicted))
              && nextId == (if allowed then old(nextId) + 1 else old(nextId))
      ensures accessLimit >= 1 ==> forall k :: k in accessMap ==> |accessMap[k]| <= accessLimit
      ensures old(Sorted(accessList) && NotAfter(accessList, accessTime)) ==> Sorted(accessList)
      ensures old(NotAfter(accessList, accessTime)) ==> NotAfter(accessList, accessTime)
    {
      var newAccess := Access(nextId, address, accessTime);
      ClearOldAccess(newAccess);
      ghost var evicted := accessList;
      if address in accessMap && |accessMap[address]| >= accessLimit {
        allowed := false;
      } else {
        nextId := nextId + 1;
        AddAccess(newAccess);
        allowed := true;
      }
      SortedAfter(old(accessList), evicted, accessList, accessTime - timeWindow, newAccess);
    }

    /**
     * Appends `newAccess` to the queue and to its key's set, creating the set when the
     * key has none.
     */
    method AddAccess(newAccess: Access)
      requires Valid()
      requires newAccess.id < nextId
      requires forall i :: 0 <= i < |accessList| ==> accessList[i].id < newAccess.id
      requires newAccess.key in accessMap ==> |accessMap[newAccess.key]| < accessLimit
      modifies this
      ensures Valid()
      ensures accessList == old(accessList) + [newAccess]
      ensures accessMap == Link(old(accessMap), newAccess)
      ensures nextId == old(nextId)
    {
      ghost var q, m := accessList, accessMap;
      PushKeeps(q, m, nextId, PerKeyCap(), newAccess);
      accessList := accessList + [newAccess];
      if newAccess.key !in accessMap {
        accessMap := accessMap[newAccess.key := {newAccess}];
      } else {
        accessMap := accessMap[newAccess.key := accessMap[newAccess.key] + {newAccess}];
      }
      assert accessMap == Link(m, newAccess);
    }

    /**
     * Removes from the head of the queue every record older than the window ending at
     * `newAccess`'s time, whatever its key, removing it from its key's set as well and
     * dropping a key whose set becomes empty.
     */
    method ClearOldAccess(newAccess: Access)
      requires Valid()
      modifies this
      ensures Valid()
      ensures accessList == DropExpired(old(accessList), newAccess.accessTime - timeWindow)
      ensures accessList == [] || accessList[0].accessTime >= newAccess.accessTime - timeWindow
      ensures nextId == old(nextId)
    {
      var horizon := newAccess.accessTime - timeWindow;
      while accessList != [] && accessList[0].accessTime < horizon
        invariant Valid()
        invariant nextId == old(nextId)
        invariant DropExpired(accessList, horizon) == DropExpired(old(accessList), horizon)
        decreases |accessList|
      {
        var oldestAccess := accessList[0];
        ghost var q, m := accessList, accessMap;
        PopKeeps(q, m, nextId, PerKeyCap());
        accessList := accessList[1..];
        var rest := accessMap[oldestAccess.key] - {oldestAccess};
        if rest == {} {
          accessMap := accessMap - {oldestAccess.key};
        } else {
          accessMap := accessMap[oldestAccess.key := rest];
        }
        assert accessMap == Unlink(m, oldestAccess);
      }
    }
  }

  /**
   * The limiter's invariant on values: distinct records below `nextId` in the queue,
   * an index that is the per-key view of the queue, and every set within `cap`.
   */
  ghost predicate Consistent(q: seq<Access>, m: map<string, set<Access>>, nextId: nat, cap: nat)
  {
    && IdsIncreasing(q)
    && (forall i :: 0 <= i < |q| ==> q[i].id < nextId)
    && m == Index(q)
    && forall k :: k in m ==> |m[k]| <= cap
  }

  /** Admitting a record with a new identity to a key below its cap keeps the invariant. */
  lemma PushKeeps(q: seq<Access>, m: map<string, set<Access>>, nextId: nat, cap: nat, a: Access)
    requires Consistent(q, m, nextId, cap)
    requires a.id < nextId && forall i :: 0 <= i < |q| ==> q[i].id < a.id
    requires a.key in m ==> |m[a.key]| < cap
    requires cap >= 1
    ensures Consistent(q + [a], Link(m, a), nextId, cap)
  {
    assert a !in q;
    IndexPush(q, a);
    var q' := q + [a];
    forall i, j | 0 <= i < j < |q'| ensures q'[i].id < q'[j].id {
      if j < |q| { assert q'[i] == q[i] && q'[j] == q[j]; } else { assert q'[i] == q[i]; }
    }
    var m' := Link(m, a);
    forall k | k in m' ensures |m'[k]| <= cap {
      if k == a.key && k in m {
        assert |m[k] + {a}| <= |m[k]| + 1;
      }
    }
  }

  /** Evicting the head record and unlinking it from its key's set keeps the invariant. */
  lemma PopKeeps(q: seq<Access>, m: map<string, set<Access>>, nextId: nat, cap: nat)
    requires Consistent(q, m, nextId, cap) && q != []
    ensures q[0].key in m
    ensures Consistent(q[1..], Unlink(m, q[0]), nextId, cap)
  {
    IndexPop(q);
    PopShrinks(q);
    PopKeys(q);
  }

  /** Dropping the head keeps ids increasing and shrinks each key's set. */
  lemma PopShrinks(q: seq<Access>)
    requires q != [] && IdsIncreasing(q)
    ensures IdsIncreasing(q[1..])
    ensures forall k :: k in Index(q[1..]) ==> k in Index(q) && |Index(q[1..])[k]| <= |Index(q)[k]|
  {
    var t := q[1..];
    forall i, j | 0 <= i < j < |t| ensures t[i].id < t[j].id {
      assert t[i] == q[i + 1] && t[j] == q[j + 1];
    }
    PopKeys(q);
    forall k | k in Index(t) ensures k in Index(q) && |Index(t)[k]| <= |Index(q)[k]| {
      SubsetCard(KeySet(t, k), KeySet(q, k));
    }
  }

  /**
   * Ordering across one call: evicting keeps a suffix and admission appends a record no
   * older than anything queued, so a time-ordered queue stays time-ordered, and a queue
   * with nothing later than the call's time still has nothing later afterwards.
   */
  lemma SortedAfter(q: seq<Access>, evicted: seq<Access>, after: seq<Access>, horizon: int, a: Access)
    requires evicted == DropExpired(q, horizon)
    requires after == evicted || after == evicted + [a]
    ensures Sorted(q) && NotAfter(q, a.accessTime) ==> Sorted(after)
    ensures NotAfter(q, a.accessTime) ==> NotAfter(after, a.accessTime)
  {
    if NotAfter(q, a.accessTime) {
      DropExpiredSpec(q, horizon);
      var d := |q| - |evicted|;
      forall i | 0 <= i < |evicted| ensures evicted[i].accessTime <= a.accessTime {
        assert evicted[i] == q[d + i];
      }
      forall i | 0 <= i < |after| ensures after[i].accessTime <= a.accessTime {
        if i < |evicted| { assert after[i] == evicted[i]; }
      }
      if Sorted(q) {
        SortedDropExpired(q, horizon);
        SortedAppend(evicted, a);
      }
    }
  }
}
