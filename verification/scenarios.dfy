/**
 * Client programs that replay the limiter's usage scenarios: a fresh limiter admits a
 * key up to its limit within one window and then rejects it, keys are counted
 * independently, and a key is admitted again once its window has passed.
 */
module LimiterScenarios {
  import opened AccessLog
  import opened RateLimiting

  /** Every queued record lies in the closed interval [lo, hi]. */
  predicate Within(q: seq<Access>, lo: int, hi: int)
  {
    forall i :: 0 <= i < |q| ==> lo <= q[i].accessTime <= hi
  }

  /** Appending a record inside an interval keeps a queue inside it. */
  lemma WithinAppend(q: seq<Access>, a: Access, lo: int, hi: int)
    requires Within(q, lo, hi) && lo <= a.accessTime <= hi
    ensures Within(q + [a], lo, hi)
  {
    forall i | 0 <= i < |q + [a]| ensures lo <= (q + [a])[i].accessTime <= hi {
      if i < |q| { assert (q + [a])[i] == q[i]; }
    }
  }

  /**
   * Calls `AllowAccess(address, accessTime)` `times` times on a limiter whose records
   * all lie in the window ending at `accessTime`, when the key has room for all of them.
   */
  method AllowRepeatedly(limiter: RateLimitter, address: string, accessTime: int, times: nat)
    returns (allAllowed: bool)
    requires limiter.Valid() && limiter.timeWindow >= 0
    requires Within(limiter.accessList, accessTime - limiter.timeWindow, accessTime)
    requires CountKey(limiter.accessList, address) + times <= limiter.accessLimit
    modifies limiter
    ensures allAllowed
    ensures limiter.Valid()
    ensures Within(limiter.accessList, accessTime - limiter.timeWindow, accessTime)
    ensures |limiter.accessList| == old(|limiter.accessList|) + times
    ensures CountKey(limiter.accessList, address) == old(CountKey(limiter.accessList, address)) + times
    ensures forall k :: k != address ==> CountKey(limiter.accessList, k) == old(CountKey(limiter.accessList, k))
  {
    allAllowed := true;
    var n := 0;
    while n < times
      invariant n <= times && allAllowed
      invariant limiter.Valid()
      invariant Within(limiter.accessList, accessTime - limiter.timeWindow, accessTime)
      invariant |limiter.accessList| == old(|limiter.accessList|) + n
      invariant CountKey(limiter.accessList, address) == old(CountKey(limiter.accessList, address)) + n
      invariant forall k :: k != address ==> CountKey(limiter.accessList, k) == old(CountKey(limiter.accessList, k))
    {
      ghost var q := limiter.accessList;
      DropExpiredAt(q, 0, accessTime - limiter.timeWindow);
      IndexCount(q, address);
      var ok := limiter.AllowAccess(address, accessTime);
      assert ok;
      ghost var entry := limiter.accessList[|q|];
      assert limiter.accessList == q + [entry] && entry.accessTime == accessTime;
      WithinAppend(q, entry, accessTime - limiter.timeWindow, accessTime);
      forall k ensures CountKey(limiter.accessList, k) == CountKey(q, k) + (if k == address then 1 else 0) {
        CountKeyAppend(q, entry, k);
      }
      allAllowed := allAllowed && ok;
      n := n + 1;
    }
  }

  /**
   * A limiter of 3 accesses per 1000 ms: three accesses at one instant are admitted, a
   * fourth in the same window is rejected, and one 1001 ms later is admitted.
   */
  method SetLimitScenario(t: int) returns (firstThree: bool, fourth: bool, afterWindow: bool)
    ensures firstThree && !fourth && afterWindow
  {
    var limiter := new RateLimitter(1000, 3);
    firstThree := AllowRepeatedly(limiter, "127.0.0.1", t, 3);
    fourth := Rejected(limiter, "127.0.0.1", t);
    afterWindow := AllowedAfterExpiry(limiter, "127.0.0.1", t + 1000 + 1);
  }

  /**
   * The default limiter (10 accesses per 60 s): ten accesses of one address are admitted
   * and the eleventh rejected; another address is counted on its own; an access one
   * window later evicts every earlier record, leaving one queued record and no set for
   * the other address.
   */
  method DefaultLimitScenario(t: int)
    returns (firstKeyTen: bool, firstKeyEleventh: bool, secondKeyTen: bool,
             secondKeyEleventh: bool, afterWindow: bool, queued: nat, secondKeyKept: bool)
    ensures firstKeyTen && !firstKeyEleventh && secondKeyTen && !secondKeyEleventh
    ensures afterWindow && queued < 10 && !secondKeyKept
  {
    var limiter := new RateLimitter.Default();
    firstKeyTen := AllowRepeatedly(limiter, "127.0.0.1", t, 10);
    firstKeyEleventh := Rejected(limiter, "127.0.0.1", t);
    assert CountKey(limiter.accessList, "127.0.0.2") == 0;
    secondKeyTen := AllowRepeatedly(limiter, "127.0.0.2", t, 10);
    secondKeyEleventh := Rejected(limiter, "127.0.0.2", t);
    afterWindow := AllowedAfterExpiry(limiter, "127.0.0.1", t + 60 * 1000 + 1);
    queued := |limiter.accessList|;
    secondKeyKept := "127.0.0.2" in limiter.accessMap;
  }

  /**
   * A limit of 0 is not rejected at construction: a key without records is still
   * admitted once, and only its second access in the window is rejected.
   */
  method ZeroLimitScenario(t: int) returns (first: bool, second: bool)
    ensures first && !second
  {
    var limiter := new RateLimitter(1000, 0);
    first := limiter.AllowAccess("127.0.0.1", t);
    second := Rejected(limiter, "127.0.0.1", t);
  }

  /** One more access of a key that has used up its limit within the window; it is rejected. */
  method Rejected(limiter: RateLimitter, address: string, accessTime: int) returns (allowed: bool)
    requires limiter.Valid()
    requires Within(limiter.accessList, accessTime - limiter.timeWindow, accessTime)
    requires CountKey(limiter.accessList, address) >= limiter.accessLimit
    requires CountKey(limiter.accessList, address) > 0
    modifies limiter
    ensures !allowed
    ensures limiter.Valid() && limiter.accessList == old(limiter.accessList)
  {
    ghost var q := limiter.accessList;
    DropExpiredAt(q, 0, accessTime - limiter.timeWindow);
    IndexCount(q, address);
    allowed := limiter.AllowAccess(address, accessTime);
  }

  /**
   * An access after every queued record has expired: it is admitted, and the queue and
   * the index then hold that one record only.
   */
  method AllowedAfterExpiry(limiter: RateLimitter, address: string, accessTime: int) returns (allowed: bool)
    requires limiter.Valid()
    requires forall i :: 0 <= i < |limiter.accessList| ==> limiter.accessList[i].accessTime < accessTime - limiter.timeWindow
    modifies limiter
    ensures allowed
    ensures limiter.Valid()
    ensures |limiter.accessList| == 1 && limiter.accessMap.Keys == {address}
    ensures limiter.accessList[0].key == address && limiter.accessList[0].accessTime == accessTime
    ensures limiter.accessMap == map[address := {limiter.accessList[0]}]
  {
    ghost var q := limiter.accessList;
    DropExpiredAt(q, |q|, accessTime - limiter.timeWindow);
    allowed := limiter.AllowAccess(address, accessTime);
  }
}
