/**
 The HTTP session pool: buckets of idle sessions keyed by connection flag, and the cleaner
 that drops sessions idle for longer than a timeout, which a program can set at any time.
 */
module SessionPool {
  import opened Wrappers
  import opened Url

  /** A session as the pool copies it. `C` identifies a connection. */
  datatype Session<+C> = Session(conn: Option<C>, flag: string, lastUse: int)

  type Bucket<C> = seq<Session<C>>
  type Pool<C> = map<string, Bucket<C>>

  function BucketOf<C>(pool: Pool<C>, flag: string): Bucket<C> {
    if flag in pool then pool[flag] else []
  }

  /** Taking a session: the oldest of the bucket, or a new one that is not connected. */
  function TakeSession<C>(pool: Pool<C>, flag: string, now: int): (Session<C>, Pool<C>) {
    var v := BucketOf(pool, flag);
    if v == [] then (Session(None, "", now), pool[flag := []]) else (v[0], pool[flag := v[1..]])
  }

  function GiveSession<C>(pool: Pool<C>, s: Session<C>): Pool<C> {
    pool[s.flag := BucketOf(pool, s.flag) + [s]]
  }

  predicate Expired<C>(s: Session<C>, now: int, timeout: int) {
    s.lastUse + timeout <= now
  }

  /** What a cleaning leaves of one bucket. */
  function Prune<C>(v: Bucket<C>, now: int, timeout: int): (r: Bucket<C>)
    ensures |r| <= |v|
  {
    if v != [] && Expired(v[0], now, timeout) then Prune(v[1..], now, timeout) else v
  }

  function CleanPool<C>(pool: Pool<C>, now: int, timeout: int): Pool<C> {
    map k | k in pool :: Prune(pool[k], now, timeout)
  }

  // ---------- The pool object ----------

  class SessionPool<C(==)> {
    var pool: Pool<C>

    constructor ()
      ensures pool == map[]
    {
      pool := map[];
    }

    /** Takes a session for a URL; nothing for a URL that does not parse. */
    method GetSession(url: string, now: int) returns (r: Option<Session<C>>)
      modifies this
      ensures match Parse(url)
              case None => r == None && pool == old(pool)
              case Some(u) => (r, pool) == (Some(TakeSession(old(pool), Flag(u), now).0),
                                            TakeSession(old(pool), Flag(u), now).1)
    {
      var u := ParseUrl(url);
      if u.None? {
        return None;
      }
      var flag := Flag(u.value);
      if flag in pool {
        var v := pool[flag];
        if v != [] {
          pool := pool[flag := v[1..]];
          return Some(v[0]);
        }
        assert pool == pool[flag := []];
      } else {
        pool := pool[flag := []];
      }
      r := Some(Session(None, "", now));
    }

    method FreeSession(s: Session<C>)
      modifies this
      ensures pool == GiveSession(old(pool), s)
    {
      pool := pool[s.flag := BucketOf(pool, s.flag) + [s]];
    }

    /** Drops expired sessions from the front of every bucket. */
    method TimeClear(now: int, timeout: int)
      modifies this
      ensures pool == CleanPool(old(pool), now, timeout)
      ensures pool.Keys == old(pool).Keys
    {
      var keys := pool.Keys;
      while keys != {}
        invariant keys <= pool.Keys == old(pool).Keys
        invariant forall k :: k in pool ==>
                    pool[k] == if k in keys then old(pool)[k] else Prune(old(pool)[k], now, timeout)
        decreases keys
      {
        var key :| key in keys;
        var val := pool[key];
        while val != []
          invariant Prune(val, now, timeout) == Prune(old(pool)[key], now, timeout)
        {
          if val[0].lastUse + timeout > now {
            break;
          }
          val := val[1..];
        }
        pool := pool[key := val];
        keys := keys - {key};
      }
    }
  }

  // ---------- What cleaning removes ----------

  /** A cleaning removes the longest expired prefix and nothing else. */
  lemma {:induction false} PruneIsLongestPrefix<C>(v: Bucket<C>, now: int, timeout: int)
    ensures var k := |v| - |Prune(v, now, timeout)|;
            && 0 <= k && Prune(v, now, timeout) == v[k..]
            && (forall i :: 0 <= i < k ==> v[i].lastUse + timeout <= now)
            && (k < |v| ==> v[k].lastUse + timeout > now)
  {
    if v != [] && Expired(v[0], now, timeout) {
      PruneIsLongestPrefix(v[1..], now, timeout);
    }
  }

  /** A bucket empties exactly when everything in it has expired. */
  lemma {:induction false} PruneEmptiesExactly<C>(v: Bucket<C>, now: int, timeout: int)
    ensures Prune(v, now, timeout) == [] <==> forall i :: 0 <= i < |v| ==> Expired(v[i], now, timeout)
  {
    PruneIsLongestPrefix(v, now, timeout);
  }

  /** An expired session survives a cleaning exactly when one that has not expired stands
      before it. */
  lemma {:induction false} ExpiredSurvivesExactly<C>(v: Bucket<C>, now: int, timeout: int)
    ensures (exists s :: s in Prune(v, now, timeout) && Expired(s, now, timeout)) <==>
            (exists i, j :: 0 <= i < j < |v| && !Expired(v[i], now, timeout) && Expired(v[j], now, timeout))
  {
    PruneIsLongestPrefix(v, now, timeout);
    var w := Prune(v, now, timeout);
    var k := |v| - |w|;
    if s :| s in w && Expired(s, now, timeout) {
      var j :| 0 <= j < |w| && w[j] == s;
      assert v[k] == w[0] && v[k + j] == s;
    }
    if i, j :| 0 <= i < j < |v| && !Expired(v[i], now, timeout) && Expired(v[j], now, timeout) {
      assert k <= i;
      assert v[j] == w[j - k] && v[j] in w;
    }
  }

  predicate Sorted<C>(v: Bucket<C>) {
    forall i, j :: 0 <= i < j < |v| ==> v[i].lastUse <= v[j].lastUse
  }

  /** In a bucket sorted by last use a cleaning leaves no expired session. */
  lemma {:induction false} SortedPruneLeavesNoneExpired<C>(v: Bucket<C>, now: int, timeout: int)
    requires Sorted(v)
    ensures Sorted(Prune(v, now, timeout)) && forall s :: s in Prune(v, now, timeout) ==> !Expired(s, now, timeout)
  {
    PruneIsLongestPrefix(v, now, timeout);
    ExpiredSurvivesExactly(v, now, timeout);
  }
}
