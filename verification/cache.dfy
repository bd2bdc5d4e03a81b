/** The cache object: its maps, its slices, and the two regions under its mutex. */
module CacheObject {
  import opened Options
  import opened NetAddr
  import opened CacheProtocol

  /** An entry is never changed after it was made; its slice may be nil. */
  datatype CacheEntry = CacheEntry(addrs: array?<IPAddr>, err: Option<Error>, expires: int)

  class PendingLookup {
    var done: bool
    var addrs: array?<IPAddr>
    var err: Option<Error>
    // What the leader published; the slice may be written to afterwards.
    ghost var published: Answer

    constructor ()
      ensures !done
    {
      done, addrs, err, published := false, null, None, Answer([], None);
    }

    ghost predicate Announced()
      reads this
    {
      done && err == published.err
    }

    // The fields are written and `done` is closed.
    method Complete(addrs: array?<IPAddr>, err: Option<Error>)
      requires !done
      modifies this
      ensures Announced() && this.addrs == addrs && this.err == err
      ensures published == Answer(Slice(addrs), err) && Untouched()
    {
      this.addrs, this.err, published := addrs, err, Answer(Slice(addrs), err);
      done := true;
    }

    // The slice, which the leader's caller has too, still holds what was published.
    ghost predicate Untouched()
      reads this, addrs
    {
      Slice(addrs) == published.addrs
    }
  }

  function Slice(a: array?<IPAddr>): seq<IPAddr>
    reads a
  {
    if a == null then [] else a[..]
  }

  /** cloneAddrs: a new slice with the same elements; nil stays nil. */
  method CloneAddrs(a: array?<IPAddr>) returns (out: array?<IPAddr>)
    ensures (out == null) == (a == null)
    ensures out != null ==> fresh(out)
    ensures Slice(out) == Slice(a)
  {
    if a == null {
      return null;
    }
    var b := new IPAddr[a.Length](i requires 0 <= i < a.Length reads a => a[i]);
    assert b[..] == a[..];
    return b;
  }

  datatype LockResult =
    | HitResult(addrs: array?<IPAddr>, err: Option<Error>)
    | Join(p: PendingLookup)
    | Lead(p: PendingLookup)

  class Cache {
    const posTTL: int
    const negTTL: int
    const maxSize: nat
    var entries: map<Key, CacheEntry>
    var pending: map<Key, PendingLookup>
    // What the cache holds, as the protocol sees it, and every slice a caller has got from it.
    ghost var contents: Entries
    ghost var handedOut: set<array<IPAddr>>

    ghost function StoredSlices(): set<array<IPAddr>>
      reads this
    {
      set k | k in entries && entries[k].addrs != null :: entries[k].addrs as array<IPAddr>
    }

    ghost predicate Represents()
      reads this, StoredSlices()
    {
      && contents.Keys == entries.Keys
      && forall k | k in entries ::
           contents[k].answer == Answer(Slice(entries[k].addrs), entries[k].err)
           && contents[k].expires == entries[k].expires
    }

    /** The map and the contents agree, the size is within the limit, and no stored slice is one
        that a caller has. */
    ghost predicate Valid()
      reads this, StoredSlices()
    {
      Represents() && |entries| <= maxSize && StoredSlices() !! handedOut
    }

    constructor (posTTL: int, negTTL: int, maxSize: int)
      ensures Valid() && contents == map[] && pending == map[]
      ensures this.posTTL == posTTL && this.negTTL == negTTL
      ensures this.maxSize == (if maxSize <= 0 then 1024 else maxSize)
    {
      this.posTTL, this.negTTL := posTTL, negTTL;
      this.maxSize := if maxSize <= 0 then 1024 else maxSize;
      entries, pending, contents, handedOut := map[], map[], map[], {};
    }

    // A copy for a caller.
    method HandOut(a: array?<IPAddr>) returns (addrs: array?<IPAddr>)
      requires Valid()
      modifies this`handedOut
      ensures Valid() && contents == old(contents)
      ensures Slice(addrs) == Slice(a) && (addrs != null ==> fresh(addrs))
      ensures handedOut == old(handedOut) + if addrs == null then {} else {addrs}
    {
      addrs := CloneAddrs(a);
      if addrs != null {
        handedOut := handedOut + {addrs};
      }
    }

    /** The first region: a live entry is a hit and is answered with a copy, a lookup under way is
        joined, else the caller leads a new one. */
    method Enter(key: Key, now: int) returns (r: LockResult)
      requires Valid()
      modifies this`pending, this`handedOut
      ensures Valid() && contents == old(contents)
      ensures r.HitResult? <==> key in contents && contents[key].expires > now
      ensures r.HitResult? ==>
        && pending == old(pending)
        && Answer(Slice(r.addrs), r.err) == Served(contents[key].answer)
        && (r.addrs != null ==> fresh(r.addrs))
        && handedOut == old(handedOut) + if r.addrs == null then {} else {r.addrs}
      ensures !r.HitResult? ==> handedOut == old(handedOut)
      ensures r.Join? ==> key in pending && r.p == pending[key] && pending == old(pending)
      ensures r.Lead? ==> key !in old(pending) && fresh(r.p) && !r.p.done && pending == old(pending)[key := r.p]
    {
      if key in entries && entries[key].expires > now {
        var e := entries[key];
        if e.err != None {
          return HitResult(null, e.err);
        }
        var addrs := HandOut(e.addrs);
        return HitResult(addrs, None);
      }
      if key in pending {
        return Join(pending[key]);
      }
      var p := new PendingLookup();
      pending := pending[key := p];
      return Lead(p);
    }

    /** A waiter's return after `done`: an error alone, or a copy of the addresses.  That is what
        was published exactly when it is an error or nobody has written to the slice since. */
    method WaiterReads(p: PendingLookup) returns (addrs: array?<IPAddr>, err: Option<Error>)
      requires Valid() && p.Announced()
      modifies this`handedOut
      ensures Valid() && contents == old(contents)
      ensures Answer(Slice(addrs), err) == Served(Answer(Slice(p.addrs), p.err))
      ensures Answer(Slice(addrs), err) == Served(p.published) <==> p.err.Some? || p.Untouched()
      ensures addrs != null ==> fresh(addrs)
      ensures handedOut == old(handedOut) + if addrs == null then {} else {addrs}
    {
      if p.err != None {
        return null, p.err;
      }
      addrs := HandOut(p.addrs);
      err := None;
    }

    /** The second region: the answer is written to the waiters' object, `done` is closed, the key
        leaves `pending`, and with a positive TTL a copy is filed and the size restored.  The
        leader itself goes away with the slice of the inner resolver. */
    method Publish(key: Key, p: PendingLookup, addrs: array?<IPAddr>, err: Option<Error>,
                   at: int, evictAt: int, ghost origin: nat)
      requires Valid() && !p.done && key in pending && pending[key] == p
      requires addrs != null ==> addrs !in StoredSlices()
      modifies this, p
      ensures Valid()
      ensures p.Announced() && p.addrs == addrs && p.err == err
      ensures p.published == Answer(Slice(addrs), err) && p.Untouched()
      ensures pending == old(pending) - {key}
      ensures handedOut == old(handedOut) + if addrs == null then {} else {addrs}
      ensures var ttl := if err.None? && addrs != null && addrs.Length > 0 then posTTL else negTTL;
        if ttl > 0
        then Evicts(maxSize, old(contents)[key := Entry(Answer(Slice(addrs), err), at + ttl, origin)],
                    evictAt, contents)
        else contents == old(contents)
    {
      Announce(key, p, addrs, err);
      var ttl := posTTL;
      if err != None || addrs == null || addrs.Length == 0 {
        ttl := negTTL;
      }
      assert Slice(addrs) == [] <==> addrs == null || addrs.Length == 0;
      if ttl > 0 {
        File(key, addrs, err, at + ttl, evictAt, origin);
      }
    }

    method Announce(key: Key, p: PendingLookup, addrs: array?<IPAddr>, err: Option<Error>)
      requires Valid() && !p.done && key in pending && pending[key] == p
      requires addrs != null ==> addrs !in StoredSlices()
      modifies this`pending, this`handedOut, p
      ensures Valid() && contents == old(contents)
      ensures p.Announced() && p.addrs == addrs && p.err == err
      ensures p.published == Answer(Slice(addrs), err) && p.Untouched()
      ensures pending == old(pending) - {key}
      ensures handedOut == old(handedOut) + if addrs == null then {} else {addrs}
    {
      p.Complete(addrs, err);
      pending := pending - {key};
      if addrs != null {
        handedOut := handedOut + {addrs};
      }
    }

    method File(key: Key, addrs: array?<IPAddr>, err: Option<Error>, expires: int, evictAt: int, ghost origin: nat)
      requires Valid()
      modifies this`entries, this`contents
      ensures Valid()
      ensures Evicts(maxSize, old(contents)[key := Entry(Answer(Slice(addrs), err), expires, origin)],
                     evictAt, contents)
    {
      Put(key, addrs, err, expires, origin);
      ghost var stored := StoredSlices();
      EvictLocked(evictAt);
      assert StoredSlices() <= stored;
    }

    method Put(key: Key, addrs: array?<IPAddr>, err: Option<Error>, expires: int, ghost origin: nat)
      requires Valid()
      modifies this`entries, this`contents
      ensures Represents() && StoredSlices() !! handedOut
      ensures contents == old(contents)[key := Entry(Answer(Slice(addrs), err), expires, origin)]
    {
      var copy := CloneAddrs(addrs);
      Insert(key, CacheEntry(copy, err, expires), origin);
    }

    method Insert(key: Key, e: CacheEntry, ghost origin: nat)
      requires Valid() && (e.addrs != null ==> e.addrs !in handedOut)
      modifies this`entries, this`contents
      ensures Represents() && StoredSlices() !! handedOut
      ensures contents == old(contents)[key := Entry(Answer(Slice(e.addrs), e.err), e.expires, origin)]
    {
      ghost var stored := StoredSlices();
      entries := entries[key := e];
      contents := contents[key := Entry(Answer(Slice(e.addrs), e.err), e.expires, origin)];
      assert forall a | a in StoredSlices() :: a in stored || a == e.addrs;
    }

    method Delete(k: Key)
      requires Represents() && k in entries
      modifies this`entries, this`contents
      ensures Represents()
      ensures entries == old(entries) - {k} && contents == old(contents) - {k}
      ensures |entries| == old(|entries|) - 1 && entries.Keys == old(entries.Keys) - {k}
    {
      RemoveOne(entries, k);
      entries := entries - {k};
      contents := contents - {k};
    }

    /** evictLocked: expired entries go first, then arbitrary ones until the size is right. */
    method EvictLocked(now: int)
      requires Represents()
      modifies this`entries, this`contents
      ensures Represents() && |entries| <= maxSize
      ensures entries.Keys <= old(entries).Keys && forall k | k in entries :: entries[k] == old(entries)[k]
      ensures Evicts(maxSize, old(contents), now, contents)
      ensures forall k | k in contents :: k in old(contents) && contents[k] == old(contents)[k]
      ensures |old(contents)| <= maxSize ==> contents == old(contents)
      ensures |old(contents)| > maxSize ==> forall k | k in contents :: contents[k].expires > now
      ensures |contents| < maxSize ==> forall k | k in old(contents) && old(contents)[k].expires > now :: k in contents
    {
      SameSize(entries, contents);
      if |entries| <= maxSize {
        return;
      }
      DropExpired(now);
      SameSize(entries, contents);
      if |entries| <= maxSize {
        return;
      }
      DropExcess(|entries| - maxSize);
      SameSize(entries, contents);
    }

    // The first loop of evictLocked; a map is walked in any order.
    method DropExpired(now: int)
      requires Represents()
      modifies this`entries, this`contents
      ensures Represents() && contents == Live(old(contents), now)
      ensures forall k | k in entries :: k in old(entries) && entries[k] == old(entries)[k]
    {
      var todo := entries.Keys;
      while todo != {}
        invariant Represents() && todo <= entries.Keys
        invariant contents ==
          map k | k in old(contents) && (k in todo || old(contents)[k].expires > now) :: old(contents)[k]
        invariant forall k | k in entries :: k in old(entries) && entries[k] == old(entries)[k]
        decreases todo
      {
        var k :| k in todo;
        todo := todo - {k};
        if entries[k].expires <= now {
          Delete(k);
        }
      }
    }

    // The second loop.
    method DropExcess(excess: nat)
      requires Represents() && excess <= |entries|
      modifies this`entries, this`contents
      ensures Represents() && |entries| + excess == old(|entries|)
      ensures SubMap(entries, old(entries)) && SubMap(contents, old(contents))
    {
      var left, todo := excess, entries.Keys;
      assert |todo| == |entries|;
      while todo != {} && left != 0
        invariant Represents() && todo <= entries.Keys
        invariant SubMap(entries, old(entries)) && SubMap(contents, old(contents))
        invariant 0 <= left <= |todo| && |entries| + excess == old(|entries|) + left
        decreases todo
      {
        var k :| k in todo;
        assert |todo - {k}| == |todo| - 1;
        todo := todo - {k};
        Delete(k);
        left := left - 1;
      }
    }

    /** Whatever a caller does to a slice it got, the cache holds what it held. */
    method CallerWrites(a: array<IPAddr>, i: nat, v: IPAddr)
      requires Valid() && a in handedOut && i < a.Length
      modifies a
      ensures a[..] == old(a[..])[i := v]
      ensures Valid() && contents == old(contents)
    {
      a[i] := v;
    }

    /** A waiter is not protected in that way: the leader publishes, its caller writes to the slice it
        got, and a waiter that copies after that is handed what the caller wrote, in place of what the
        inner resolver had returned. */
    method LeaderOverwritesForWaiter(key: Key, p: PendingLookup, addrs: array<IPAddr>, i: nat, v: IPAddr,
                                     at: int, evictAt: int, ghost origin: nat)
      returns (got: array?<IPAddr>, err: Option<Error>)
      requires Valid() && !p.done && key in pending && pending[key] == p
      requires addrs !in StoredSlices() && i < addrs.Length && addrs[i] != v
      modifies this, p, addrs
      ensures Valid() && p.published == Answer(old(addrs[..]), None)
      ensures Answer(Slice(got), err) == Answer(old(addrs[..])[i := v], None)
      ensures Answer(Slice(got), err) != Served(p.published)
    {
      Publish(key, p, addrs, None, at, evictAt, origin);
      CallerWrites(addrs, i, v);
      got, err := WaiterReads(p);
      assert Slice(got)[i] == v;
    }
  }

  ghost predicate SubMap<K, V>(m: map<K, V>, n: map<K, V>) {
    forall k | k in m :: k in n && m[k] == n[k]
  }

  lemma SameSize<K, V, W>(m: map<K, V>, n: map<K, W>)
    requires m.Keys == n.Keys
    ensures |m| == |n|
  {
  }

  lemma RemoveOne<K, V>(m: map<K, V>, k: K)
    requires k in m
    ensures |m - {k}| == |m| - 1
  {
  }
}
