/** Allocators as handles on shared pools: copying, moving and destroying them keeps a reference count. */
module PoolSharing {
  import opened Wrappers

  /** The handles that refer to a pool. A handle that was moved from refers to none. */
  ghost function Holders(handles: map<nat, Option<nat>>, pool: nat): (r: set<nat>) {
    set h | h in handles && handles[h] == Some(pool)
  }

  /** Each living pool counts its handles and has at least one, and every handle's pool is alive. */
  ghost predicate Counted(handles: map<nat, Option<nat>>, counts: map<nat, nat>) {
    && (forall p :: p in counts ==> counts[p] == |Holders(handles, p)| > 0)
    && forall h :: h in handles && handles[h].Some? ==> handles[h].value in counts
  }

  lemma AddHolder(handles: map<nat, Option<nat>>, h: nat, pool: nat, p: nat)
    requires h !in Holders(handles, pool) && (h in handles ==> handles[h].None?)
    ensures |Holders(handles[h := Some(pool)], p)| == |Holders(handles, p)| + if p == pool then 1 else 0
  {
    assert Holders(handles[h := Some(pool)], p) == Holders(handles, p) + if p == pool then {h} else {};
  }

  lemma DropHolder(handles: map<nat, Option<nat>>, h: nat, p: nat)
    requires h in handles && handles[h].Some?
    ensures |Holders(handles[h := None], p)| == |Holders(handles, p)| - if p == handles[h].value then 1 else 0
  {
    assert Holders(handles[h := None], p) == Holders(handles, p) - if p == handles[h].value then {h} else {};
    assert p == handles[h].value ==> h in Holders(handles, p);
  }

  /** The last handle of a pool is its only one. */
  lemma OnlyHolder(handles: map<nat, Option<nat>>, counts: map<nat, nat>, h: nat)
    requires Counted(handles, counts) && h in handles && handles[h].Some? && counts[handles[h].value] == 1
    ensures Holders(handles, handles[h].value) == {h}
  {
    var holders := Holders(handles, handles[h].value);
    assert h in holders && |holders - {h}| == 0;
    assert holders == holders - {h} + {h};
  }

  /** One more handle on a living pool. */
  lemma ShareKeeps(handles: map<nat, Option<nat>>, counts: map<nat, nat>, h: nat, pool: nat)
    requires Counted(handles, counts) && pool in counts && (h in handles ==> handles[h].None?)
    ensures Counted(handles[h := Some(pool)], counts[pool := counts[pool] + 1])
  {
    forall p | p in counts
      ensures |Holders(handles[h := Some(pool)], p)| == counts[p] + if p == pool then 1 else 0
    {
      AddHolder(handles, h, pool, p);
    }
  }

  /** A new pool with its first handle. */
  lemma CreateKeeps(handles: map<nat, Option<nat>>, counts: map<nat, nat>, h: nat, pool: nat)
    requires Counted(handles, counts) && pool !in counts && (h in handles ==> handles[h].None?)
    ensures Counted(handles[h := Some(pool)], counts[pool := 1])
  {
    assert Holders(handles, pool) == {};
    forall p | p in counts || p == pool
      ensures |Holders(handles[h := Some(pool)], p)| == if p == pool then 1 else counts[p]
    {
      AddHolder(handles, h, pool, p);
    }
  }

  /** One handle less; the pool goes with its last one. */
  lemma ReleaseKeeps(handles: map<nat, Option<nat>>, counts: map<nat, nat>, h: nat)
    requires Counted(handles, counts) && h in handles && handles[h].Some?
    ensures var pool := handles[h].value;
            Counted(handles[h := None], if counts[pool] > 1 then counts[pool := counts[pool] - 1] else counts - {pool})
  {
    var pool := handles[h].value;
    forall p | p in counts
      ensures |Holders(handles[h := None], p)| == counts[p] - if p == pool then 1 else 0
    {
      DropHolder(handles, h, p);
    }
    if counts[pool] == 1 {
      OnlyHolder(handles, counts, h);
      assert forall k :: k in handles && k != h && handles[k].Some? ==> k !in Holders(handles, pool);
    }
  }

  /** A pool is alive or was released, never both, and is released at most once. */
  ghost predicate Ledger(alive: set<nat>, nextPool: nat, released: seq<nat>) {
    && (forall p :: p in alive ==> p < nextPool && p !in released)
    && (forall i :: 0 <= i < |released| ==> released[i] < nextPool)
    && forall i, j :: 0 <= i < j < |released| ==> released[i] != released[j]
  }

  lemma ReleaseEnters(alive: set<nat>, nextPool: nat, released: seq<nat>, pool: nat)
    requires Ledger(alive, nextPool, released) && pool in alive
    ensures Ledger(alive - {pool}, nextPool, released + [pool])
  {
  }

  class Allocators {
    var handles: map<nat, Option<nat>>
    var counts: map<nat, nat>  // the reference counts of the pools that are alive
    var nextPool: nat
    var released: seq<nat>     // the pools whose memory was given back, in order

    ghost predicate Valid()
      reads this
    {
      Counted(handles, counts) && Ledger(counts.Keys, nextPool, released)
    }

    constructor ()
      ensures Valid() && handles == map[] && released == []
    {
      handles, counts, nextPool, released := map[], map[], 0, [];
    }

    method Create(h: nat)
      requires Valid() && h !in handles
      modifies this`handles, this`counts, this`nextPool
      ensures Valid() && handles == old(handles)[h := Some(old(nextPool))]
      ensures forall k :: k in old(handles) ==> old(handles)[k] != Some(old(nextPool))
    {
      CreateKeeps(handles, counts, h, nextPool);
      handles, counts := handles[h := Some(nextPool)], counts[nextPool := 1];
      nextPool := nextPool + 1;
    }

    /** The copy constructor. */
    method Copy(h: nat, rhs: nat)
      requires Valid() && h !in handles && rhs in handles && handles[rhs].Some?
      modifies this`handles, this`counts
      ensures Valid() && handles == old(handles)[h := old(handles)[rhs]]
    {
      var pool := handles[rhs].value;
      ShareKeeps(handles, counts, h, pool);
      counts := counts[pool := counts[pool] + 1];
      handles := handles[h := Some(pool)];
    }

    /** The destructor body: the pool is released exactly when this was its last handle. */
    method Destroy(h: nat)
      requires Valid() && h in handles
      modifies this`handles, this`counts, this`released
      ensures Valid() && handles == old(handles)[h := None]
      ensures released == old(released) + if old(LastHandle(h)) then [old(handles)[h].value] else []
    {
      if handles[h].None? {
        assert handles[h := None] == handles;
        return;
      }
      var pool := handles[h].value;
      ReleaseKeeps(handles, counts, h);
      LastMeansOne(h);
      GiveUp(pool);
      handles := handles[h := None];
    }

    ghost predicate LastHandle(h: nat)
      reads this
    {
      h in handles && handles[h].Some? && Holders(handles, handles[h].value) == {h}
    }

    lemma LastMeansOne(h: nat)
      requires Valid() && h in handles && handles[h].Some?
      ensures LastHandle(h) <==> counts[handles[h].value] == 1
    {
      if counts[handles[h].value] == 1 {
        OnlyHolder(handles, counts, h);
      }
    }

    /** Copy assignment counts first, so assigning a handle to itself, or to another handle on the same
        pool, releases nothing. */
    method Assign(h: nat, rhs: nat)
      requires Valid() && h in handles && rhs in handles && handles[rhs].Some?
      modifies this`handles, this`counts, this`released
      ensures Valid() && handles == old(handles)[h := old(handles)[rhs]]
      ensures released == old(released) + if old(LastHandle(h)) && h != rhs then [old(handles)[h].value] else []
    {
      var pool, mine := handles[rhs].value, handles[h];
      AssignKeeps(handles, counts, h, pool);
      LastOnAssignment(h, rhs);
      counts := counts[pool := counts[pool] + 1];
      assert counts.Keys == old(counts.Keys);
      if mine.Some? {
        GiveUp(mine.value);
      }
      handles := handles[h := Some(pool)];
    }

    /** The count goes down, and the pool is released when it was at one. */
    method GiveUp(pool: nat)
      requires pool in counts && Ledger(counts.Keys, nextPool, released)
      modifies this`counts, this`released
      ensures counts == if old(counts)[pool] > 1
                        then old(counts)[pool := old(counts)[pool] - 1]
                        else old(counts) - {pool}
      ensures released == old(released) + if old(counts)[pool] > 1 then [] else [pool]
      ensures Ledger(counts.Keys, nextPool, released)
    {
      if counts[pool] > 1 {
        assert counts[pool := counts[pool] - 1].Keys == counts.Keys;
        counts := counts[pool := counts[pool] - 1];
      } else {
        ReleaseEnters(counts.Keys, nextPool, released, pool);
        assert (counts - {pool}).Keys == counts.Keys - {pool};
        counts := counts - {pool};
        released := released + [pool];
      }
    }

    /** Once the other's pool counts one more, this handle's pool is at one exactly when the handle is its
        last one and stays apart from the other. */
    lemma LastOnAssignment(h: nat, rhs: nat)
      requires Valid() && h in handles && rhs in handles && handles[rhs].Some?
      ensures handles[h].Some? ==>
                var pool, mine := handles[rhs].value, handles[h].value;
                && mine in counts && pool in counts
                && (counts[pool := counts[pool] + 1][mine] <= 1 <==> LastHandle(h) && h != rhs)
    {
      if handles[h].Some? {
        LastMeansOne(h);
        if handles[h] == handles[rhs] && h != rhs {
          SameHolder(h, rhs);
        }
      }
    }

    /** Two handles on one pool: neither is the last. */
    lemma SameHolder(h: nat, rhs: nat)
      requires h in handles && rhs in handles && handles[h] == handles[rhs] && handles[h].Some? && h != rhs
      ensures !LastHandle(h)
    {
      assert rhs in Holders(handles, handles[h].value);
    }

    /** The move constructor: the reference changes hands, the count does not. */
    method Move(h: nat, rhs: nat)
      requires Valid() && h !in handles && rhs in handles && handles[rhs].Some?
      modifies this`handles
      ensures Valid() && handles == old(handles)[h := old(handles)[rhs]][rhs := None]
    {
      TransferKeeps(handles, counts, h, rhs);
      handles := handles[h := handles[rhs]];
      handles := handles[rhs := None];
    }

    /** The reference of `rhs`, which was read before, goes to a handle that has none. */
    method TakeOver(h: nat, rhs: nat, shared: Option<nat>)
      requires Valid() && h in handles && rhs in handles && handles[h].None?
      requires h != rhs ==> handles[rhs] == shared && shared.Some?
      modifies this`handles
      ensures Valid() && handles == old(handles)[h := shared][rhs := None]
    {
      if h != rhs {
        TransferKeeps(handles, counts, h, rhs);
      } else {
        assert handles[h := shared][rhs := None] == handles;
      }
      handles := handles[h := shared];
      handles := handles[rhs := None];
    }

    /** Move assignment gives up the old pool first; a handle that is moved to itself ends up empty. */
    method MoveAssign(h: nat, rhs: nat)
      requires Valid() && h in handles && rhs in handles && handles[rhs].Some?
      modifies this`handles, this`counts, this`released
      ensures Valid() && handles == old(handles)[h := old(handles)[rhs]][rhs := None]
      ensures released == old(released) + if old(LastHandle(h)) then [old(handles)[h].value] else []
    {
      var shared := handles[rhs];
      Destroy(h);
      TakeOver(h, rhs, shared);
    }
  }

  /** A reference changes hands. */
  lemma TransferKeeps(handles: map<nat, Option<nat>>, counts: map<nat, nat>, h: nat, rhs: nat)
    requires Counted(handles, counts) && rhs in handles && handles[rhs].Some?
    requires h != rhs && (h in handles ==> handles[h].None?)
    ensures Counted(handles[h := handles[rhs]][rhs := None], counts)
  {
    var pool := handles[rhs].value;
    forall p | p in counts ensures |Holders(handles[h := Some(pool)][rhs := None], p)| == counts[p] {
      AddHolder(handles, h, pool, p);
      DropHolder(handles[h := Some(pool)], rhs, p);
    }
  }

  /** Giving up a reference and taking another one. */
  lemma AssignKeeps(handles: map<nat, Option<nat>>, counts: map<nat, nat>, h: nat, pool: nat)
    requires Counted(handles, counts) && pool in counts && h in handles
    ensures var mine := handles[h];
            var more := counts[pool := counts[pool] + 1];
            Counted(handles[h := Some(pool)],
                    if mine.None? then more
                    else if more[mine.value] > 1 then more[mine.value := more[mine.value] - 1]
                    else more - {mine.value})
  {
    var mine := handles[h];
    if mine == Some(pool) {
      assert handles[h := Some(pool)] == handles;
      assert counts[pool := counts[pool] + 1][pool := counts[pool]] == counts;
    } else if mine.None? {
      ShareKeeps(handles, counts, h, pool);
    } else {
      var left :=
        if counts[mine.value] > 1 then counts[mine.value := counts[mine.value] - 1] else counts - {mine.value};
      ReleaseKeeps(handles, counts, h);
      ShareKeeps(handles[h := None], left, h, pool);
      assert handles[h := None][h := Some(pool)] == handles[h := Some(pool)];
      var more := counts[pool := counts[pool] + 1];
      assert left[pool := left[pool] + 1]
          == if more[mine.value] > 1 then more[mine.value := more[mine.value] - 1] else more - {mine.value};
    }
  }
}
