/** The ripple store of the hexagon background: a bounded FIFO queue of click
    impulses. A click appends a ripple and, when the queue then holds more than
    `Cap` ripples, drops the head; every frame keeps only the ripples younger
    than `Ttl` milliseconds, in their original order.
 */
module RippleStore {

  /** Largest number of ripples a click leaves behind. */
  const Cap: nat := 5

  /** Time to live of a ripple, in milliseconds. */
  const Ttl: real := 2000.0

  /** A click impulse: its origin in canvas coordinates and the clock reading
      (milliseconds) at which it was created. */
  datatype Ripple = Ripple(x: real, y: real, startTime: real)

  function Min(a: int, b: int): int {
    if a <= b then a else b
  }

  /** Age of a ripple at frame time `time`. Nothing keeps it non-negative: the
      frame clock and the click clock are read at different moments. */
  function Age(r: Ripple, time: real): real {
    time - r.startTime
  }

  /** A ripple survives the frame at `time` when it is younger than `Ttl`. */
  predicate Live(r: Ripple, time: real) {
    Age(r, time) < Ttl
  }

  /** A click: push the new ripple, then shift the head off when the queue has
      grown past `Cap`. At most one ripple is ever removed. */
  function Spawn(store: seq<Ripple>, r: Ripple): (s: seq<Ripple>)
    ensures |s| > 0 && s[|s| - 1] == r
    ensures |s| == |store| + 1 || (|s| == |store| && |store| >= Cap)
    ensures s[..|s| - 1] == store[|store| + 1 - |s|..]
    ensures |store| <= Cap ==> |s| <= Cap
  {
    var pushed := store + [r];
    if |pushed| > Cap then pushed[1..] else pushed
  }

  /** The store after clicking once for every ripple of `rs`, in order,
      starting from an empty store and with no frame in between. */
  function Spawns(rs: seq<Ripple>): seq<Ripple>
    decreases |rs|
  {
    if |rs| == 0 then [] else Spawn(Spawns(rs[..|rs| - 1]), rs[|rs| - 1])
  }

  /** After N clicks on an empty store exactly the last min(N, Cap) ripples
      remain, oldest first. */
  lemma {:induction false} SpawnsKeepNewest(rs: seq<Ripple>)
    ensures Spawns(rs) == rs[|rs| - Min(|rs|, Cap)..]
    decreases |rs|
  {
    if |rs| > 0 {
      var n := |rs| - 1;
      SpawnsKeepNewest(rs[..n]);
      assert rs[..n][n - Min(n, Cap)..] == rs[n - Min(n, Cap)..n];
      SpawnWindow(rs);
    }
  }

  /** A click on a store holding the newest min(|rs| - 1, Cap) ripples of
      `rs[..|rs| - 1]` leaves the newest min(|rs|, Cap) ripples of `rs`. */
  lemma SpawnWindow(rs: seq<Ripple>)
    requires |rs| > 0
    ensures Spawn(rs[|rs| - 1 - Min(|rs| - 1, Cap)..|rs| - 1], rs[|rs| - 1]) == rs[|rs| - Min(|rs|, Cap)..]
  {
    var n := |rs| - 1;
    var k := n - Min(n, Cap);
    var pushed := rs[k..n] + [rs[n]];
    assert pushed == rs[k..];
    if |pushed| > Cap {
      assert pushed[1..] == rs[k + 1..];
    }
  }

  /** A click adds its own ripple and nothing else. */
  lemma SpawnMembers(store: seq<Ripple>, r: Ripple)
    ensures forall x :: x in Spawn(store, r) ==> x in store || x == r
  {
    var s := Spawn(store, r);
    forall x | x in s
      ensures x in store || x == r
    {
      var i :| 0 <= i < |s| && s[i] == x;
      if i < |s| - 1 {
        assert x == s[..|s| - 1][i];
      }
    }
  }

  /** Six clicks leave exactly five ripples: all but the first click's. */
  lemma SixClicksDropFirst(rs: seq<Ripple>)
    requires |rs| == 6
    ensures |Spawns(rs)| == Cap
    ensures Spawns(rs) == rs[1..]
  {
    SpawnsKeepNewest(rs);
  }

  /** The per-frame cleanup: keep exactly the live ripples, in order. */
  function Prune(store: seq<Ripple>, time: real): (s: seq<Ripple>)
    ensures forall r :: r in s <==> r in store && Live(r, time)
    ensures |s| <= |store|
    ensures s == store <==> forall r :: r in store ==> Live(r, time)
    decreases |store|
  {
    if |store| == 0 then []
    else if Live(store[0], time) then [store[0]] + Prune(store[1..], time)
    else Prune(store[1..], time)
  }

  /** Pruning a concatenation prunes each part: the survivors keep their
      relative order. */
  lemma {:induction false} PruneConcat(a: seq<Ripple>, b: seq<Ripple>, time: real)
    ensures Prune(a + b, time) == Prune(a, time) + Prune(b, time)
    decreases |a|
  {
    if |a| > 0 {
      assert (a + b)[0] == a[0];
      assert (a + b)[1..] == a[1..] + b;
      PruneConcat(a[1..], b, time);
    } else {
      assert a + b == b;
    }
  }

  /** Pruning a single ripple keeps it exactly when it is live. */
  lemma PruneSingle(r: Ripple, time: real)
    ensures Prune([r], time) == if Live(r, time) then [r] else []
  {
    assert [r][1..] == [];
  }

  /** Pruning twice at the same time is pruning once. */
  lemma PruneIdempotent(store: seq<Ripple>, time: real)
    ensures Prune(Prune(store, time), time) == Prune(store, time)
  {
    var s := Prune(store, time);
    assert forall r :: r in s ==> Live(r, time);
  }

  /** A later frame discards whatever an earlier frame discarded: pruning at
      `t1` and then at a later `t2` is pruning at `t2`. */
  lemma {:induction false} PruneLater(store: seq<Ripple>, t1: real, t2: real)
    requires t1 <= t2
    ensures Prune(Prune(store, t1), t2) == Prune(store, t2)
    decreases |store|
  {
    if |store| > 0 {
      PruneLater(store[1..], t1, t2);
      if Live(store[0], t1) {
        PruneConcat([store[0]], Prune(store[1..], t1), t2);
        PruneSingle(store[0], t2);
      }
    }
  }

  /** A ripple created at `t0` is gone from the store after any frame at or
      after `t0 + Ttl`. */
  lemma ExpiredRippleRemoved(store: seq<Ripple>, r: Ripple, time: real)
    requires r.startTime + Ttl <= time
    ensures r !in Prune(store, time)
  {
  }
}
