/** Ring replication: the wiring that createCluster computes, and the delivery it gives when
    every link is FIFO. Site i of the machine below is site i + 1 of the cluster. */
module Ring {

  // ---- wiring -------------------------------------------------------------------------

  function Prev(n: nat, i: nat): nat
    requires i < n
  {
    if i == 0 then n - 1 else i - 1
  }

  function Succ(n: nat, i: nat): nat
    requires i < n
  {
    if i == n - 1 then 0 else i + 1
  }

  /** What a site publishes: only the rows it wrote, or all rows but those of one site. */
  datatype Publication = OnlyOwn | AllBut(site: int)

  /** Site id subscribes to the publication of another site: to its predecessor's in a ring. */
  ghost predicate Wired(n: nat, ring: bool, id: int, other: int) {
    && 1 <= id <= n && 1 <= other <= n && id != other
    && (ring ==> other - 1 == Prev(n, id - 1))
  }

  /** What site id publishes: in a ring, all but its successor's rows. */
  ghost function Published(n: nat, ring: bool, id: int): Publication
    requires 1 <= id <= n
  {
    if ring && n >= 2 then AllBut(Succ(n, id - 1) + 1) else OnlyOwn
  }

  lemma ReplicateIsWired(n: nat, id: int, other: int)
    requires 1 <= id <= n && 1 <= other <= n && id != other
    ensures !((other != n && other != id - 1) || (other == n && id != 1)) <==> Wired(n, true, id, other)
  {
  }

  lemma NextIdIsSucc(n: nat, id: int)
    requires 1 <= id <= n
    ensures (if (id + 1) % (n + 1) == 0 then 1 else (id + 1) % (n + 1)) == Succ(n, id - 1) + 1
  {
    if id == n { assert (id + 1) % (n + 1) == 0; }
  }

  /** Who subscribes to whom and what each site publishes, sites numbered from 1. */
  class Cluster {
    var subscriptions: set<(int, int)>
    var publications: seq<Publication>

    /** `initSite` on every site. */
    constructor (sites: nat)
      ensures subscriptions == {} && publications == seq(sites, _ => OnlyOwn)
    {
      subscriptions, publications := {}, seq(sites, _ => OnlyOwn);
    }

    /** The inner loop: site id is connected to every other site. */
    method ConnectSite(n: nat, ring: bool, id: int)
      requires 1 <= id <= n == |publications|
      requires forall y :: (id, y) !in subscriptions
      requires n < 2 ==> publications[id - 1] == OnlyOwn
      requires !ring ==> publications[id - 1] == OnlyOwn
      modifies this
      ensures forall x, y :: (x, y) in subscriptions <==>
                (x, y) in old(subscriptions) || (x == id && Wired(n, ring, id, y))
      ensures publications == old(publications)[id - 1 := Published(n, ring, id)]
    {
      NextIdIsSucc(n, id);
      ghost var others := false;
      for otherId := 1 to n + 1
        invariant |publications| == n
        invariant forall x, y :: (x, y) in subscriptions <==>
                    (x, y) in old(subscriptions) || (x == id && y < otherId && Wired(n, ring, id, y))
        invariant others <==> otherId > 2 || (otherId == 2 && id != 1)
        invariant publications == old(publications)[id - 1 :=
                    if others then Published(n, ring, id) else old(publications)[id - 1]]
      {
        if id != otherId {
          ReplicateIsWired(n, id, otherId);
          var replicate := !(ring && ((otherId != n && otherId != id - 1) || (otherId == n && id != 1)));
          if replicate {
            subscriptions := subscriptions + {(id, otherId)};
          }
          if ring {
            var nextId := (id + 1) % (n + 1);
            if nextId == 0 {
              nextId := 1;
            }
            publications := publications[id - 1 := AllBut(nextId)];
          }
          others := true;
        }
      }
    }

    /** In a ring every site subscribes to its predecessor only and publishes everything but
        its successor's rows; otherwise every site subscribes to all others. */
    method ConnectSites(n: nat, ring: bool)
      requires subscriptions == {} && publications == seq(n, _ => OnlyOwn)
      modifies this
      ensures forall x, y :: (x, y) in subscriptions <==> Wired(n, ring, x, y)
      ensures |publications| == n && forall id :: 1 <= id <= n ==> publications[id - 1] == Published(n, ring, id)
    {
      for id := 1 to n + 1
        invariant forall x, y :: (x, y) in subscriptions <==> x < id && Wired(n, ring, x, y)
        invariant |publications| == n
        invariant forall i :: 0 <= i < n ==>
                    publications[i] == if i + 1 < id then Published(n, ring, i + 1) else OnlyOwn
      {
        ConnectSite(n, ring, id);
      }
    }
  }
}
