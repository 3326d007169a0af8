/** The parts of the Open vSwitch plugin that drive the VLAN tag table: the
    replay of persisted bindings at start-up, and network creation and
    deletion. The database is represented by its contents: the table of
    persisted (tag, network) bindings and the set of existing networks. */
module OvsPlugin {
  import opened Results
  import opened VlanMaps

  /** A persisted binding as the database lists it: (tag, network). */
  type Row = (int, NetId)

  /** Replays `rows` through `Set`, first to last, as the start-up loop does. */
  function Replay(m: VlanMap, rows: seq<Row>): (r: VlanMap)
    ensures WellFormed(m) ==> WellFormed(r)
    ensures m.vlans.Keys <= r.vlans.Keys
    ensures forall i :: 0 <= i < |rows| ==> rows[i].0 in r.vlans
    decreases |rows|
  {
    if |rows| == 0 then m
    else Replay(Set(m, rows[0].0, rows[0].1), rows[1..])
  }

  /** The table the plugin holds after start-up, given the rows the database
      lists. */
  function Bootstrap(rows: seq<Row>): (r: VlanMap)
    ensures WellFormed(r)
  {
    Replay(Init(), rows)
  }

  /** Reference definition: the network of the last row that names tag `t`. */
  function LastBinding(rows: seq<Row>, t: int): (r: Option<NetId>)
    decreases |rows|
  {
    if |rows| == 0 then None
    else if rows[|rows| - 1].0 == t then Some(rows[|rows| - 1].1)
    else LastBinding(rows[..|rows| - 1], t)
  }

  /** Peeling the first row off: a later row for `t` takes precedence over
      the first. */
  lemma {:induction false} LastBindingFront(rows: seq<Row>, t: int)
    requires |rows| > 0
    ensures LastBinding(rows, t) ==
              if LastBinding(rows[1..], t).Some? then LastBinding(rows[1..], t)
              else if rows[0].0 == t then Some(rows[0].1)
              else None
    decreases |rows|
  {
    if |rows| > 1 {
      var last := |rows| - 1;
      assert rows[1..][..|rows[1..]| - 1] == rows[..last][1..];
      if rows[last].0 != t {
        LastBindingFront(rows[..last], t);
      }
    }
  }

  /** The last row naming tag `t` is the one `LastBinding` reports; a tag no
      row names has no binding. */
  lemma {:induction false} LastBindingIsLastRow(rows: seq<Row>, t: int)
    ensures (forall i :: 0 <= i < |rows| ==> rows[i].0 != t) <==> LastBinding(rows, t).None?
    ensures forall i :: 0 <= i < |rows| && rows[i].0 == t && (forall j :: i < j < |rows| ==> rows[j].0 != t) ==>
              LastBinding(rows, t) == Some(rows[i].1)
    ensures LastBinding(rows, t).Some? ==> (t, LastBinding(rows, t).value) in rows
    decreases |rows|
  {
    if |rows| > 0 {
      var last := |rows| - 1;
      LastBindingIsLastRow(rows[..last], t);
      assert forall i :: 0 <= i < last ==> rows[..last][i] == rows[i];
    }
  }

  /** Replay is last-write-wins per tag: a tag named by some row holds the
      network of the last such row, and every other slot is as before. */
  lemma {:induction false} ReplayLastWins(m: VlanMap, rows: seq<Row>, t: int)
    ensures LastBinding(rows, t).Some? ==>
              t in Replay(m, rows).vlans && Replay(m, rows).vlans[t] == LastBinding(rows, t)
    ensures LastBinding(rows, t).None? ==>
              (t in Replay(m, rows).vlans <==> t in m.vlans)
    ensures LastBinding(rows, t).None? && t in m.vlans ==>
              Replay(m, rows).vlans[t] == m.vlans[t]
    decreases |rows|
  {
    if |rows| > 0 {
      ReplayLastWins(Set(m, rows[0].0, rows[0].1), rows[1..], t);
      LastBindingFront(rows, t);
    }
  }

  /** Start-up with duplicate tags among the rows: the last row for a tag
      wins; tags of the range that no row names are free. */
  lemma BootstrapLastWins(rows: seq<Row>, i: int, t: int)
    requires 0 <= i < |rows|
    requires forall j :: i < j < |rows| ==> rows[j].0 != rows[i].0
    ensures Bootstrap(rows).vlans[rows[i].0] == Some(rows[i].1)
    ensures InRange(t) && (forall j :: 0 <= j < |rows| ==> rows[j].0 != t) ==> Bootstrap(rows).vlans[t] == None
  {
    ReplayLastWins(Init(), rows, rows[i].0);
    LastBindingIsLastRow(rows, rows[i].0);
    ReplayLastWins(Init(), rows, t);
    LastBindingIsLastRow(rows, t);
  }

  /** Start-up with distinct in-range tags: each listed tag holds its
      network, every other tag of the range is free, and there is no other
      slot. */
  lemma BootstrapDistinct(rows: seq<Row>)
    requires forall i :: 0 <= i < |rows| ==> InRange(rows[i].0)
    requires forall i, j :: 0 <= i < j < |rows| ==> rows[i].0 != rows[j].0
    ensures Exact(Bootstrap(rows))
    ensures forall i :: 0 <= i < |rows| ==> Bootstrap(rows).vlans[rows[i].0] == Some(rows[i].1)
    ensures forall t :: InRange(t) && (forall i :: 0 <= i < |rows| ==> rows[i].0 != t) ==> Bootstrap(rows).vlans[t] == None
  {
    var m := Bootstrap(rows);
    forall i | 0 <= i < |rows|
      ensures m.vlans[rows[i].0] == Some(rows[i].1)
    {
      BootstrapLastWins(rows, i, rows[i].0);
    }
    forall t | InRange(t) && (forall i :: 0 <= i < |rows| ==> rows[i].0 != t)
      ensures m.vlans[t] == None
    {
      ReplayLastWins(Init(), rows, t);
      LastBindingIsLastRow(rows, t);
    }
    forall t | t in m.vlans
      ensures InRange(t)
    {
      ReplayLastWins(Init(), rows, t);
      LastBindingIsLastRow(rows, t);
    }
  }

  /** What the plugin and its database hold together: the in-memory tag
      table, the persisted bindings keyed by tag, and the existing networks. */
  datatype State = State(vmap: VlanMap, bindings: map<int, NetId>, networks: set<NetId>)

  /** The slot a binding table implies for tag `t`. */
  function Bound(bindings: map<int, NetId>, t: int): (r: Option<NetId>) {
    if t in bindings then Some(bindings[t]) else None
  }

  /** The table and the persisted bindings are in lockstep: the table has a
      slot for exactly the tags of the range, each slot mirrors the binding
      of its tag, no network holds two tags, and every bound network exists. */
  ghost predicate Consistent(s: State) {
    && Exact(s.vmap)
    && (forall t :: t in s.bindings ==> InRange(t))
    && (forall t :: t in s.vmap.vlans ==> s.vmap.vlans[t] == Bound(s.bindings, t))
    && Injective(s.vmap)
    && (forall t :: t in s.bindings ==> s.bindings[t] in s.networks)
  }

  /** `rows` lists the bindings of `bindings`, each at least once. */
  ghost predicate ListsBindings(rows: seq<Row>, bindings: map<int, NetId>) {
    && (forall i :: 0 <= i < |rows| ==> rows[i].0 in bindings && bindings[rows[i].0] == rows[i].1)
    && (forall t :: t in bindings ==> exists i :: 0 <= i < |rows| && rows[i].0 == t)
  }

  /** One slot after start-up: when the rows list the persisted bindings,
      the slot of tag `t` mirrors its binding. */
  lemma BootstrapSlot(rows: seq<Row>, bindings: map<int, NetId>, t: int)
    requires ListsBindings(rows, bindings)
    requires forall u :: u in bindings ==> InRange(u)
    ensures t in Bootstrap(rows).vlans <==> InRange(t)
    ensures t in Bootstrap(rows).vlans ==> Bootstrap(rows).vlans[t] == Bound(bindings, t)
  {
    ReplayLastWins(Init(), rows, t);
    LastBindingIsLastRow(rows, t);
    var last := LastBinding(rows, t);
    if last.Some? {
      var i :| 0 <= i < |rows| && rows[i] == (t, last.value);
      assert rows[i].0 in bindings && bindings[rows[i].0] == rows[i].1;
    }
  }

  /** Crash recovery: after a restart, replaying the persisted bindings
      puts table and database in lockstep, provided the persisted bindings
      are themselves sound. */
  lemma BootstrapRestoresConsistency(rows: seq<Row>, bindings: map<int, NetId>, networks: set<NetId>)
    requires ListsBindings(rows, bindings)
    requires forall t :: t in bindings ==> InRange(t) && bindings[t] in networks
    requires forall a, b :: a in bindings && b in bindings && a != b ==> bindings[a] != bindings[b]
    ensures Consistent(State(Bootstrap(rows), bindings, networks))
  {
    var m := Bootstrap(rows);
    forall t
      ensures t in m.vlans <==> InRange(t)
      ensures t in m.vlans ==> m.vlans[t] == Bound(bindings, t)
    {
      BootstrapSlot(rows, bindings, t);
    }
  }

  /** What `create_network` reports. */
  datatype CreateOutcome =
    | Created(net: NetId, tag: int) // the network and the tag it was given
    | CreateFailed                  // the network record could not be made; nothing else happens
    | Exhausted                     // no free tag; the error propagates to the caller

  /** `create_network`. `created` is the outcome of creating the network
      record: its fresh id, or `None` when the database refused. The record
      is made before a tag is acquired, so on an exhausted pool the network
      exists without a tag. */
  function CreateNetwork(s: State, created: Option<NetId>): (r: (State, CreateOutcome))
    requires WellFormed(s.vmap)
    ensures created.None? ==> r.0 == s
    ensures r.1 == CreateFailed <==> created.None?
    ensures r.1.Created? <==> created.Some? && !Full(s.vmap)
    ensures r.1 == Exhausted <==> created.Some? && Full(s.vmap)
    ensures created.Some? ==> r.0.networks == s.networks + {created.value}
    ensures r.1 == Exhausted ==> r.0.vmap == s.vmap && r.0.bindings == s.bindings
    ensures r.1.Created? ==> created == Some(r.1.net) && InRange(r.1.tag)
    ensures r.1.Created? ==> s.vmap.vlans[r.1.tag] == None
    ensures r.1.Created? ==> forall u :: LOW <= u < r.1.tag ==> s.vmap.vlans[u].Some?
    ensures r.1.Created? ==> Get(r.0.vmap, r.1.tag) == Ok(Some(r.1.net))
    ensures r.1.Created? ==> r.0.bindings == s.bindings[r.1.tag := r.1.net]
    ensures r.1.Created? ==> r.0.vmap.vlans.Keys == s.vmap.vlans.Keys
    ensures r.1.Created? ==> forall u :: u in s.vmap.vlans && u != r.1.tag ==> r.0.vmap.vlans[u] == s.vmap.vlans[u]
  {
    match created
    case None => (s, CreateFailed)
    case Some(n) =>
      var networks := s.networks + {n};
      match Acquire(s.vmap, n)
      case Err(_) => (s.(networks := networks), Exhausted)
      case Ok(a) => (State(a.after, s.bindings[a.tag := n], networks), Created(n, a.tag))
  }

  /** What `delete_network` reports. */
  datatype DeleteOutcome =
    | Deleted(freed: Option<int>) // the tag released, or `None` where `VlanMap.release` only logs
    | NoSuchNetwork               // destroying the network record failed; nothing else happens

  /** The persisted bindings less every row of network `n`. */
  function Unbind(bindings: map<int, NetId>, n: NetId): (r: map<int, NetId>)
    ensures forall t :: t in r <==> t in bindings && bindings[t] != n
    ensures forall t :: t in r ==> r[t] == bindings[t]
  {
    map t | t in bindings && bindings[t] != n :: bindings[t]
  }

  /** `delete_network`: destroys the network record, removes its persisted
      binding, then releases its tag. `order` is the key order the release
      scan follows. */
  function DeleteNetwork(s: State, n: NetId, order: seq<int>): (r: (State, DeleteOutcome))
    requires ListsKeys(s.vmap, order)
    ensures r.1 == NoSuchNetwork <==> n !in s.networks
    ensures r.1 == NoSuchNetwork ==> r.0 == s
    ensures r.1.Deleted? ==> r.0.networks == s.networks - {n}
    ensures r.1.Deleted? ==> forall t :: t in r.0.bindings <==> t in s.bindings && s.bindings[t] != n
    ensures r.1.Deleted? ==> forall t :: t in r.0.bindings ==> r.0.bindings[t] == s.bindings[t]
    ensures r.1.Deleted? ==> r.0.vmap.vlans.Keys == s.vmap.vlans.Keys
    ensures r.1.Deleted? ==> (r.1.freed.None? <==> HoldsNone(s.vmap, n))
    ensures r.1.Deleted? && r.1.freed.None? ==> r.0.vmap == s.vmap
    ensures r.1.Deleted? && r.1.freed.Some? ==> Get(r.0.vmap, r.1.freed.value) == Ok(None)
    ensures r.1.Deleted? && r.1.freed.Some? ==> r.1.freed.value in s.vmap.vlans && s.vmap.vlans[r.1.freed.value] == Some(n)
    ensures r.1.Deleted? && r.1.freed.Some? ==>
              forall u :: u in s.vmap.vlans && u != r.1.freed.value ==> r.0.vmap.vlans[u] == s.vmap.vlans[u]
  {
    if n !in s.networks then (s, NoSuchNetwork)
    else
      var rel := Release(s.vmap, n, order);
      (State(rel.after, Unbind(s.bindings, n), s.networks - {n}), Deleted(rel.freed))
  }

  /** A consistent network with a fresh id holds no tag. */
  lemma FreshNetworkHoldsNone(s: State, n: NetId)
    requires Consistent(s) && n !in s.networks
    ensures HoldsNone(s.vmap, n)
  {
  }

  /** `create_network` keeps table and database in lockstep, on every
      outcome, provided the database hands out a fresh network id. */
  lemma CreatePreservesConsistency(s: State, created: Option<NetId>)
    requires Consistent(s)
    requires created.Some? ==> created.value !in s.networks
    ensures Consistent(CreateNetwork(s, created).0)
  {
  }

  /** On an exhausted pool the new network record is left behind without a
      tag or a binding: the orphan `create_network` does not clean up. */
  lemma ExhaustionLeavesOrphanNetwork(s: State, n: NetId)
    requires Consistent(s) && n !in s.networks
    requires Full(s.vmap)
    ensures CreateNetwork(s, Some(n)).1 == Exhausted
    ensures n in CreateNetwork(s, Some(n)).0.networks
    ensures HoldsNone(CreateNetwork(s, Some(n)).0.vmap, n)
    ensures forall t :: t in CreateNetwork(s, Some(n)).0.bindings ==> CreateNetwork(s, Some(n)).0.bindings[t] != n
  {
  }

  /** `delete_network` keeps table and database in lockstep. */
  lemma DeletePreservesConsistency(s: State, n: NetId, order: seq<int>)
    requires Consistent(s)
    requires ListsKeys(s.vmap, order)
    ensures Consistent(DeleteNetwork(s, n, order).0)
  {
  }

  /** Deleting a network just created undoes the creation: table, bindings
      and networks are as before, and the freed tag is the acquired one. */
  lemma DeleteUndoesCreate(s: State, n: NetId, order: seq<int>)
    requires Consistent(s) && n !in s.networks
    requires CreateNetwork(s, Some(n)).1.Created?
    requires ListsKeys(CreateNetwork(s, Some(n)).0.vmap, order)
    ensures DeleteNetwork(CreateNetwork(s, Some(n)).0, n, order) ==
              (s, Deleted(Some(CreateNetwork(s, Some(n)).1.tag)))
  {
    var c := CreateNetwork(s, Some(n));
    FreshNetworkHoldsNone(s, n);
    ReleaseUndoesAcquire(s.vmap, n, order);
    var d := DeleteNetwork(c.0, n, order);
    assert d.0.networks == s.networks;
    assert d.0.bindings == s.bindings by {
      forall t | t in s.bindings
        ensures s.bindings[t] != n && t != c.1.tag
      {
        assert s.vmap.vlans[t] == Bound(s.bindings, t);
      }
    }
  }
}
