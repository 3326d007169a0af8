/** The VLAN tag table of the Open vSwitch plugin: a fixed pool of tags, each
    free or held by one network. */
module VlanMaps {
  import opened Results

  /** A network is known by the string form of its UUID. */
  type NetId = string

  /** The pool is the half-open range [LOW, HIGH) of 802.1Q tags. */
  const LOW: int := 2
  const HIGH: int := 4094

  predicate InRange(t: int) {
    LOW <= t < HIGH
  }

  datatype Error =
    | NoFreeVlans          // acquire on an exhausted pool
    | NoSuchVlan(tag: int) // lookup of a tag that has no slot (a KeyError)

  /** The tag table: each key is a tag; `None` marks it free, `Some(n)` says
      network `n` holds it. */
  datatype VlanMap = VlanMap(vlans: map<int, Option<NetId>>)

  /** Every tag of the range has a slot. The constructor establishes this and
      no operation removes a key, so it holds of every table the plugin owns. */
  ghost predicate WellFormed(m: VlanMap) {
    forall t :: InRange(t) ==> t in m.vlans
  }

  /** The table has a slot for exactly the tags of the range. */
  ghost predicate Exact(m: VlanMap) {
    forall t :: t in m.vlans <==> InRange(t)
  }

  /** No network holds two tags. */
  predicate Injective(m: VlanMap) {
    forall a, b :: a in m.vlans && b in m.vlans && a != b && m.vlans[a].Some? ==> m.vlans[a] != m.vlans[b]
  }

  /** Network `n` holds no tag. */
  predicate HoldsNone(m: VlanMap, n: NetId) {
    forall t :: t in m.vlans ==> m.vlans[t] != Some(n)
  }

  /** Network `n` holds at most one tag. */
  predicate HoldsAtMostOne(m: VlanMap, n: NetId) {
    forall a, b :: a in m.vlans && b in m.vlans && m.vlans[a] == Some(n) && m.vlans[b] == Some(n) ==> a == b
  }

  /** Every tag of the range is held. */
  ghost predicate Full(m: VlanMap)
    requires WellFormed(m)
  {
    forall t :: InRange(t) ==> m.vlans[t].Some?
  }

  /** The tags of the pool. */
  function AllTags(): (s: seq<int>)
    ensures forall t :: t in s <==> InRange(t)
  {
    var s := seq(HIGH - LOW, i => LOW + i);
    assert forall t :: InRange(t) ==> s[t - LOW] == t;
    s
  }

  /** A fresh table: every tag of the range is free and there is no other key. */
  function Init(): (m: VlanMap)
    ensures Exact(m) && WellFormed(m)
    ensures forall t :: t in m.vlans ==> m.vlans[t] == None
    ensures Injective(m)
  {
    VlanMap(map t | t in AllTags() :: None)
  }

  /** Unconditionally records that network `n` holds tag `t`. As in
      `VlanMap.set` there is no range check: an out-of-range tag gets a slot of
      its own. */
  function Set(m: VlanMap, t: int, n: NetId): (r: VlanMap)
    ensures r.vlans.Keys == m.vlans.Keys + {t}
    ensures t in r.vlans && r.vlans[t] == Some(n)
    ensures forall u :: u in m.vlans && u != t ==> r.vlans[u] == m.vlans[u]
    ensures WellFormed(m) ==> WellFormed(r)
    ensures Exact(m) ==> (Exact(r) <==> InRange(t))
  {
    VlanMap(m.vlans[t := Some(n)])
  }

  /** The holder of tag `t`; a tag without a slot is an error. */
  function Get(m: VlanMap, t: int): (r: Result<Option<NetId>, Error>)
    ensures WellFormed(m) && InRange(t) ==> r.Ok?
    ensures r.Err? ==> r.error == NoSuchVlan(t)
    ensures t !in m.vlans ==> r == Err(NoSuchVlan(t))
    ensures Exact(m) && !InRange(t) ==> r.Err?
  {
    if t in m.vlans then Ok(m.vlans[t]) else Err(NoSuchVlan(t))
  }

  /** The upward scan of `acquire`, starting at tag `from`: the lowest free
      tag in [from, HIGH), if any. */
  function FirstFree(m: VlanMap, from: int): (r: Option<int>)
    requires WellFormed(m)
    requires LOW <= from <= HIGH
    ensures r.Some? ==> from <= r.value < HIGH && m.vlans[r.value].None?
    ensures r.Some? ==> forall u :: from <= u < r.value ==> m.vlans[u].Some?
    ensures r.None? ==> forall u :: from <= u < HIGH ==> m.vlans[u].Some?
    decreases HIGH - from
  {
    if from == HIGH then None
    else if m.vlans[from].None? then Some(from)
    else FirstFree(m, from + 1)
  }

  /** A successful acquire: the tag handed out and the updated table. */
  datatype Acquired = Acquired(tag: int, after: VlanMap)

  /** Takes the lowest free tag for network `n`, or fails when the pool is
      exhausted. */
  function Acquire(m: VlanMap, n: NetId): (r: Result<Acquired, Error>)
    requires WellFormed(m)
    ensures r.Err? <==> Full(m)
    ensures r.Err? ==> r.error == NoFreeVlans
    ensures r.Ok? ==> InRange(r.value.tag) && m.vlans[r.value.tag] == None
    ensures r.Ok? ==> forall u :: LOW <= u < r.value.tag ==> m.vlans[u].Some?
    ensures r.Ok? ==> Get(r.value.after, r.value.tag) == Ok(Some(n))
    ensures r.Ok? ==> r.value.after.vlans.Keys == m.vlans.Keys
    ensures r.Ok? ==> forall u :: u in m.vlans && u != r.value.tag ==> r.value.after.vlans[u] == m.vlans[u]
  {
    match FirstFree(m, LOW)
    case None => Err(NoFreeVlans)
    case Some(t) => Ok(Acquired(t, Set(m, t, n)))
  }

  /** `order` lists the keys of the table: the order in which the dictionary
      yields its keys, which the language leaves unspecified. */
  predicate ListsKeys(m: VlanMap, order: seq<int>) {
    && (forall i :: 0 <= i < |order| ==> order[i] in m.vlans)
    && (forall t :: t in m.vlans ==> t in order)
  }

  /** The scan of `release` from position `from` of `order`: the first
      position whose tag network `n` holds. */
  function FirstHolder(m: VlanMap, n: NetId, order: seq<int>, from: nat): (r: Option<nat>)
    requires forall i :: 0 <= i < |order| ==> order[i] in m.vlans
    requires from <= |order|
    ensures r.Some? ==> from <= r.value < |order| && m.vlans[order[r.value]] == Some(n)
    ensures r.Some? ==> forall j :: from <= j < r.value ==> m.vlans[order[j]] != Some(n)
    ensures r.None? ==> forall j :: from <= j < |order| ==> m.vlans[order[j]] != Some(n)
    decreases |order| - from
  {
    if from == |order| then None
    else if m.vlans[order[from]] == Some(n) then Some(from)
    else FirstHolder(m, n, order, from + 1)
  }

  /** The outcome of a release: the updated table and the tag it freed;
      `None` is the case `VlanMap.release` only logs. */
  datatype Released = Released(after: VlanMap, freed: Option<int>)

  /** Frees the first tag, in key order, that network `n` holds; when `n`
      holds none, changes nothing and does not fail. */
  function Release(m: VlanMap, n: NetId, order: seq<int>): (r: Released)
    requires ListsKeys(m, order)
    ensures r.after.vlans.Keys == m.vlans.Keys
    ensures r.freed.None? <==> HoldsNone(m, n)
    ensures r.freed.None? ==> r.after == m
    ensures r.freed.Some? ==> r.freed.value in m.vlans && m.vlans[r.freed.value] == Some(n)
    ensures r.freed.Some? ==> r.after.vlans[r.freed.value] == None
    ensures r.freed.Some? ==> forall u :: u in m.vlans && u != r.freed.value ==> r.after.vlans[u] == m.vlans[u]
    ensures r.freed.Some? ==> exists i :: 0 <= i < |order| && order[i] == r.freed.value &&
                                          forall j :: 0 <= j < i ==> m.vlans[order[j]] != Some(n)
  {
    var k := FirstHolder(m, n, order, 0);
    if k.None? then Released(m, None)
    else
      var i := k.value;
      var t := order[i];
      assert t in m.vlans && m.vlans[t] == Some(n);
      assert !HoldsNone(m, n);
      Released(VlanMap(m.vlans[t := None]), Some(t))
  }

  /** Setting a tag and reading it back yields the network that was set, and
      no other tag reads differently. */
  lemma SetThenGet(m: VlanMap, t: int, n: NetId, u: int)
    ensures Get(Set(m, t, n), t) == Ok(Some(n))
    ensures u != t ==> Get(Set(m, t, n), u) == Get(m, u)
  {
  }

  /** Acquiring for a network that holds no tag keeps the table injective,
      and afterwards the network holds at most one tag. */
  lemma AcquirePreservesInjective(m: VlanMap, n: NetId)
    requires WellFormed(m) && Injective(m) && HoldsNone(m, n)
    ensures Acquire(m, n).Ok? ==> Injective(Acquire(m, n).value.after)
    ensures Acquire(m, n).Ok? ==> HoldsAtMostOne(Acquire(m, n).value.after, n)
  {
  }

  /** Releasing keeps the table injective; when the network held at most one
      tag, it holds none afterwards and that tag reads as free. */
  lemma ReleaseEmptiesHolder(m: VlanMap, n: NetId, order: seq<int>)
    requires ListsKeys(m, order)
    requires HoldsAtMostOne(m, n)
    ensures HoldsNone(Release(m, n, order).after, n)
    ensures Injective(m) ==> Injective(Release(m, n, order).after)
    ensures Release(m, n, order).freed.Some? ==>
              Get(Release(m, n, order).after, Release(m, n, order).freed.value) == Ok(None)
  {
  }

  /** Release undoes acquire: acquiring a tag for a network that holds none
      and releasing that network restores the original table, reporting the
      acquired tag as the one freed. */
  lemma ReleaseUndoesAcquire(m: VlanMap, n: NetId, order: seq<int>)
    requires WellFormed(m) && HoldsNone(m, n)
    requires Acquire(m, n).Ok?
    requires ListsKeys(Acquire(m, n).value.after, order)
    ensures Release(Acquire(m, n).value.after, n, order) == Released(m, Some(Acquire(m, n).value.tag))
  {
  }

  /** On a full table with a slot for exactly the range tags, acquire fails;
      releasing a network that holds a tag then lets the next acquire succeed
      with exactly that tag. */
  lemma AcquireAfterReleaseOnFullPool(m: VlanMap, n: NetId, k: NetId, order: seq<int>)
    requires Exact(m) && Full(m)
    requires ListsKeys(m, order)
    requires !HoldsNone(m, n)
    ensures Acquire(m, k).Err?
    ensures WellFormed(Release(m, n, order).after)
    ensures Acquire(Release(m, n, order).after, k).Ok?
    ensures Acquire(Release(m, n, order).after, k).value.tag == Release(m, n, order).freed.value
  {
  }

  /** A concrete run from a fresh table: A, B and C take tags 2, 3 and 4; once
      B releases its tag, D is given 3, the lowest free tag, and A and C keep
      theirs. */
  lemma LowestFreeTagIsReused(order: seq<int>)
    requires ListsKeys(Init(), order)
    ensures
      var a := Acquire(Init(), "A").value;
      var b := Acquire(a.after, "B").value;
      var c := Acquire(b.after, "C").value;
      var r := Release(c.after, "B", order);
      var d := Acquire(r.after, "D").value;
      && a.tag == 2 && b.tag == 3 && c.tag == 4
      && r.freed == Some(3)
      && d.tag == 3
      && Get(d.after, 2) == Ok(Some("A")) && Get(d.after, 4) == Ok(Some("C"))
  {
  }
}
