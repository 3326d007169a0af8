# VLAN tag allocator of the Open vSwitch Quantum plugin

This is a Dafny model of the VLAN tag allocator in the Open vSwitch plugin of Quantum (`VlanMap`), and of the plugin code that drives it. The plugin gives each virtual network an 802.1Q tag from a fixed pool, the half-open range [2, 4094). It keeps a table from tag to the network holding the tag, or to "free". The model covers:

- `VlanMaps` (`vlan_map.dfy`): the table and its five operations. `__init__` becomes `Init`, `set` becomes `Set`, `acquire` becomes `Acquire` (with its upward scan `FirstFree`), `get` becomes `Get`, and `release` becomes `Release` (with its key scan `FirstHolder`).
- `OvsPlugin` (`ovs_plugin.dfy`): the start-up replay of persisted bindings (`Replay`, `Bootstrap`), and the parts of `create_network` and `delete_network` that touch the table (`CreateNetwork`, `DeleteNetwork`). It also defines the lockstep invariant `Consistent`, which relates the in-memory table, the persisted bindings and the existing networks.
- `Results` (`results.dfy`): `Option` (`None` is the free marker) and `Result`, which stands in for Python's exceptions.

Every operation is a pure function on an immutable value. The class-level dictionary shared by all instances is modelled as one explicit `VlanMap` value. The database is represented by what it holds: a map from tag to network id for the binding table, and a set of network ids for the network table. The outcomes of database calls are parameters. `CreateNetwork` takes `created: Option<NetId>`, which is either the fresh id from `db.network_create` or `None` when that call raised.

Modelling choices:

- `set` has no range check, so an out-of-range tag simply adds a key. `Set` does the same: its contract says the key set grows by the tag, and that an exact table stays exact only when the tag is in range.
- `get` on a tag without a slot raises `KeyError` in Python. `Get` returns `Err(NoSuchVlan(t))` in that case.
- `release` iterates the dictionary's keys in an order Python leaves unspecified. `Release` takes that order as a parameter `order`, which must list exactly the keys (`ListsKeys`). It frees the first tag in that order that the network holds. The tag it reports freed is `None` in the case the source only logs.
- `acquire` indexes every slot of the range, so it relies on the object invariant that every range tag has a slot (`WellFormed`). `Init` establishes that invariant and every operation keeps it.

## Model

| member | source | states |
|---|---|---|
| VlanMaps.Init | quantum/plugins/openvswitch/ovs_quantum_plugin.py:47-49 | a new table has a slot for exactly the tags 2..4093; every slot is free, so no network holds two tags |
| VlanMaps.Set | quantum/plugins/openvswitch/ovs_quantum_plugin.py:51-52 | afterwards the tag holds the given network and every other slot is unchanged; the only key that can be added is the tag itself, and an out-of-range tag breaks exactness |
| VlanMaps.Get | quantum/plugins/openvswitch/ovs_quantum_plugin.py:62-63 | a lookup of a range tag on a well-formed table never fails; a tag without a slot gives the missing-key error for that tag, so on an exact table every out-of-range lookup fails |
| VlanMaps.SetThenGet | quantum/plugins/openvswitch/ovs_quantum_plugin.py:51-63 | reading a tag back after setting it yields the network that was set; reads of every other tag are unaffected |
| VlanMaps.FirstFree | quantum/plugins/openvswitch/ovs_quantum_plugin.py:55-56 | the scan from a starting tag finds a free tag below 4094 with every tag between the start and it held, or it reports that every tag from the start up is held |
| VlanMaps.Acquire | quantum/plugins/openvswitch/ovs_quantum_plugin.py:54-60 | it fails, with the no-free-VLANs error, exactly when every tag of the range is held; on success the tag is in range, was free, and every lower tag was held (lowest free), the tag now reads as the network, and every other slot and the key set are unchanged |
| VlanMaps.FirstHolder | quantum/plugins/openvswitch/ovs_quantum_plugin.py:66-67 | the key scan returns the first position in key order whose tag the network holds, or reports that no listed tag is held by it |
| VlanMaps.Release | quantum/plugins/openvswitch/ovs_quantum_plugin.py:65-71 | nothing is freed exactly when the network holds no tag, and then the table is unchanged (no failure); otherwise the freed tag was held by the network and was the first such in key order, it is now free, and every other slot and the key set are unchanged |
| VlanMaps.AcquirePreservesInjective | quantum/plugins/openvswitch/ovs_quantum_plugin.py:54-59 | acquiring for a network that holds no tag keeps "no network holds two tags" true, and the network then holds at most one tag |
| VlanMaps.ReleaseEmptiesHolder | quantum/plugins/openvswitch/ovs_quantum_plugin.py:65-70 | when the network held at most one tag, it holds none after release and the freed tag reads as free; release keeps the table injective |
| VlanMaps.ReleaseUndoesAcquire | quantum/plugins/openvswitch/ovs_quantum_plugin.py:54-70 | release is the inverse of acquire: acquiring for a network without a tag and then releasing it gives back exactly the original table, and the freed tag is the acquired one |
| VlanMaps.AcquireAfterReleaseOnFullPool | quantum/plugins/openvswitch/ovs_quantum_plugin.py:54-71 | on a full table with a slot for exactly the range tags, acquire fails; releasing a network that holds a tag then lets the next acquire succeed with exactly that tag |
| VlanMaps.LowestFreeTagIsReused | quantum/plugins/openvswitch/ovs_quantum_plugin.py:54-71 | from a fresh table, A, B and C get 2, 3 and 4; after B is released, D gets 3, and 2 and 4 still read A and C |
| OvsPlugin.Replay | quantum/plugins/openvswitch/ovs_quantum_plugin.py:103-107 | replaying rows keeps a well-formed table well-formed, drops no key, and gives every listed tag a slot |
| OvsPlugin.Bootstrap | quantum/plugins/openvswitch/ovs_quantum_plugin.py:99-107 | the table after start-up is well-formed whatever rows the database lists |
| OvsPlugin.ReplayLastWins | quantum/plugins/openvswitch/ovs_quantum_plugin.py:103-107 | after replay, a tag named by some row holds the network of the last row that names it; the slot of any other tag is as it was before replay |
| OvsPlugin.BootstrapLastWins | quantum/plugins/openvswitch/ovs_quantum_plugin.py:99-107 | with duplicate tags among the rows, the last row for a tag decides its network; range tags that no row names are free |
| OvsPlugin.BootstrapDistinct | quantum/plugins/openvswitch/ovs_quantum_plugin.py:99-107 | with distinct in-range tags, each listed tag holds its network, every other range tag is free, and no other key exists |
| OvsPlugin.BootstrapRestoresConsistency | quantum/plugins/openvswitch/ovs_quantum_plugin.py:99-107 | if the rows list sound persisted bindings, start-up after a restart puts the table and the database in lockstep |
| OvsPlugin.CreateNetwork | quantum/plugins/openvswitch/ovs_quantum_plugin.py:119-131 | creation fails exactly when the network record cannot be made, and then nothing changes; otherwise the network exists afterwards; creation succeeds exactly when the record is made and a tag is free; exhaustion happens exactly when every tag is held and leaves the table and bindings alone; on success the network gets the lowest free tag, the table reads it back, every other slot and the key set are unchanged, and exactly that binding is added |
| OvsPlugin.Unbind | quantum/plugins/openvswitch/ovs_quantum_plugin.py:137 | removing the network's persisted binding keeps exactly the rows of other networks, with their values unchanged |
| OvsPlugin.DeleteNetwork | quantum/plugins/openvswitch/ovs_quantum_plugin.py:133-139 | it fails, changing nothing, exactly when the network does not exist; otherwise the network is gone, exactly its bindings are removed and the others kept, the table is unchanged when the network held no tag; otherwise the freed tag was the network's, it reads as free, and every other slot and the key set are unchanged |
| OvsPlugin.CreatePreservesConsistency | quantum/plugins/openvswitch/ovs_quantum_plugin.py:119-131 | given a fresh network id from the database, creation keeps the table and the database in lockstep on every outcome |
| OvsPlugin.ExhaustionLeavesOrphanNetwork | quantum/plugins/openvswitch/ovs_quantum_plugin.py:122-129 | on a full pool the network record made before the acquire stays behind, with no tag and no binding |
| OvsPlugin.DeletePreservesConsistency | quantum/plugins/openvswitch/ovs_quantum_plugin.py:133-139 | deletion keeps the table and the database in lockstep |
| OvsPlugin.DeleteUndoesCreate | quantum/plugins/openvswitch/ovs_quantum_plugin.py:119-139 | deleting a network just created restores the table, the bindings and the networks exactly, and reports the acquired tag as freed |

## Left out

- Configuration-file discovery and parsing, and the database connection string (`find_config`, and lines 76-97 of the plugin constructor), because they are file-system and database set-up I/O.
- The persistence layer (`quantum.db.api`, `ovs_db`) is not part of this model. The binding table is a map from tag to network. The network table is a set of ids. `db.network_create` is the parameter `created`. `ovs_db.get_vlans` is the `rows` argument of `Bootstrap`.
- DeleteNetwork: `db.network_destroy` is outside the model. The model assumes it raises for an unknown id, before any other step runs. `ovs_db.remove_vlan_binding` is modelled by `Unbind` as deleting every row of the network.
- CreateNetwork and DeleteNetwork assume that `ovs_db.add_vlan_binding` and `ovs_db.remove_vlan_binding` succeed. If `add_vlan_binding` raises after `acquire` has taken the tag, or `remove_vlan_binding` raises so that `release` never runs, the table and the database disagree while the process keeps running. A crash between the two steps causes the same mismatch. Neither case is modelled step by step. Recovery at the next start-up is covered by `BootstrapRestoresConsistency`: start-up rebuilds the table from the persisted bindings alone.
- The network name, the tenant id and the reply dictionaries of `create_network` and `delete_network` are left out, because they never reach the allocator.
- Network listing, port operations, network rename, get-details and plug/unplug (lines 109-117 and 141-208), because they are database pass-throughs that never touch the allocator.
- Logging is not modelled. The "no VLAN found" log line of `release` is the `freed == None` outcome.
- The class-level dictionary shared by all `VlanMap` instances is left out, because the plugin builds one instance. A second construction would reset the shared slots, which the model does not represent.
- Concurrency is left out. The source has no locking, and the model treats each call as atomic.
- quantum/plugins/cisco/db/l2network_db.py is not part of this model. It is SQLAlchemy session CRUD for a different plugin, and some of its functions refer to undefined names.
- The Alembic migration `10cd28e692e9_nuage_extraroute.py` is left out, because it is schema DDL with no behaviour to state.
