/**
 * The resolver's mutable state: the module-level `POOLS` registry, the
 * class-level `Pool.internal_unique` member-list registry and the
 * module-level `DATAGROUP` map, with the operations that grow them
 * (`pool_from_name`, `Pool.__init__`, `Pool._find_unique`,
 * `load_datagroup_list`).
 */
module Topology {
  import opened Wrappers
  import opened Faults
  import opened Strings
  import opened Sorting
  import opened Appliance
  import opened Registry

  /** The data groups `load_datagroup_list` keeps: named `ProxyPass_...`, in the requested partition if one is given. */
  predicate Considered(g: DataGroup, partition: Option<string>) {
    StartsWith(g.name, "ProxyPass_") && (partition.None? || g.partition == partition.value)
  }

  /** The list comprehension building `dglist`. */
  function Eligible(groups: seq<DataGroup>, partition: Option<string>): (dglist: seq<DataGroup>)
    ensures forall g | g in dglist :: g in groups && Considered(g, partition)
    ensures forall g | g in groups && Considered(g, partition) :: g in dglist
  {
    if groups == [] then []
    else if Considered(groups[0], partition) then [groups[0]] + Eligible(groups[1..], partition)
    else Eligible(groups[1..], partition)
  }

  /**
   * The comprehension keeps the order of the collection: filtering a
   * concatenation is concatenating the filtered parts, and one group is kept
   * exactly when it is considered. Order matters, since a later group
   * overwrites an earlier one's `DATAGROUP` entry.
   */
  lemma {:induction false} EligibleAppend(a: seq<DataGroup>, b: seq<DataGroup>, partition: Option<string>)
    ensures Eligible(a + b, partition) == Eligible(a, partition) + Eligible(b, partition)
    ensures |a| == 1 ==> Eligible(a, partition) == (if Considered(a[0], partition) then a else [])
  {
    if a == [] {
      assert a + b == b;
    } else {
      var head := if Considered(a[0], partition) then [a[0]] else [];
      assert (a + b)[1..] == a[1..] + b;
      assert Eligible(a + b, partition) == head + Eligible(a[1..] + b, partition);
      assert Eligible(a, partition) == head + Eligible(a[1..], partition);
      EligibleAppend(a[1..], b, partition);
      ConcatAssociative(head, Eligible(a[1..], partition), Eligible(b, partition));
      if |a| == 1 {
        assert a[1..] == [];
      }
    }
  }

  /** Concatenation is associative. */
  lemma ConcatAssociative<T>(x: seq<T>, y: seq<T>, z: seq<T>)
    ensures x + (y + z) == (x + y) + z
  {
  }

  /** `dg.name[10:]`: the group name without its ten-character `ProxyPass_` prefix. */
  function Hostname(g: DataGroup): string {
    if |g.name| >= 10 then g.name[10..] else []
  }

  /** The pools the records of data group `g` name, in the second whitespace field of their `data`. */
  function RecordPools(conf: Config, g: DataGroup, records: seq<DgRecord>): Result<set<PoolKey>, Fault>
    decreases |records|
  {
    if records == [] then Ok({})
    else
      var prev :- RecordPools(conf, g, records[..|records| - 1]);
      var rec := records[|records| - 1];
      if rec.data.None? then Err(MissingRecordData(g.name))
      else
        var fields := Fields(rec.data.value);
        if |fields| > 1 then AddResolved(prev, PoolResult(conf, fields[1], g.partition)) else Ok(prev)
  }

  /** `DATAGROUP` after the groups of `dglist` have been processed, starting from `init`. */
  function DataGroupMap(conf: Config, dglist: seq<DataGroup>, init: map<string, set<PoolKey>>): Result<map<string, set<PoolKey>>, Fault>
    decreases |dglist|
  {
    if dglist == [] then Ok(init)
    else
      var prev :- DataGroupMap(conf, dglist[..|dglist| - 1], init);
      GroupUpdate(conf, dglist[|dglist| - 1], prev)
  }

  /** The pools that processing group `g` registers: none when its host does not resolve, it has no records, or a record faults. */
  function GroupRegisters(conf: Config, g: DataGroup): set<PoolKey> {
    if Hostname(g) !in conf.dns || g.records.None? then {}
    else
      match RecordPools(conf, g, g.records.value)
      case Ok(found) => found
      case Err(_) => {}
  }

  /** The pools the groups of `dglist` register, those of groups a later group overwrites included. */
  function RegisteredBy(conf: Config, dglist: seq<DataGroup>): set<PoolKey>
    decreases |dglist|
  {
    if dglist == [] then {}
    else RegisteredBy(conf, dglist[..|dglist| - 1]) + GroupRegisters(conf, dglist[|dglist| - 1])
  }

  /**
   * One pass of `load_datagroup_list`'s outer loop: a group whose host does
   * not resolve or that has no records is skipped; otherwise its pools, when
   * there are any, replace whatever `DATAGROUP` held for the host's IP.
   */
  function GroupUpdate(conf: Config, g: DataGroup, prev: map<string, set<PoolKey>>): Result<map<string, set<PoolKey>>, Fault> {
    var host := Hostname(g);
    if host !in conf.dns || g.records.None? then Ok(prev)
    else
      var pools :- RecordPools(conf, g, g.records.value);
      Ok(if pools == {} then prev else prev[conf.dns[host] := pools])
  }

  /** Every `DATAGROUP` entry is a non-empty set of registered pools. */
  ghost predicate DataGroupValid(pools: map<PoolKey, Pool>, dataGroup: map<string, set<PoolKey>>) {
    forall ip | ip in dataGroup :: dataGroup[ip] != {} && dataGroup[ip] <= pools.Keys
  }

  class Topology {
    const conf: Config
    var partitions: set<string>
    var pools: map<PoolKey, Pool>
    var unique: map<PoolKey, seq<string>>
    var dataGroup: map<string, set<PoolKey>>

    ghost predicate Valid()
      reads this
    {
      && RegistryValid(conf, pools, unique)
      && (forall k | k in pools :: k.0 in partitions)
      && DataGroupValid(pools, dataGroup)
    }

    constructor(conf: Config)
      ensures this.conf == conf && Valid()
      ensures partitions == {} && pools == map[] && unique == map[] && dataGroup == map[]
    {
      this.conf := conf;
      partitions := {};
      pools := map[];
      unique := map[];
      dataGroup := map[];
    }

    /** `Pool._find_unique`: adopt the key of a stored equal member list, or store the list under `own`. */
    method FindUnique(members: seq<string>, own: PoolKey) returns (key: PoolKey)
      requires ListsDistinct(unique)
      modifies this
      ensures KeyChoice(old(unique), own, members, key, unique)
      ensures partitions == old(partitions) && pools == old(pools) && dataGroup == old(dataGroup)
    {
      var keys := unique.Keys;
      while keys != {}
        invariant keys <= unique.Keys
        invariant forall k | k in unique && k !in keys :: unique[k] != members
        invariant unchanged(this)
        decreases keys
      {
        var k :| k in keys;
        if unique[k] == members {
          return k;
        }
        keys := keys - {k};
      }
      unique := unique[own := members];
      key := own;
    }

    /** `Pool(partition, name)`: load the pool, read its status and sorted members, find its member-list key. */
    method NewPool(partition: string, name: string) returns (r: Result<Pool, Fault>)
      requires ListsDistinct(unique)
      modifies this
      ensures (partition, name) !in conf.pools ==> r == Err(PoolNotFound(partition, name)) && unique == old(unique)
      ensures (partition, name) in conf.pools ==>
        && r.Ok? && Faithful(conf, partition, name, r.value)
        && KeyChoice(old(unique), (partition, name), r.value.members, r.value.uniqpool, unique)
      ensures partitions == old(partitions) && pools == old(pools) && dataGroup == old(dataGroup)
    {
      if (partition, name) !in conf.pools {
        return Err(PoolNotFound(partition, name));
      }
      var record := conf.pools[(partition, name)];
      var available := record.availability == "available" && record.state == "enabled";
      var members := Sort(record.members);
      var uniqpool := FindUnique(members, (partition, name));
      r := Ok(Pool(partition, name, record.availability, record.state, available, members, uniqpool));
    }

    /** The second half of `pool_from_name`: build and register the pool `key` unless it is registered already. */
    method Register(key: PoolKey) returns (r: Result<PoolKey, Fault>)
      requires Valid() && key.0 in partitions
      modifies this
      ensures Valid()
      ensures r == (if key in conf.pools then Ok(key) else Err(PoolNotFound(key.0, key.1)))
      ensures partitions == old(partitions) && dataGroup == old(dataGroup)
      ensures key in old(pools) ==> pools == old(pools) && unique == old(unique)
      ensures key !in old(pools) && r.Ok? ==>
        key in pools && pools == old(pools)[key := pools[key]]
        && KeyChoice(old(unique), key, pools[key].members, pools[key].uniqpool, unique)
      ensures r.Err? ==> pools == old(pools) && unique == old(unique)
    {
      if key !in pools {
        ghost var unique0 := unique;
        var p :- NewPool(key.0, key.1);
        RegisterValid(conf, pools, unique0, key, p, unique);
        pools := pools[key := p];
      }
      r := Ok(key);
    }

    /** The first half of `pool_from_name`: make sure `POOLS` has an entry for `partition`. */
    method OpenPartition(partition: string)
      requires Valid()
      modifies this
      ensures Valid()
      ensures partitions == old(partitions) + {partition}
      ensures pools == old(pools) && unique == old(unique) && dataGroup == old(dataGroup)
    {
      if partition !in partitions {
        partitions := partitions + {partition};
      }
    }

    /** The partition `pool_from_name` opens for `poolname`: none when the name is malformed. */
    static function KeyPartition(poolname: string, default: string): set<string> {
      match ResolveKey(poolname, default)
      case Ok(key) => {key.0}
      case Err(_) => {}
    }

    /** `pool_from_name(poolname, default)`: the pool's key, registering the pool on first reference. */
    method PoolFromName(poolname: string, default: string) returns (r: Result<PoolKey, Fault>)
      requires Valid()
      modifies this
      ensures Valid()
      ensures r == PoolResult(conf, poolname, default)
      ensures Extends(old(pools), pools) && old(partitions) <= partitions && dataGroup == old(dataGroup)
      ensures r.Ok? ==> forall k :: k in pools <==> k in old(pools) || k == r.value
      ensures r.Err? ==> pools == old(pools)
      ensures partitions == old(partitions) + KeyPartition(poolname, default)
    {
      var key :- ResolveKey(poolname, default);
      OpenPartition(key.0);
      ghost var before := pools;
      r := Register(key);
      if key !in before && r.Ok? {
        ExtendsAdd(before, key, pools[key]);
      }
    }

    /** The inner loop of `load_datagroup_list`: the pools named by the records of data group `g`. */
    method GroupPools(g: DataGroup, records: seq<DgRecord>) returns (r: Result<set<PoolKey>, Fault>)
      requires Valid()
      modifies this
      ensures Valid()
      ensures r == RecordPools(conf, g, records)
      ensures r.Ok? ==> r.value <= pools.Keys
      ensures r.Ok? ==> KeysGained(old(pools), pools, r.value)
      ensures Extends(old(pools), pools) && old(partitions) <= partitions && dataGroup == old(dataGroup)
    {
      var collected: set<PoolKey> := {};
      var j := 0;
      while j < |records|
        invariant 0 <= j <= |records|
        invariant Valid()
        invariant Extends(old(pools), pools) && old(partitions) <= partitions && dataGroup == old(dataGroup)
        invariant RecordPools(conf, g, records[..j]) == Ok(collected)
        invariant collected <= pools.Keys
        invariant KeysGained(old(pools), pools, collected)
      {
        assert records[..j + 1][..j] == records[..j];
        var rec := records[j];
        if rec.data.None? {
          RecordPoolsErrPersists(conf, g, records, j + 1);
          return Err(MissingRecordData(g.name));
        }
        var fields := Fields(rec.data.value);
        if |fields| > 1 {
          var res := PoolFromName(fields[1], g.partition);
          var next := AddResolved(collected, res);
          if next.Err? {
            RecordPoolsErrPersists(conf, g, records, j + 1);
            return Err(next.error);
          }
          collected := next.value;
        }
        j := j + 1;
      }
      assert records[..j] == records;
      r := Ok(collected);
    }

    /** The body of `load_datagroup_list`'s outer loop, for data group `g`. */
    method UpdateGroup(g: DataGroup) returns (r: Result<(), Fault>)
      requires Valid()
      modifies this
      ensures Valid()
      ensures Extends(old(pools), pools) && old(partitions) <= partitions
      ensures r.Ok? <==> GroupUpdate(conf, g, old(dataGroup)).Ok?
      ensures r.Ok? ==> dataGroup == GroupUpdate(conf, g, old(dataGroup)).value
      ensures r.Ok? ==> KeysGained(old(pools), pools, GroupRegisters(conf, g))
      ensures r.Err? ==> r.error == GroupUpdate(conf, g, old(dataGroup)).error
    {
      var hostname := Hostname(g);
      if hostname !in conf.dns || g.records.None? {
        return Ok(());
      }
      var ip := conf.dns[hostname];
      var found :- GroupPools(g, g.records.value);
      if found != {} {
        dataGroup := dataGroup[ip := found];
      }
      r := Ok(());
    }

    /** `load_datagroup_list(partition)`: map the IP of each `ProxyPass_` group's host to the pools its records name. */
    method LoadDatagroupList(partition: Option<string>) returns (r: Result<(), Fault>)
      requires Valid()
      modifies this
      ensures Valid()
      ensures Extends(old(pools), pools) && old(partitions) <= partitions
      ensures var expected := DataGroupMap(conf, Eligible(conf.dataGroups, partition), old(dataGroup));
        && (r.Ok? <==> expected.Ok?)
        && (r.Ok? ==> dataGroup == expected.value)
        && (r.Err? ==> r.error == expected.error)
      ensures r.Ok? ==> KeysGained(old(pools), pools, RegisteredBy(conf, Eligible(conf.dataGroups, partition)))
    {
      var dglist := Eligible(conf.dataGroups, partition);
      var i := 0;
      while i < |dglist|
        invariant 0 <= i <= |dglist|
        invariant Valid()
        invariant Extends(old(pools), pools) && old(partitions) <= partitions
        invariant DataGroupMap(conf, dglist[..i], old(dataGroup)) == Ok(dataGroup)
        invariant KeysGained(old(pools), pools, RegisteredBy(conf, dglist[..i]))
      {
        DataGroupMapStep(conf, dglist, i, old(dataGroup));
        ghost var before := pools;
        var step := UpdateGroup(dglist[i]);
        ExtendsTransitive(old(pools), before, pools);
        if step.Err? {
          DataGroupMapErrPersists(conf, dglist, i + 1, old(dataGroup));
          return Err(step.error);
        }
        KeysGainedChain(old(pools), before, pools, RegisteredBy(conf, dglist[..i]), GroupRegisters(conf, dglist[i]));
        RegisteredByStep(conf, dglist, i);
        i := i + 1;
      }
      assert dglist[..i] == dglist;
      r := Ok(());
    }
  }

  lemma RegisteredByStep(conf: Config, dglist: seq<DataGroup>, i: nat)
    requires i < |dglist|
    ensures RegisteredBy(conf, dglist[..i + 1]) == RegisteredBy(conf, dglist[..i]) + GroupRegisters(conf, dglist[i])
  {
    assert dglist[..i + 1][..i] == dglist[..i];
  }

  lemma DataGroupMapStep(conf: Config, dglist: seq<DataGroup>, i: nat, init: map<string, set<PoolKey>>)
    requires i < |dglist|
    ensures DataGroupMap(conf, dglist[..i + 1], init) ==
      (var prev :- DataGroupMap(conf, dglist[..i], init); GroupUpdate(conf, dglist[i], prev))
  {
    assert dglist[..i + 1][..i] == dglist[..i];
  }

  lemma {:induction false} RecordPoolsErrPersists(conf: Config, g: DataGroup, records: seq<DgRecord>, j: nat)
    requires j <= |records| && RecordPools(conf, g, records[..j]).Err?
    ensures RecordPools(conf, g, records) == RecordPools(conf, g, records[..j])
    decreases |records|
  {
    if j < |records| {
      var front := records[..|records| - 1];
      assert front[..j] == records[..j];
      RecordPoolsErrPersists(conf, g, front, j);
    } else {
      assert records[..j] == records;
    }
  }

  lemma {:induction false} DataGroupMapErrPersists(conf: Config, dglist: seq<DataGroup>, i: nat, init: map<string, set<PoolKey>>)
    requires i <= |dglist| && DataGroupMap(conf, dglist[..i], init).Err?
    ensures DataGroupMap(conf, dglist, init) == DataGroupMap(conf, dglist[..i], init)
    decreases |dglist|
  {
    if i < |dglist| {
      var front := dglist[..|dglist| - 1];
      assert front[..i] == dglist[..i];
      DataGroupMapErrPersists(conf, front, i, init);
    } else {
      assert dglist[..i] == dglist;
    }
  }

  /** The hostname of a considered group is what follows `ProxyPass_` in its name. */
  lemma HostnameAfterPrefix(g: DataGroup)
    requires StartsWith(g.name, "ProxyPass_")
    ensures g.name == "ProxyPass_" + Hostname(g)
  {
    assert g.name == g.name[..10] + g.name[10..];
  }

  /** `DATAGROUP` entries are never empty sets: a group that names no loadable pool writes nothing. */
  lemma {:induction false} DataGroupValuesNonEmpty(conf: Config, dglist: seq<DataGroup>, init: map<string, set<PoolKey>>)
    requires forall ip | ip in init :: init[ip] != {}
    requires DataGroupMap(conf, dglist, init).Ok?
    ensures forall ip | ip in DataGroupMap(conf, dglist, init).value :: DataGroupMap(conf, dglist, init).value[ip] != {}
    decreases |dglist|
  {
    if dglist != [] {
      DataGroupValuesNonEmpty(conf, dglist[..|dglist| - 1], init);
    }
  }

  /** Every IP in `DATAGROUP` was there before or is what a processed group's hostname resolves to. */
  lemma {:induction false} DataGroupKeysResolved(conf: Config, dglist: seq<DataGroup>, init: map<string, set<PoolKey>>)
    requires DataGroupMap(conf, dglist, init).Ok?
    ensures forall ip | ip in DataGroupMap(conf, dglist, init).value ::
      ip in init || exists g | g in dglist :: Hostname(g) in conf.dns && conf.dns[Hostname(g)] == ip
    decreases |dglist|
  {
    if dglist != [] {
      var front := dglist[..|dglist| - 1];
      var g := dglist[|dglist| - 1];
      DataGroupKeysResolved(conf, front, init);
      forall ip | ip in DataGroupMap(conf, dglist, init).value
        ensures ip in init || exists g' | g' in dglist :: Hostname(g') in conf.dns && conf.dns[Hostname(g')] == ip
      {
        if ip !in DataGroupMap(conf, front, init).value {
          assert Hostname(g) in conf.dns && conf.dns[Hostname(g)] == ip;
        } else if ip !in init {
          var g' :| g' in front && Hostname(g') in conf.dns && conf.dns[Hostname(g')] == ip;
          assert g' in dglist;
        }
      }
    }
  }

  /**
   * Two groups whose hosts resolve to the same IP do not merge: the later
   * group's pools replace the earlier entry outright, and every other IP's
   * entry stays as it was.
   */
  lemma LaterGroupOverwrites(conf: Config, front: seq<DataGroup>, g: DataGroup, init: map<string, set<PoolKey>>)
    requires DataGroupMap(conf, front, init).Ok?
    requires Hostname(g) in conf.dns && g.records.Some?
    requires RecordPools(conf, g, g.records.value).Ok? && RecordPools(conf, g, g.records.value).value != {}
    ensures DataGroupMap(conf, front + [g], init).Ok?
    ensures DataGroupMap(conf, front + [g], init).value[conf.dns[Hostname(g)]] == RecordPools(conf, g, g.records.value).value
    ensures var before := DataGroupMap(conf, front, init).value;
      var after := DataGroupMap(conf, front + [g], init).value;
      forall ip | ip != conf.dns[Hostname(g)] :: (ip in after <==> ip in before) && (ip in before ==> after[ip] == before[ip])
  {
    assert (front + [g])[..|front|] == front;
  }

  /** A group whose records name no loadable pool leaves `DATAGROUP` as it was. */
  lemma EmptyGroupNeutral(conf: Config, front: seq<DataGroup>, g: DataGroup, init: map<string, set<PoolKey>>)
    requires g.records.Some? && RecordPools(conf, g, g.records.value) == Ok({})
    ensures DataGroupMap(conf, front + [g], init) == DataGroupMap(conf, front, init)
  {
    assert (front + [g])[..|front|] == front;
  }

  /** Group `g` writes a pool set for `ip`: its host resolves to `ip` and its records name some loadable pool. */
  predicate WritesIp(conf: Config, g: DataGroup, ip: string) {
    && Hostname(g) in conf.dns && conf.dns[Hostname(g)] == ip && g.records.Some?
    && RecordPools(conf, g, g.records.value).Ok? && RecordPools(conf, g, g.records.value).value != {}
  }

  /** One group sets the entry of the IP it writes, and no other entry changes. */
  lemma GroupUpdateFrame(conf: Config, g: DataGroup, prev: map<string, set<PoolKey>>, ip: string)
    requires GroupUpdate(conf, g, prev).Ok?
    ensures var next := GroupUpdate(conf, g, prev).value;
      if WritesIp(conf, g, ip) then ip in next && next[ip] == RecordPools(conf, g, g.records.value).value
      else (ip in next <==> ip in prev) && (ip in prev ==> next[ip] == prev[ip])
  {
  }

  /** The last group of a successful fold applies to the fold of the groups before it. */
  lemma DataGroupMapLast(conf: Config, dglist: seq<DataGroup>, init: map<string, set<PoolKey>>)
    requires dglist != [] && DataGroupMap(conf, dglist, init).Ok?
    ensures DataGroupMap(conf, dglist[..|dglist| - 1], init).Ok?
    ensures GroupUpdate(conf, dglist[|dglist| - 1], DataGroupMap(conf, dglist[..|dglist| - 1], init).value) == DataGroupMap(conf, dglist, init)
  {
  }

  /** A fold whose last group writes `ip` ends with that group's pools for `ip`. */
  lemma LastGroupWrites(conf: Config, dglist: seq<DataGroup>, init: map<string, set<PoolKey>>, ip: string)
    requires dglist != [] && DataGroupMap(conf, dglist, init).Ok?
    requires WritesIp(conf, dglist[|dglist| - 1], ip)
    ensures var g := dglist[|dglist| - 1];
      ip in DataGroupMap(conf, dglist, init).value
      && DataGroupMap(conf, dglist, init).value[ip] == RecordPools(conf, g, g.records.value).value
  {
    DataGroupMapLast(conf, dglist, init);
    GroupUpdateFrame(conf, dglist[|dglist| - 1], DataGroupMap(conf, dglist[..|dglist| - 1], init).value, ip);
  }

  /** A last group that does not write `ip` keeps the entry for `ip` as it was. */
  lemma LastGroupKeeps(conf: Config, dglist: seq<DataGroup>, init: map<string, set<PoolKey>>, ip: string)
    requires dglist != [] && DataGroupMap(conf, dglist, init).Ok?
    requires !WritesIp(conf, dglist[|dglist| - 1], ip)
    ensures DataGroupMap(conf, dglist[..|dglist| - 1], init).Ok?
    ensures var before := DataGroupMap(conf, dglist[..|dglist| - 1], init).value;
      var after := DataGroupMap(conf, dglist, init).value;
      (ip in after <==> ip in before) && (ip in before ==> after[ip] == before[ip])
  {
    DataGroupMapLast(conf, dglist, init);
    GroupUpdateFrame(conf, dglist[|dglist| - 1], DataGroupMap(conf, dglist[..|dglist| - 1], init).value, ip);
  }

  /** The last group that writes `ip` decides `DATAGROUP[ip]`. */
  lemma {:induction false} LastWriterDecides(conf: Config, dglist: seq<DataGroup>, init: map<string, set<PoolKey>>, ip: string, i: nat)
    requires DataGroupMap(conf, dglist, init).Ok?
    requires i < |dglist| && WritesIp(conf, dglist[i], ip)
    requires forall j | i < j < |dglist| :: !WritesIp(conf, dglist[j], ip)
    ensures ip in DataGroupMap(conf, dglist, init).value
    ensures DataGroupMap(conf, dglist, init).value[ip] == RecordPools(conf, dglist[i], dglist[i].records.value).value
    decreases |dglist|
  {
    var n := |dglist| - 1;
    if i == n {
      LastGroupWrites(conf, dglist, init, ip);
    } else {
      var front := dglist[..n];
      LastGroupKeeps(conf, dglist, init, ip);
      assert front[i] == dglist[i];
      forall j | i < j < |front| ensures !WritesIp(conf, front[j], ip) {
        assert front[j] == dglist[j];
      }
      LastWriterDecides(conf, front, init, ip, i);
    }
  }

  /** When no group writes `ip`, `DATAGROUP[ip]` is what it was before the loop, or absent. */
  lemma {:induction false} UnwrittenEntryKept(conf: Config, dglist: seq<DataGroup>, init: map<string, set<PoolKey>>, ip: string)
    requires DataGroupMap(conf, dglist, init).Ok?
    requires forall i | 0 <= i < |dglist| :: !WritesIp(conf, dglist[i], ip)
    ensures var m := DataGroupMap(conf, dglist, init).value;
      (ip in m <==> ip in init) && (ip in init ==> m[ip] == init[ip])
    decreases |dglist|
  {
    if dglist != [] {
      var n := |dglist| - 1;
      var front := dglist[..n];
      LastGroupKeeps(conf, dglist, init, ip);
      forall i | 0 <= i < |front| ensures !WritesIp(conf, front[i], ip) {
        assert front[i] == dglist[i];
      }
      UnwrittenEntryKept(conf, front, init, ip);
    }
  }

  /** Record `rec` of a group in `partition` names, in its second field, pool `k`, which loads. */
  predicate RecordNames(conf: Config, partition: string, rec: DgRecord, k: PoolKey) {
    rec.data.Some? && |Fields(rec.data.value)| > 1 && PoolResult(conf, Fields(rec.data.value)[1], partition) == Ok(k)
  }

  /** Record `rec` aborts the collection: it has no `data`, or its second field is a malformed pool name. */
  predicate RecordBreaks(partition: string, rec: DgRecord) {
    rec.data.None? || (|Fields(rec.data.value)| > 1 && ResolveKey(Fields(rec.data.value)[1], partition).Err?)
  }

  /** One more record adds to the collected pools exactly the pool it names, if that pool loads. */
  lemma RecordPoolsStep(conf: Config, g: DataGroup, records: seq<DgRecord>)
    requires records != [] && RecordPools(conf, g, records).Ok?
    ensures RecordPools(conf, g, records[..|records| - 1]).Ok?
    ensures forall k :: k in RecordPools(conf, g, records).value <==>
      k in RecordPools(conf, g, records[..|records| - 1]).value || RecordNames(conf, g.partition, records[|records| - 1], k)
  {
  }

  /** The pools a data group collects are exactly the loadable pools its records name. */
  lemma {:induction false} RecordPoolsExact(conf: Config, g: DataGroup, records: seq<DgRecord>)
    requires RecordPools(conf, g, records).Ok?
    ensures forall k :: k in RecordPools(conf, g, records).value <==>
      exists i | 0 <= i < |records| :: RecordNames(conf, g.partition, records[i], k)
    decreases |records|
  {
    if records != [] {
      var front := records[..|records| - 1];
      var last := records[|records| - 1];
      RecordPoolsExact(conf, g, front);
      RecordPoolsStep(conf, g, records);
      var earlier := RecordPools(conf, g, front).value;
      forall k
        ensures k in RecordPools(conf, g, records).value <==>
          exists i | 0 <= i < |records| :: RecordNames(conf, g.partition, records[i], k)
      {
        if k in earlier {
          var i :| 0 <= i < |front| && RecordNames(conf, g.partition, front[i], k);
          assert records[i] == front[i];
        } else if RecordNames(conf, g.partition, last, k) {
          assert RecordNames(conf, g.partition, records[|records| - 1], k);
        } else {
          forall i | 0 <= i < |records| ensures !RecordNames(conf, g.partition, records[i], k) {
            if i < |front| {
              assert front[i] == records[i];
            }
          }
        }
      }
    }
  }

  /** Collecting a group's pools fails exactly when some record has no `data` or names a malformed pool. */
  lemma {:induction false} RecordPoolsFails(conf: Config, g: DataGroup, records: seq<DgRecord>)
    ensures RecordPools(conf, g, records).Err? <==> exists i | 0 <= i < |records| :: RecordBreaks(g.partition, records[i])
    decreases |records|
  {
    if records != [] {
      var front := records[..|records| - 1];
      RecordPoolsFails(conf, g, front);
      if exists i | 0 <= i < |front| :: RecordBreaks(g.partition, front[i]) {
        var i :| 0 <= i < |front| && RecordBreaks(g.partition, front[i]);
        assert records[i] == front[i];
      }
      if exists i | 0 <= i < |records| :: RecordBreaks(g.partition, records[i]) {
        var i :| 0 <= i < |records| && RecordBreaks(g.partition, records[i]);
        if i < |front| {
          assert front[i] == records[i];
        }
      }
    }
  }

  /** A record whose `data` has fewer than two whitespace-separated fields names no pool. */
  lemma ShortRecordNeutral(conf: Config, g: DataGroup, front: seq<DgRecord>, rec: DgRecord)
    requires rec.data.Some? && |Fields(rec.data.value)| < 2
    ensures RecordPools(conf, g, front + [rec]) == RecordPools(conf, g, front)
  {
    assert (front + [rec])[..|front|] == front;
  }

  /** A group whose host does not resolve, or that has no records, leaves `DATAGROUP` as it was. */
  lemma SkippedGroupNeutral(conf: Config, front: seq<DataGroup>, g: DataGroup, init: map<string, set<PoolKey>>)
    requires Hostname(g) !in conf.dns || g.records.None?
    ensures DataGroupMap(conf, front + [g], init) == DataGroupMap(conf, front, init)
  {
    assert (front + [g])[..|front|] == front;
  }

  /**
   * A pool is registered by the data-group loop exactly when some group's
   * records name it: a group that a later group overwrites in `DATAGROUP`
   * still leaves its pools in `POOLS`.
   */
  lemma {:induction false} RegisteredByExact(conf: Config, dglist: seq<DataGroup>, k: PoolKey)
    ensures k in RegisteredBy(conf, dglist) <==> exists i | 0 <= i < |dglist| :: k in GroupRegisters(conf, dglist[i])
    decreases |dglist|
  {
    if dglist != [] {
      var n := |dglist| - 1;
      var front := dglist[..n];
      RegisteredByExact(conf, front, k);
      if k in RegisteredBy(conf, front) {
        var i :| 0 <= i < |front| && k in GroupRegisters(conf, front[i]);
        assert front[i] == dglist[i];
      } else if k !in GroupRegisters(conf, dglist[n]) {
        forall i | 0 <= i < |dglist| ensures k !in GroupRegisters(conf, dglist[i]) {
          if i < n {
            assert front[i] == dglist[i];
          }
        }
      }
    }
  }

  /** Every `DATAGROUP` entry the loop leaves is the one it started with, or a set of pools the loop registered. */
  lemma {:induction false} DataGroupRegistered(conf: Config, dglist: seq<DataGroup>, init: map<string, set<PoolKey>>, ip: string)
    requires DataGroupMap(conf, dglist, init).Ok? && ip in DataGroupMap(conf, dglist, init).value
    ensures var m := DataGroupMap(conf, dglist, init).value;
      (ip in init && m[ip] == init[ip]) || m[ip] <= RegisteredBy(conf, dglist)
    decreases |dglist|
  {
    if dglist != [] {
      var n := |dglist| - 1;
      var front := dglist[..n];
      DataGroupMapLast(conf, dglist, init);
      var prev := DataGroupMap(conf, front, init).value;
      GroupUpdateFrame(conf, dglist[n], prev, ip);
      if !WritesIp(conf, dglist[n], ip) {
        DataGroupRegistered(conf, front, init, ip);
      }
    }
  }
}
