/**
 * The pool registry: `pool_from_name`'s key resolution, the `Pool` values it
 * stores in `POOLS[partition][name]` (kept here as one map keyed by
 * `(partition, name)`, beside the set of partitions `POOLS` holds), and the member-list registry
 * `Pool.internal_unique` that `_find_unique` consults. `id(self)`, the key
 * `_find_unique` registers, is replaced by the pool's own `(partition, name)`:
 * each such key is registered at most once, by the first pool created
 * with that member list.
 */
module Registry {
  import opened Wrappers
  import opened Faults
  import opened Strings
  import opened Sorting
  import opened Appliance

  /** The key of `poolname`: `/P/n` gives `(P, n)`, a bare name takes the default partition. */
  function ResolveKey(poolname: string, default: string): (r: Result<PoolKey, Fault>)
    ensures r.Err? ==> r.error == BadPoolName(poolname)
  {
    if StartsWith(poolname, "/") then
      var parts := Split(poolname, '/');
      if |parts| == 3 then Ok((parts[1], parts[2])) else Err(BadPoolName(poolname))
    else Ok((default, poolname))
  }

  /** What `pool_from_name` returns or raises: the key, once the pool is known to load. */
  function PoolResult(conf: Config, poolname: string, default: string): (r: Result<PoolKey, Fault>)
    ensures r.Ok? ==> r.value in conf.pools
  {
    var key :- ResolveKey(poolname, default);
    if key in conf.pools then Ok(key) else Err(PoolNotFound(key.0, key.1))
  }

  /**
   * Adds the outcome of one `pool_from_name` call to a set of keys, the way
   * the loops that catch `iControlUnexpectedHTTPError` do: a pool that does
   * not load is passed over, any other failure propagates.
   */
  function AddResolved(prev: set<PoolKey>, r: Result<PoolKey, Fault>): (acc: Result<set<PoolKey>, Fault>)
    ensures acc.Ok? ==> prev <= acc.value && acc.value <= prev + (if r.Ok? then {r.value} else {})
    ensures acc.Ok? <==> r.Ok? || r.error.PoolNotFound?
  {
    match r
    case Ok(key) => Ok(prev + {key})
    case Err(PoolNotFound(_, _)) => Ok(prev)
    case Err(e) => Err(e)
  }

  /** A qualified name `/P/n` (with `P` and `n` free of `/`) resolves to `(P, n)` whatever the default. */
  lemma QualifiedKey(partition: string, name: string, default: string)
    requires '/' !in partition && '/' !in name
    ensures ResolveKey("/" + partition + "/" + name, default) == Ok((partition, name))
  {
    var poolname := "/" + partition + "/" + name;
    assert Join(["", partition, name], '/') == poolname by {
      assert Join([name], '/') == name;
      assert Join([partition, name], '/') == partition + "/" + name;
    }
    SplitJoin(["", partition, name], '/');
    assert StartsWith(poolname, "/") by { assert poolname[..1] == "/"; }
  }

  /** A name resolves exactly when it is bare or holds exactly two `/`; a qualified one is then `/P/n` again. */
  lemma ResolveKeyOk(poolname: string, default: string)
    ensures ResolveKey(poolname, default).Ok? <==> !StartsWith(poolname, "/") || Count(poolname, '/') == 2
    ensures ResolveKey(poolname, default).Ok? && StartsWith(poolname, "/") ==>
      var key := ResolveKey(poolname, default).value;
      poolname == "/" + key.0 + "/" + key.1
    ensures ResolveKey(poolname, default).Ok? && !StartsWith(poolname, "/") ==>
      ResolveKey(poolname, default).value == (default, poolname)
  {
    var parts := Split(poolname, '/');
    SplitShape(poolname, '/');
    if StartsWith(poolname, "/") && |parts| == 3 {
      JoinSplit(poolname, '/');
      assert parts[0] == [] by {
        assert poolname == Join(parts, '/') == parts[0] + ['/'] + Join(parts[1..], '/');
        HeadIn(parts[0], ['/'] + Join(parts[1..], '/'));
      }
      assert Join(parts[1..], '/') == parts[1] + ['/'] + Join(parts[2..], '/');
      assert Join(parts[2..], '/') == parts[2];
    }
  }

  /** The first character of a concatenation with a non-empty left part comes from that part. */
  lemma HeadIn(x: string, y: string)
    requires x + y != []
    ensures x != [] ==> (x + y)[0] in x
  {
  }

  /** A registered pool, as `Pool.__init__` built it. */
  datatype Pool = Pool(
    partition: string,
    name: string,
    availability: string,
    state: string,
    available: bool,
    members: seq<string>,
    uniqpool: PoolKey
  )

  /** The pool `Pool.__init__` builds for `(partition, name)`, up to its member-list key. */
  ghost predicate Faithful(conf: Config, partition: string, name: string, p: Pool) {
    && (partition, name) in conf.pools
    && var rec := conf.pools[(partition, name)];
    && p.partition == partition && p.name == name
    && p.availability == rec.availability && p.state == rec.state
    && p.available == (rec.availability == "available" && rec.state == "enabled")
    && p.members == Sort(rec.members)
  }

  /**
   * The registry's invariant: every pool is the one its configuration gives
   * and points at a stored member list equal to its own; every stored list is
   * owned by a registered pool that points at itself; no list is stored twice.
   */
  ghost predicate RegistryValid(conf: Config, pools: map<PoolKey, Pool>, unique: map<PoolKey, seq<string>>) {
    PoolsFaithful(conf, pools) && PoolsKeyed(pools, unique) && OwnersRegistered(pools, unique) && ListsDistinct(unique)
  }

  ghost predicate PoolsFaithful(conf: Config, pools: map<PoolKey, Pool>) {
    forall k | k in pools :: Faithful(conf, k.0, k.1, pools[k])
  }

  ghost predicate PoolsKeyed(pools: map<PoolKey, Pool>, unique: map<PoolKey, seq<string>>) {
    forall k | k in pools :: pools[k].uniqpool in unique && unique[pools[k].uniqpool] == pools[k].members
  }

  ghost predicate OwnersRegistered(pools: map<PoolKey, Pool>, unique: map<PoolKey, seq<string>>) {
    forall k | k in unique :: k in pools && pools[k].uniqpool == k
  }

  ghost predicate ListsDistinct(unique: map<PoolKey, seq<string>>) {
    forall k1, k2 | k1 in unique && k2 in unique && k1 != k2 :: unique[k1] != unique[k2]
  }

  /** `after` keeps every pool of `before`, unchanged. */
  ghost predicate Extends(before: map<PoolKey, Pool>, after: map<PoolKey, Pool>) {
    forall k | k in before :: k in after && after[k] == before[k]
  }

  lemma ExtendsTransitive(a: map<PoolKey, Pool>, b: map<PoolKey, Pool>, c: map<PoolKey, Pool>)
    requires Extends(a, b) && Extends(b, c)
    ensures Extends(a, c)
  {
  }

  /** Adding a pool under a new key keeps every pool already there. */
  lemma ExtendsAdd(before: map<PoolKey, Pool>, key: PoolKey, p: Pool)
    requires key !in before
    ensures Extends(before, before[key := p])
  {
  }

  /** `after` holds a pool under exactly the keys of `before` and the keys `added`. */
  ghost predicate KeysGained(before: map<PoolKey, Pool>, after: map<PoolKey, Pool>, added: set<PoolKey>) {
    forall k :: k in after <==> k in before || k in added
  }

  /** Two registration steps in a row gain the keys of both. */
  lemma KeysGainedChain(a: map<PoolKey, Pool>, b: map<PoolKey, Pool>, c: map<PoolKey, Pool>, x: set<PoolKey>, y: set<PoolKey>)
    requires KeysGained(a, b, x) && KeysGained(b, c, y)
    ensures KeysGained(a, c, x + y)
  {
  }

  /** Keys that were registered already may be counted among the keys gained, or left out. */
  lemma KeysGainedWithin(before: map<PoolKey, Pool>, after: map<PoolKey, Pool>, added: set<PoolKey>, known: set<PoolKey>, claimed: set<PoolKey>)
    requires KeysGained(before, after, added) && known <= before.Keys
    requires added <= claimed <= added + known
    ensures KeysGained(before, after, claimed)
  {
  }

  /** How `_find_unique` chose the key of a new pool with member list `members`. */
  ghost predicate KeyChoice(unique: map<PoolKey, seq<string>>, own: PoolKey, members: seq<string>, key: PoolKey, unique': map<PoolKey, seq<string>>) {
    if exists k | k in unique :: unique[k] == members
    then key in unique && unique[key] == members && unique' == unique
    else key == own && unique' == unique[own := members]
  }

  /** Registering a newly built pool under a new key keeps the registry valid. */
  lemma RegisterValid(conf: Config, pools: map<PoolKey, Pool>, unique: map<PoolKey, seq<string>>,
                      key: PoolKey, p: Pool, unique': map<PoolKey, seq<string>>)
    requires RegistryValid(conf, pools, unique)
    requires key !in pools
    requires Faithful(conf, key.0, key.1, p)
    requires KeyChoice(unique, key, p.members, p.uniqpool, unique')
    ensures RegistryValid(conf, pools[key := p], unique')
  {
    RegisterKeyed(pools, unique, key, p, unique');
    RegisterOwners(pools, unique, key, p, unique');
    RegisterDistinct(unique, key, p.members, p.uniqpool, unique');
  }

  lemma RegisterKeyed(pools: map<PoolKey, Pool>, unique: map<PoolKey, seq<string>>, key: PoolKey, p: Pool, unique': map<PoolKey, seq<string>>)
    requires PoolsKeyed(pools, unique) && OwnersRegistered(pools, unique) && key !in pools
    requires KeyChoice(unique, key, p.members, p.uniqpool, unique')
    ensures PoolsKeyed(pools[key := p], unique')
  {
    var pools' := pools[key := p];
    forall k | k in pools' ensures pools'[k].uniqpool in unique' && unique'[pools'[k].uniqpool] == pools'[k].members {
      if k != key {
        assert pools[k].uniqpool in unique;
      }
    }
  }

  lemma RegisterOwners(pools: map<PoolKey, Pool>, unique: map<PoolKey, seq<string>>, key: PoolKey, p: Pool, unique': map<PoolKey, seq<string>>)
    requires OwnersRegistered(pools, unique) && key !in pools
    requires KeyChoice(unique, key, p.members, p.uniqpool, unique')
    ensures OwnersRegistered(pools[key := p], unique')
  {
  }

  lemma RegisterDistinct(unique: map<PoolKey, seq<string>>, key: PoolKey, members: seq<string>, chosen: PoolKey, unique': map<PoolKey, seq<string>>)
    requires ListsDistinct(unique)
    requires KeyChoice(unique, key, members, chosen, unique')
    ensures ListsDistinct(unique')
  {
  }

  /**
   * Dedup: two registered pools share a member-list key exactly when their
   * configured member lists hold the same names, counted with multiplicity.
   */
  lemma SharedKeyIffSameMembers(conf: Config, pools: map<PoolKey, Pool>, unique: map<PoolKey, seq<string>>, a: PoolKey, b: PoolKey)
    requires RegistryValid(conf, pools, unique)
    requires a in pools && b in pools
    ensures a in conf.pools && b in conf.pools
    ensures pools[a].uniqpool == pools[b].uniqpool <==>
      multiset(conf.pools[a].members) == multiset(conf.pools[b].members)
  {
    SortSameIffSameMultiset(conf.pools[a].members, conf.pools[b].members);
  }

  /** The key a pool shares is owned by a registered pool with that same member list, whose key it is. */
  lemma SharedKeyOwner(conf: Config, pools: map<PoolKey, Pool>, unique: map<PoolKey, seq<string>>, a: PoolKey)
    requires RegistryValid(conf, pools, unique) && a in pools
    ensures var owner := pools[a].uniqpool;
      owner in pools && pools[owner].uniqpool == owner && pools[owner].members == pools[a].members
  {
  }
}
