/**
 * `VirtualServer`: one virtual server resolved against the appliance
 * configuration and the topology's registries. Its constructor is the
 * static method `Resolve`, which either yields the object or the fault the
 * Python constructor raises; pools registered before a fault stay
 * registered, as they do in the global registry of the source.
 */
module VirtualServers {
  import opened Wrappers
  import opened Faults
  import opened Strings
  import opened Appliance
  import opened Destination
  import opened Profiles
  import opened RuleScanner
  import opened Registry
  import opened Topology

  /**
   * The `snat` attribute from the `sourceAddressTranslation` descriptor;
   * `None` is an attribute never assigned, as for a `type` the code does not know.
   */
  function SnatOf(sat: map<string, string>): Result<Option<string>, Fault> {
    if "type" in sat then
      if sat["type"] == "automap" then Ok(Some("automap"))
      else if sat["type"] == "snat" then
        if "pool" in sat then Ok(Some(sat["pool"])) else Err(MissingSnatPool)
      else if sat["type"] == "none" then Ok(Some("no_source_nat"))
      else Ok(None)
    else Ok(Some("???"))
  }

  /** The SNAT classification, row by row. */
  lemma SnatTable(sat: map<string, string>)
    ensures "type" !in sat ==> SnatOf(sat) == Ok(Some("???"))
    ensures "type" in sat && sat["type"] == "automap" ==> SnatOf(sat) == Ok(Some("automap"))
    ensures "type" in sat && sat["type"] == "snat" ==>
      SnatOf(sat) == (if "pool" in sat then Ok(Some(sat["pool"])) else Err(MissingSnatPool))
    ensures "type" in sat && sat["type"] == "none" ==> SnatOf(sat) == Ok(Some("no_source_nat"))
    ensures "type" in sat && sat["type"] !in {"automap", "snat", "none"} ==> SnatOf(sat) == Ok(None)
  {
  }

  /** Rule ids with more than two `/` (iApp rules) are passed over. */
  predicate ScannedRule(rule: string) {
    Count(rule, '/') <= 2
  }

  /** `part, name = rule.split('/')[1:]`: fails unless the id splits into exactly three pieces. */
  function RuleKey(rule: string): (r: Result<(string, string), Fault>)
    ensures r.Err? ==> r.error == BadRuleId(rule)
  {
    var parts := Split(rule, '/');
    if |parts| == 3 then Ok((parts[1], parts[2])) else Err(BadRuleId(rule))
  }

  /** A scanned rule id splits exactly when it holds two `/`, and is then `a/partition/name`. */
  lemma RuleKeyOk(rule: string)
    requires ScannedRule(rule)
    ensures RuleKey(rule).Ok? <==> Count(rule, '/') == 2
    ensures RuleKey(rule).Ok? ==> exists a :: rule == a + "/" + RuleKey(rule).value.0 + "/" + RuleKey(rule).value.1
  {
    SplitShape(rule, '/');
    var parts := Split(rule, '/');
    if |parts| == 3 {
      JoinSplit(rule, '/');
      assert Join(parts[1..], '/') == parts[1] + ['/'] + Join(parts[2..], '/');
      assert Join(parts[2..], '/') == parts[2];
      assert rule == parts[0] + "/" + parts[1] + "/" + parts[2];
    }
  }

  /** The pools the names found in one iRule resolve to; names whose pool does not load are passed over. */
  function TokenPools(conf: Config, names: seq<string>, partition: string): Result<set<PoolKey>, Fault>
    decreases |names|
  {
    if names == [] then Ok({})
    else
      var prev :- TokenPools(conf, names[..|names| - 1], partition);
      AddResolved(prev, PoolResult(conf, names[|names| - 1], partition))
  }

  /** One pass of `_look_for_pools_in_irules`: the pools one rule contributes. */
  function RulePools(conf: Config, rule: string, partition: string): Result<set<PoolKey>, Fault> {
    if !ScannedRule(rule) then Ok({})
    else
      var key :- RuleKey(rule);
      if key !in conf.rules then Err(RuleNotFound(key.0, key.1))
      else TokenPools(conf, PoolNames(conf.rules[key]), partition)
  }

  /** The pools all of `rules` contribute, or the first fault. */
  function IrulePools(conf: Config, rules: seq<string>, partition: string): Result<set<PoolKey>, Fault>
    decreases |rules|
  {
    if rules == [] then Ok({})
    else
      var prev :- IrulePools(conf, rules[..|rules| - 1], partition);
      var more :- RulePools(conf, rules[|rules| - 1], partition);
      Ok(prev + more)
  }

  /** `_look_for_proxypass`'s scan: some scanned rule's name holds `proxypass`. */
  function WantsProxypass(rules: seq<string>): Result<bool, Fault>
    decreases |rules|
  {
    if rules == [] then Ok(false)
    else
      var prev :- WantsProxypass(rules[..|rules| - 1]);
      var rule := rules[|rules| - 1];
      if !ScannedRule(rule) then Ok(prev)
      else
        var key :- RuleKey(rule);
        Ok(prev || Contains(key.1, "proxypass"))
  }

  /** The default pool, if the server has one. */
  function DefaultPools(conf: Config, rec: VsRecord): Result<set<PoolKey>, Fault> {
    if rec.pool.None? then Ok({})
    else
      var key :- PoolResult(conf, rec.pool.value, rec.partition);
      Ok({key})
  }

  /** The attributes of a resolved virtual server. */
  datatype VsView = VsView(
    name: string,
    partition: string,
    ipaddr: string,
    port: string,
    sslClient: bool,
    sslServer: bool,
    description: Option<string>,
    snat: Option<string>,
    pools: set<PoolKey>,
    rules: seq<string>,
    enabled: bool
  )

  /** The attached iRules: `rules` if the record has the attribute, else none. */
  function RulesOf(rec: VsRecord): seq<string> {
    if rec.rules.Some? then rec.rules.value else []
  }

  /** The pools collected before `_look_for_proxypass`: the default pool and those the iRules name, or the first fault. */
  function NamedPools(conf: Config, rec: VsRecord): Result<set<PoolKey>, Fault> {
    var seed :- DefaultPools(conf, rec);
    var fromRules :- IrulePools(conf, RulesOf(rec), rec.partition);
    Ok(seed + fromRules)
  }

  /** What `VirtualServer(vs)` builds from record `rec`, given `DATAGROUP`, or the fault it raises first. */
  function ResolveSpec(conf: Config, dataGroup: map<string, set<PoolKey>>, rec: VsRecord): Result<VsView, Fault> {
    var dest :- ParseDestination(rec.destination);
    Assemble(conf, dataGroup, rec, dest)
  }

  /** The rest of the constructor once the destination has parsed to `dest`. */
  function Assemble(conf: Config, dataGroup: map<string, set<PoolKey>>, rec: VsRecord, dest: Endpoint): Result<VsView, Fault> {
    var snat :- SnatOf(rec.sourceAddressTranslation);
    var named :- NamedPools(conf, rec);
    Finished(VsView(rec.name, rec.partition, dest.ip, dest.port, false, false, None, snat, named, RulesOf(rec), false), conf, dataGroup, rec)
  }

  /**
   * The end of the constructor applied to a server `v` whose pools and rules
   * are collected: the description, `enabled`, the TLS flags and the
   * proxypass pools.
   */
  function Finished(v: VsView, conf: Config, dataGroup: map<string, set<PoolKey>>, rec: VsRecord): Result<VsView, Fault> {
    var wants :- WantsProxypass(v.rules);
    Ok(v.(
      sslClient := Flag(rec.profiles, "clientside", conf.clientSsl, v.sslClient),
      sslServer := Flag(rec.profiles, "serverside", conf.serverSsl, v.sslServer),
      description := rec.description,
      enabled := if rec.enabled.Some? then rec.enabled.value else false,
      pools := v.pools + (if wants && v.ipaddr in dataGroup then dataGroup[v.ipaddr] else {})))
  }

  class VirtualServer {
    var name: string
    var partition: string
    var ipaddr: string
    var port: string
    var sslClient: bool
    var sslServer: bool
    var description: Option<string>
    var snat: Option<string>
    var pools: set<PoolKey>
    var rules: seq<string>
    var enabled: bool

    function View(): VsView
      reads this
    {
      VsView(name, partition, ipaddr, port, sslClient, sslServer, description, snat, pools, rules, enabled)
    }

    constructor(name: string, partition: string, ipaddr: string, port: string)
      ensures View() == VsView(name, partition, ipaddr, port, false, false, None, None, {}, [], false)
    {
      this.name := name;
      this.partition := partition;
      this.ipaddr := ipaddr;
      this.port := port;
      sslClient := false;
      sslServer := false;
      description := None;
      snat := None;
      pools := {};
      rules := [];
      enabled := false;
    }

    /** `_parse_profiles`: each deciding profile overwrites its context's TLS flag with whether it loads. */
    method ParseProfiles(conf: Config, profiles: seq<ProfileRef>)
      modifies this`sslClient, this`sslServer
      ensures sslClient == Flag(profiles, "clientside", conf.clientSsl, old(sslClient))
      ensures sslServer == Flag(profiles, "serverside", conf.serverSsl, old(sslServer))
    {
      var i := 0;
      while i < |profiles|
        invariant 0 <= i <= |profiles|
        invariant sslClient == Flag(profiles[..i], "clientside", conf.clientSsl, old(sslClient))
        invariant sslServer == Flag(profiles[..i], "serverside", conf.serverSsl, old(sslServer))
      {
        var profile := profiles[i];
        assert profiles[..i + 1][..i] == profiles[..i];
        if !Ignored(profile.name) {
          if profile.context == "clientside" {
            sslClient := (profile.partition, profile.name) in conf.clientSsl;
          } else if profile.context == "serverside" {
            sslServer := (profile.partition, profile.name) in conf.serverSsl;
          }
        }
        i := i + 1;
      }
      assert profiles[..i] == profiles;
    }

    /** The inner loop of `_look_for_pools_in_irules`: register and add the pools `names` resolve to. */
    method AddNamedPools(topo: Topology, names: seq<string>) returns (r: Result<(), Fault>)
      requires topo.Valid() && pools <= topo.pools.Keys
      modifies this`pools, topo
      ensures topo.Valid() && pools <= topo.pools.Keys
      ensures Extends(old(topo.pools), topo.pools) && topo.dataGroup == old(topo.dataGroup)
      ensures r.Ok? <==> TokenPools(topo.conf, names, partition).Ok?
      ensures r.Ok? ==> pools == old(pools) + TokenPools(topo.conf, names, partition).value
      ensures r.Ok? ==> KeysGained(old(topo.pools), topo.pools, TokenPools(topo.conf, names, partition).value)
      ensures r.Err? ==> r.error == TokenPools(topo.conf, names, partition).error
    {
      var j := 0;
      ghost var found: set<PoolKey> := {};
      while j < |names|
        invariant 0 <= j <= |names|
        invariant topo.Valid() && pools <= topo.pools.Keys
        invariant Extends(old(topo.pools), topo.pools) && topo.dataGroup == old(topo.dataGroup)
        invariant TokenPools(topo.conf, names[..j], partition) == Ok(found)
        invariant pools == old(pools) + found
        invariant KeysGained(old(topo.pools), topo.pools, found)
      {
        TokenPoolsStep(topo.conf, names, j, partition);
        ghost var before := topo.pools;
        var res := topo.PoolFromName(names[j], partition);
        ExtendsTransitive(old(topo.pools), before, topo.pools);
        match res {
          case Ok(k) =>
            assert KeysGained(before, topo.pools, {k});
            KeysGainedChain(old(topo.pools), before, topo.pools, found, {k});
            UnionAssoc(old(pools), found, {k});
            pools := pools + {k};
            found := found + {k};
          case Err(e) =>
            if !e.PoolNotFound? {
              TokenPoolsErrPersists(topo.conf, names, j + 1, partition);
              return Err(e);
            }
        }
        j := j + 1;
      }
      assert names[..j] == names;
      r := Ok(());
    }

    /** The body of `_look_for_pools_in_irules`' loop for one rule. */
    method ScanRule(topo: Topology, rule: string) returns (r: Result<(), Fault>)
      requires topo.Valid() && pools <= topo.pools.Keys
      modifies this`pools, topo
      ensures topo.Valid() && pools <= topo.pools.Keys
      ensures Extends(old(topo.pools), topo.pools) && topo.dataGroup == old(topo.dataGroup)
      ensures r.Ok? <==> RulePools(topo.conf, rule, partition).Ok?
      ensures r.Ok? ==> pools == old(pools) + RulePools(topo.conf, rule, partition).value
      ensures r.Ok? ==> KeysGained(old(topo.pools), topo.pools, RulePools(topo.conf, rule, partition).value)
      ensures r.Err? ==> r.error == RulePools(topo.conf, rule, partition).error
    {
      if Count(rule, '/') > 2 {
        return Ok(());
      }
      var key :- RuleKey(rule);
      if key !in topo.conf.rules {
        return Err(RuleNotFound(key.0, key.1));
      }
      r := AddNamedPools(topo, PoolNames(topo.conf.rules[key]));
    }

    /** `_look_for_pools_in_irules`: add the pools the attached iRules name. */
    method LookForPoolsInIrules(topo: Topology) returns (r: Result<(), Fault>)
      requires topo.Valid() && pools <= topo.pools.Keys
      modifies this`pools, topo
      ensures topo.Valid() && pools <= topo.pools.Keys
      ensures Extends(old(topo.pools), topo.pools) && topo.dataGroup == old(topo.dataGroup)
      ensures r.Ok? <==> IrulePools(topo.conf, rules, partition).Ok?
      ensures r.Ok? ==> View() == old(View()).(pools := old(pools) + IrulePools(topo.conf, rules, partition).value)
      ensures r.Ok? ==> KeysGained(old(topo.pools), topo.pools, IrulePools(topo.conf, rules, partition).value)
      ensures r.Err? ==> r.error == IrulePools(topo.conf, rules, partition).error
    {
      var i := 0;
      while i < |rules|
        invariant 0 <= i <= |rules|
        invariant topo.Valid() && pools <= topo.pools.Keys
        invariant Extends(old(topo.pools), topo.pools) && topo.dataGroup == old(topo.dataGroup)
        invariant IrulePools(topo.conf, rules[..i], partition).Ok?
        invariant pools == old(pools) + IrulePools(topo.conf, rules[..i], partition).value
        invariant KeysGained(old(topo.pools), topo.pools, IrulePools(topo.conf, rules[..i], partition).value)
      {
        assert rules[..i + 1][..i] == rules[..i];
        ghost var before := topo.pools;
        var step := ScanRule(topo, rules[i]);
        ExtendsTransitive(old(topo.pools), before, topo.pools);
        if step.Err? {
          IrulePoolsErrPersists(topo.conf, rules, i + 1, partition);
          return Err(step.error);
        }
        KeysGainedChain(old(topo.pools), before, topo.pools,
          IrulePools(topo.conf, rules[..i], partition).value, RulePools(topo.conf, rules[i], partition).value);
        i := i + 1;
      }
      assert rules[..i] == rules;
      r := Ok(());
    }

    /** `_look_for_proxypass`: with a `proxypass` rule attached, merge in `DATAGROUP`'s pools for this IP. */
    method LookForProxypass(dataGroup: map<string, set<PoolKey>>) returns (r: Result<(), Fault>)
      modifies this`pools
      ensures r.Ok? <==> WantsProxypass(rules).Ok?
      ensures r.Ok? ==>
        pools == old(pools) + (if WantsProxypass(rules).value && ipaddr in dataGroup then dataGroup[ipaddr] else {})
      ensures r.Err? ==> r.error == WantsProxypass(rules).error && pools == old(pools)
    {
      var doit := false;
      var i := 0;
      while i < |rules|
        invariant 0 <= i <= |rules|
        invariant WantsProxypass(rules[..i]) == Ok(doit)
      {
        assert rules[..i + 1][..i] == rules[..i];
        var rule := rules[i];
        if Count(rule, '/') <= 2 {
          var parsed := RuleKey(rule);
          if parsed.Err? {
            WantsProxypassErrPersists(rules, i + 1);
            return Err(parsed.error);
          }
          var key := parsed.value;
          if Contains(key.1, "proxypass") {
            doit := true;
          }
        }
        i := i + 1;
      }
      assert rules[..i] == rules;
      if doit && ipaddr in dataGroup {
        pools := pools + dataGroup[ipaddr];
      }
      r := Ok(());
    }

    /** `self.pools.add(pool_from_name(self.vs.pool, self.partition))` when the server has a default pool. */
    method AddDefaultPool(topo: Topology, rec: VsRecord) returns (r: Result<(), Fault>)
      requires topo.Valid() && pools == {}
      modifies this`pools, topo
      ensures topo.Valid() && pools <= topo.pools.Keys
      ensures Extends(old(topo.pools), topo.pools) && topo.dataGroup == old(topo.dataGroup)
      ensures r.Ok? <==> DefaultPools(topo.conf, rec).Ok?
      ensures r.Ok? ==> View() == old(View()).(pools := DefaultPools(topo.conf, rec).value)
      ensures r.Ok? ==> KeysGained(old(topo.pools), topo.pools, DefaultPools(topo.conf, rec).value)
      ensures r.Err? ==> topo.pools == old(topo.pools)
      ensures r.Err? ==> r.error == DefaultPools(topo.conf, rec).error
    {
      if rec.pool.Some? {
        var res := topo.PoolFromName(rec.pool.value, rec.partition);
        if res.Err? {
          return Err(res.error);
        }
        pools := {res.value};
      }
      r := Ok(());
    }

    /** The part of the constructor that registers pools: the default pool, then `_look_for_pools_in_irules`. */
    method CollectPools(topo: Topology, rec: VsRecord) returns (r: Result<(), Fault>)
      requires topo.Valid() && pools == {} && partition == rec.partition
      modifies this`pools, this`rules, topo
      ensures topo.Valid() && pools <= topo.pools.Keys
      ensures Extends(old(topo.pools), topo.pools) && topo.dataGroup == old(topo.dataGroup)
      ensures r.Ok? <==> NamedPools(topo.conf, rec).Ok?
      ensures r.Ok? ==> View() == old(View()).(pools := NamedPools(topo.conf, rec).value, rules := RulesOf(rec))
      ensures r.Ok? ==> KeysGained(old(topo.pools), topo.pools, NamedPools(topo.conf, rec).value)
      ensures r.Err? ==> r.error == NamedPools(topo.conf, rec).error
    {
      ghost var before := topo.pools;
      r := AddDefaultPool(topo, rec);
      rules := RulesOf(rec);
      if r.Err? || rec.rules.None? {
        return;
      }
      ghost var middle := topo.pools;
      r := LookForPoolsInIrules(topo);
      ExtendsTransitive(before, middle, topo.pools);
      if r.Ok? {
        KeysGainedChain(before, middle, topo.pools, DefaultPools(topo.conf, rec).value, IrulePools(topo.conf, rules, partition).value);
      }
    }

    /** The end of the constructor: description, `enabled`, `_parse_profiles` and `_look_for_proxypass`. */
    method Finish(conf: Config, dataGroup: map<string, set<PoolKey>>, rec: VsRecord) returns (r: Result<(), Fault>)
      modifies this`description, this`enabled, this`sslClient, this`sslServer, this`pools
      ensures r.Ok? <==> Finished(old(View()), conf, dataGroup, rec).Ok?
      ensures r.Ok? ==> View() == Finished(old(View()), conf, dataGroup, rec).value
      ensures r.Err? ==> r.error == Finished(old(View()), conf, dataGroup, rec).error
    {
      description := rec.description;
      enabled := if rec.enabled.Some? then rec.enabled.value else false;
      ParseProfiles(conf, rec.profiles);
      r := LookForProxypass(dataGroup);
    }

    /** `VirtualServer(vs)`: resolve the record `rec`, registering the pools it references. */
    static method Resolve(topo: Topology, rec: VsRecord) returns (r: Result<VirtualServer, Fault>)
      requires topo.Valid()
      modifies topo
      ensures topo.Valid()
      ensures Extends(old(topo.pools), topo.pools) && topo.dataGroup == old(topo.dataGroup)
      ensures r.Ok? <==> ResolveSpec(topo.conf, old(topo.dataGroup), rec).Ok?
      ensures r.Ok? ==> fresh(r.value) && r.value.View() == ResolveSpec(topo.conf, old(topo.dataGroup), rec).value
      ensures r.Ok? ==> r.value.pools <= topo.pools.Keys
      ensures r.Ok? ==> KeysGained(old(topo.pools), topo.pools, r.value.pools)
      ensures r.Err? ==> r.error == ResolveSpec(topo.conf, old(topo.dataGroup), rec).error
    {
      var dest :- ParseDestination(rec.destination);
      r := Build(topo, rec, dest);
    }

    /** The constructor after `parse_destination` has returned `dest`. */
    static method Build(topo: Topology, rec: VsRecord, dest: Endpoint) returns (r: Result<VirtualServer, Fault>)
      requires topo.Valid()
      modifies topo
      ensures topo.Valid()
      ensures Extends(old(topo.pools), topo.pools) && topo.dataGroup == old(topo.dataGroup)
      ensures r.Ok? <==> Assemble(topo.conf, old(topo.dataGroup), rec, dest).Ok?
      ensures r.Ok? ==> fresh(r.value)
      ensures r.Ok? ==> r.value.pools <= topo.pools.Keys
      ensures r.Ok? ==> KeysGained(old(topo.pools), topo.pools, r.value.pools)
      ensures r.Ok? ==> r.value.View() == Assemble(topo.conf, old(topo.dataGroup), rec, dest).value
      ensures r.Err? ==> r.error == Assemble(topo.conf, old(topo.dataGroup), rec, dest).error
    {
      var vs := new VirtualServer(rec.name, rec.partition, dest.ip, dest.port);
      var snat := SnatOf(rec.sourceAddressTranslation);
      if snat.Err? {
        return Err(snat.error);
      }
      vs.snat := snat.value;
      ghost var known := ProxypassCandidates(topo.dataGroup, dest.ip);
      assert known <= topo.pools.Keys;
      var collected := vs.CollectPools(topo, rec);
      if collected.Err? {
        return Err(collected.error);
      }
      ghost var named := vs.View();
      assert named == VsView(rec.name, rec.partition, dest.ip, dest.port, false, false, None, snat.value,
        NamedPools(topo.conf, rec).value, RulesOf(rec), false);
      ghost var registered := topo.pools;
      var finished := vs.Finish(topo.conf, topo.dataGroup, rec);
      if finished.Err? {
        return Err(finished.error);
      }
      assert vs.View() == Finished(named, topo.conf, topo.dataGroup, rec).value;
      FinishedPoolsWithin(named, topo.conf, topo.dataGroup, rec);
      assert KeysGained(old(topo.pools), registered, named.pools);
      KeysGainedWithin(old(topo.pools), topo.pools, named.pools, known, vs.pools);
      r := Ok(vs);
    }
  }

  /** The pools `_look_for_proxypass` may merge in for `ip`. */
  function ProxypassCandidates(dataGroup: map<string, set<PoolKey>>, ip: string): set<PoolKey> {
    if ip in dataGroup then dataGroup[ip] else {}
  }

  /** The end of the constructor adds to the collected pools only proxypass candidates. */
  lemma FinishedPoolsWithin(v: VsView, conf: Config, dataGroup: map<string, set<PoolKey>>, rec: VsRecord)
    requires Finished(v, conf, dataGroup, rec).Ok?
    ensures v.pools <= Finished(v, conf, dataGroup, rec).value.pools <= v.pools + ProxypassCandidates(dataGroup, v.ipaddr)
  {
  }

  lemma UnionAssoc(a: set<PoolKey>, b: set<PoolKey>, c: set<PoolKey>)
    ensures a + b + c == a + (b + c)
  {
  }

  lemma TokenPoolsStep(conf: Config, names: seq<string>, j: nat, partition: string)
    requires j < |names|
    ensures TokenPools(conf, names[..j + 1], partition) ==
      (var prev :- TokenPools(conf, names[..j], partition); AddResolved(prev, PoolResult(conf, names[j], partition)))
  {
    assert names[..j + 1][..j] == names[..j];
  }

  lemma {:induction false} TokenPoolsErrPersists(conf: Config, names: seq<string>, j: nat, partition: string)
    requires j <= |names| && TokenPools(conf, names[..j], partition).Err?
    ensures TokenPools(conf, names, partition) == TokenPools(conf, names[..j], partition)
    decreases |names|
  {
    if j < |names| {
      var front := names[..|names| - 1];
      assert front[..j] == names[..j];
      TokenPoolsErrPersists(conf, front, j, partition);
    } else {
      assert names[..j] == names;
    }
  }

  lemma {:induction false} IrulePoolsErrPersists(conf: Config, rules: seq<string>, i: nat, partition: string)
    requires i <= |rules| && IrulePools(conf, rules[..i], partition).Err?
    ensures IrulePools(conf, rules, partition) == IrulePools(conf, rules[..i], partition)
    decreases |rules|
  {
    if i < |rules| {
      var front := rules[..|rules| - 1];
      assert front[..i] == rules[..i];
      IrulePoolsErrPersists(conf, front, i, partition);
    } else {
      assert rules[..i] == rules;
    }
  }

  lemma {:induction false} WantsProxypassErrPersists(rules: seq<string>, i: nat)
    requires i <= |rules| && WantsProxypass(rules[..i]).Err?
    ensures WantsProxypass(rules) == WantsProxypass(rules[..i])
    decreases |rules|
  {
    if i < |rules| {
      var front := rules[..|rules| - 1];
      assert front[..i] == rules[..i];
      WantsProxypassErrPersists(front, i);
    } else {
      assert rules[..i] == rules;
    }
  }

  /** The pools one iRule's names contribute are exactly the loadable pools those names resolve to. */
  lemma {:induction false} TokenPoolsExact(conf: Config, names: seq<string>, partition: string)
    requires TokenPools(conf, names, partition).Ok?
    ensures forall k :: k in TokenPools(conf, names, partition).value <==>
      exists i | 0 <= i < |names| :: PoolResult(conf, names[i], partition) == Ok(k)
    decreases |names|
  {
    if names != [] {
      var front := names[..|names| - 1];
      TokenPoolsExact(conf, front, partition);
      forall k
        ensures k in TokenPools(conf, names, partition).value <==>
          exists i | 0 <= i < |names| :: PoolResult(conf, names[i], partition) == Ok(k)
      {
        if exists i | 0 <= i < |front| :: PoolResult(conf, front[i], partition) == Ok(k) {
          var i :| 0 <= i < |front| && PoolResult(conf, front[i], partition) == Ok(k);
          assert names[i] == front[i];
        }
        if exists i | 0 <= i < |names| :: PoolResult(conf, names[i], partition) == Ok(k) {
          var i :| 0 <= i < |names| && PoolResult(conf, names[i], partition) == Ok(k);
          if i < |front| {
            assert front[i] == names[i];
          }
        }
      }
    }
  }

  /** One iRule's names abort the scan exactly when one of them is a qualified name that does not split into three pieces. */
  lemma {:induction false} TokenPoolsFails(conf: Config, names: seq<string>, partition: string)
    ensures TokenPools(conf, names, partition).Err? <==> exists i | 0 <= i < |names| :: ResolveKey(names[i], partition).Err?
    decreases |names|
  {
    if names != [] {
      var front := names[..|names| - 1];
      TokenPoolsFails(conf, front, partition);
      if exists i | 0 <= i < |front| :: ResolveKey(front[i], partition).Err? {
        var i :| 0 <= i < |front| && ResolveKey(front[i], partition).Err?;
        assert names[i] == front[i];
      }
      if exists i | 0 <= i < |names| :: ResolveKey(names[i], partition).Err? {
        var i :| 0 <= i < |names| && ResolveKey(names[i], partition).Err?;
        if i < |front| {
          assert front[i] == names[i];
        }
      }
    }
  }

  /** A successful iRule scan has every attached rule succeed. */
  lemma {:induction false} IrulePoolsEach(conf: Config, rules: seq<string>, partition: string)
    requires IrulePools(conf, rules, partition).Ok?
    ensures forall i | 0 <= i < |rules| :: RulePools(conf, rules[i], partition).Ok?
    decreases |rules|
  {
    if rules != [] {
      var front := rules[..|rules| - 1];
      IrulePoolsEach(conf, front, partition);
      assert forall i | 0 <= i < |front| :: front[i] == rules[i];
    }
  }

  /** Rule `rule` is scanned without fault and contributes pool `k`. */
  predicate Contributes(conf: Config, rule: string, partition: string, k: PoolKey) {
    RulePools(conf, rule, partition).Ok? && k in RulePools(conf, rule, partition).value
  }

  /** The pools the iRules contribute are exactly those some attached rule contributes. */
  lemma {:induction false} IrulePoolsExact(conf: Config, rules: seq<string>, partition: string)
    requires IrulePools(conf, rules, partition).Ok?
    ensures forall k :: k in IrulePools(conf, rules, partition).value <==>
      exists i | 0 <= i < |rules| :: Contributes(conf, rules[i], partition, k)
    decreases |rules|
  {
    if rules != [] {
      var front := rules[..|rules| - 1];
      var last := rules[|rules| - 1];
      IrulePoolsExact(conf, front, partition);
      var earlier := IrulePools(conf, front, partition).value;
      var more := RulePools(conf, last, partition).value;
      assert IrulePools(conf, rules, partition).value == earlier + more;
      forall k
        ensures k in earlier + more <==> exists i | 0 <= i < |rules| :: Contributes(conf, rules[i], partition, k)
      {
        if k in earlier {
          var i :| 0 <= i < |front| && Contributes(conf, front[i], partition, k);
          assert rules[i] == front[i];
        } else if k in more {
          assert Contributes(conf, rules[|rules| - 1], partition, k);
        } else {
          forall i | 0 <= i < |rules| ensures !Contributes(conf, rules[i], partition, k) {
            if i < |front| {
              assert front[i] == rules[i];
            }
          }
        }
      }
    }
  }

  /** The iRule scan fails exactly when one attached rule fails: a malformed or missing rule, or a malformed pool name in its text. */
  lemma {:induction false} IrulePoolsFails(conf: Config, rules: seq<string>, partition: string)
    ensures IrulePools(conf, rules, partition).Err? <==> exists i | 0 <= i < |rules| :: RulePools(conf, rules[i], partition).Err?
    decreases |rules|
  {
    if rules != [] {
      var front := rules[..|rules| - 1];
      IrulePoolsFails(conf, front, partition);
      if exists i | 0 <= i < |front| :: RulePools(conf, front[i], partition).Err? {
        var i :| 0 <= i < |front| && RulePools(conf, front[i], partition).Err?;
        assert rules[i] == front[i];
      }
      if exists i | 0 <= i < |rules| :: RulePools(conf, rules[i], partition).Err? {
        var i :| 0 <= i < |rules| && RulePools(conf, rules[i], partition).Err?;
        if i < |front| {
          assert front[i] == rules[i];
        }
      }
    }
  }

  /** One rule fails exactly when it is scanned and its id is malformed, it does not load, or its text names a malformed pool. */
  lemma RulePoolsFails(conf: Config, rule: string, partition: string)
    ensures RulePools(conf, rule, partition).Err? <==>
      && ScannedRule(rule)
      && (|| RuleKey(rule).Err?
          || RuleKey(rule).value !in conf.rules
          || exists i | 0 <= i < |PoolNames(conf.rules[RuleKey(rule).value])| ::
               ResolveKey(PoolNames(conf.rules[RuleKey(rule).value])[i], partition).Err?)
  {
    if ScannedRule(rule) && RuleKey(rule).Ok? && RuleKey(rule).value in conf.rules {
      TokenPoolsFails(conf, PoolNames(conf.rules[RuleKey(rule).value]), partition);
    }
  }

  /**
   * `_look_for_proxypass` splits the same rule ids `_look_for_pools_in_irules`
   * split before it, so once the iRule scan has succeeded it cannot fail;
   * its verdict is whether some scanned rule's name holds `proxypass`.
   */
  lemma {:induction false} WantsProxypassIff(conf: Config, rules: seq<string>, partition: string)
    ensures WantsProxypass(rules).Err? <==> exists i | 0 <= i < |rules| :: ScannedRule(rules[i]) && RuleKey(rules[i]).Err?
    ensures IrulePools(conf, rules, partition).Ok? ==> WantsProxypass(rules).Ok?
    ensures WantsProxypass(rules).Ok? ==> (WantsProxypass(rules).value <==>
      exists i | 0 <= i < |rules| :: ScannedRule(rules[i]) && RuleKey(rules[i]).Ok? && Contains(RuleKey(rules[i]).value.1, "proxypass"))
    decreases |rules|
  {
    if rules != [] {
      var front := rules[..|rules| - 1];
      var last := rules[|rules| - 1];
      WantsProxypassIff(conf, front, partition);
      assert forall i | 0 <= i < |front| :: front[i] == rules[i];
      if exists i | 0 <= i < |rules| :: ScannedRule(rules[i]) && RuleKey(rules[i]).Err? {
        var i :| 0 <= i < |rules| && ScannedRule(rules[i]) && RuleKey(rules[i]).Err?;
        if i < |front| {
          assert front[i] == rules[i];
        }
      }
      if WantsProxypass(rules).Ok? && exists i | 0 <= i < |rules| :: ScannedRule(rules[i]) && RuleKey(rules[i]).Ok? && Contains(RuleKey(rules[i]).value.1, "proxypass") {
        var i :| 0 <= i < |rules| && ScannedRule(rules[i]) && RuleKey(rules[i]).Ok? && Contains(RuleKey(rules[i]).value.1, "proxypass");
        if i < |front| {
          assert front[i] == rules[i];
        }
      }
    }
  }

  /** A rule id with more than two `/` (an iApp rule) changes neither scan, wherever it sits. */
  lemma SkippedRuleNeutral(conf: Config, before: seq<string>, rule: string, after: seq<string>, partition: string)
    requires !ScannedRule(rule)
    ensures IrulePools(conf, before + [rule] + after, partition) == IrulePools(conf, before + after, partition)
    ensures WantsProxypass(before + [rule] + after) == WantsProxypass(before + after)
  {
    SkippedRuleAddsNothing(conf, before, rule, after, partition);
    SkippedRuleAsksNothing(before, rule, after);
  }

  lemma {:induction false} SkippedRuleAddsNothing(conf: Config, before: seq<string>, rule: string, after: seq<string>, partition: string)
    requires !ScannedRule(rule)
    ensures IrulePools(conf, before + [rule] + after, partition) == IrulePools(conf, before + after, partition)
    decreases |after|
  {
    var whole := before + [rule] + after;
    if after == [] {
      assert whole[..|whole| - 1] == before && whole[|whole| - 1] == rule;
      assert before + after == before;
      var prev := IrulePools(conf, before, partition);
      assert prev.Ok? ==> prev.value + {} == prev.value;
    } else {
      var front := after[..|after| - 1];
      assert whole[..|whole| - 1] == before + [rule] + front;
      assert (before + after)[..|before + after| - 1] == before + front;
      SkippedRuleAddsNothing(conf, before, rule, front, partition);
    }
  }

  lemma {:induction false} SkippedRuleAsksNothing(before: seq<string>, rule: string, after: seq<string>)
    requires !ScannedRule(rule)
    ensures WantsProxypass(before + [rule] + after) == WantsProxypass(before + after)
    decreases |after|
  {
    var whole := before + [rule] + after;
    if after == [] {
      assert whole[..|whole| - 1] == before && whole[|whole| - 1] == rule;
      assert before + after == before;
    } else {
      var front := after[..|after| - 1];
      assert whole[..|whole| - 1] == before + [rule] + front;
      assert (before + after)[..|before + after| - 1] == before + front;
      SkippedRuleAsksNothing(before, rule, front);
    }
  }

  /** Every pool a rule contributes is one the configuration holds. */
  lemma RulePoolsLoaded(conf: Config, rule: string, partition: string)
    requires RulePools(conf, rule, partition).Ok?
    ensures RulePools(conf, rule, partition).value <= conf.pools.Keys
  {
    if ScannedRule(rule) {
      var names := PoolNames(conf.rules[RuleKey(rule).value]);
      TokenPoolsExact(conf, names, partition);
      forall k | k in RulePools(conf, rule, partition).value ensures k in conf.pools {
        var i :| 0 <= i < |names| && PoolResult(conf, names[i], partition) == Ok(k);
      }
    }
  }

  /** The default pool and the iRule pools are all pools the configuration holds. */
  lemma NamedPoolsLoaded(conf: Config, rec: VsRecord)
    requires NamedPools(conf, rec).Ok?
    ensures NamedPools(conf, rec).value <= conf.pools.Keys
  {
    var rules := RulesOf(rec);
    IrulePoolsExact(conf, rules, rec.partition);
    forall k | k in IrulePools(conf, rules, rec.partition).value ensures k in conf.pools {
      var i :| 0 <= i < |rules| && Contributes(conf, rules[i], rec.partition, k);
      RulePoolsLoaded(conf, rules[i], rec.partition);
    }
  }

  /**
   * The constructor fails exactly when the destination does not parse, a
   * `snat` translation names no pool, the default pool does not load or
   * has a malformed name, or one attached rule fails; `_look_for_proxypass`
   * never adds a fault of its own.
   */
  lemma ResolveFails(conf: Config, dataGroup: map<string, set<PoolKey>>, rec: VsRecord)
    ensures ResolveSpec(conf, dataGroup, rec).Err? <==>
      || ParseDestination(rec.destination).Err?
      || SnatOf(rec.sourceAddressTranslation).Err?
      || (rec.pool.Some? && PoolResult(conf, rec.pool.value, rec.partition).Err?)
      || exists i | 0 <= i < |RulesOf(rec)| :: RulePools(conf, RulesOf(rec)[i], rec.partition).Err?
  {
    IrulePoolsFails(conf, RulesOf(rec), rec.partition);
    WantsProxypassIff(conf, RulesOf(rec), rec.partition);
  }

  /**
   * What a constructed server holds: the parsed destination, the record's
   * name, partition, description and rules, `enabled` only when the record
   * says so, its SNAT, the default pool and every pool an attached rule
   * contributes, the proxypass pools of its address when a rule asks for
   * them, and no other pool.
   */
  lemma ResolvedView(conf: Config, dataGroup: map<string, set<PoolKey>>, rec: VsRecord)
    requires ResolveSpec(conf, dataGroup, rec).Ok?
    ensures var v := ResolveSpec(conf, dataGroup, rec).value;
      && ParseDestination(rec.destination) == Ok(Endpoint(v.ipaddr, v.port))
      && v.name == rec.name && v.partition == rec.partition
      && v.description == rec.description && v.rules == RulesOf(rec)
      && v.enabled == (rec.enabled == Some(true))
      && SnatOf(rec.sourceAddressTranslation) == Ok(v.snat)
      && v.sslClient == Flag(rec.profiles, "clientside", conf.clientSsl, false)
      && v.sslServer == Flag(rec.profiles, "serverside", conf.serverSsl, false)
      && (rec.pool.Some? ==> PoolResult(conf, rec.pool.value, rec.partition).Ok? &&
                             PoolResult(conf, rec.pool.value, rec.partition).value in v.pools)
      && (forall i | 0 <= i < |v.rules| :: RulePools(conf, v.rules[i], rec.partition).Ok? &&
                                            RulePools(conf, v.rules[i], rec.partition).value <= v.pools)
      && (WantsProxypass(v.rules) == Ok(true) && v.ipaddr in dataGroup ==> dataGroup[v.ipaddr] <= v.pools)
      && (forall k | k in v.pools :: k in conf.pools || (v.ipaddr in dataGroup && k in dataGroup[v.ipaddr]))
      && (forall k :: k in v.pools <==>
            || (rec.pool.Some? && PoolResult(conf, rec.pool.value, rec.partition) == Ok(k))
            || (exists i | 0 <= i < |v.rules| :: Contributes(conf, v.rules[i], rec.partition, k))
            || (WantsProxypass(v.rules) == Ok(true) && v.ipaddr in dataGroup && k in dataGroup[v.ipaddr]))
  {
    var rules := RulesOf(rec);
    var named := NamedPools(conf, rec).value;
    NamedPoolsLoaded(conf, rec);
    IrulePoolsEach(conf, rules, rec.partition);
    IrulePoolsExact(conf, rules, rec.partition);
    forall i | 0 <= i < |rules| ensures RulePools(conf, rules[i], rec.partition).value <= named {
      forall k | k in RulePools(conf, rules[i], rec.partition).value ensures k in named {
        assert Contributes(conf, rules[i], rec.partition, k);
      }
    }
  }

  /** A server with neither a default pool nor iRules has no pools. */
  lemma BareServerHasNoPools(conf: Config, dataGroup: map<string, set<PoolKey>>, rec: VsRecord)
    requires ResolveSpec(conf, dataGroup, rec).Ok?
    requires rec.pool.None? && rec.rules.None?
    ensures ResolveSpec(conf, dataGroup, rec).value.pools == {}
  {
    ResolvedView(conf, dataGroup, rec);
  }

}
