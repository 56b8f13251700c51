/**
 * The configuration the resolver reads from the appliance, as plain values.
 * Each `load` of the REST API becomes a lookup in one of these maps or sets:
 * a missing key is the 404 (`iControlUnexpectedHTTPError`) the real call
 * raises. Name resolution (`gethostbyname`) is the `dns` map, whose missing
 * keys are the hostnames that fail to resolve.
 */
module Appliance {
  import opened Wrappers

  /** A pool's `(partition, name)`; the key `pool_from_name` returns. */
  type PoolKey = (string, string)

  /** What `pools.pool.load` and its `stats.load()` report for one pool. */
  datatype PoolRecord = PoolRecord(members: seq<string>, availability: string, state: string)

  /** One record of an internal data group; `data` is absent when the record has no such key. */
  datatype DgRecord = DgRecord(name: string, data: Option<string>)

  /** An internal data group; `records` is absent when the group has no `records` attribute. */
  datatype DataGroup = DataGroup(name: string, partition: string, records: Option<seq<DgRecord>>)

  /** A profile attached to a virtual server (`profiles_s`): its name, partition and `context`. */
  datatype ProfileRef = ProfileRef(name: string, partition: string, context: string)

  /**
   * A virtual server as the API returns it. Attributes the API omits when
   * unset (`pool`, `rules`, `description`, `enabled`) are options.
   */
  datatype VsRecord = VsRecord(
    name: string,
    partition: string,
    destination: string,
    sourceAddressTranslation: map<string, string>,
    pool: Option<string>,
    rules: Option<seq<string>>,
    description: Option<string>,
    enabled: Option<bool>,
    profiles: seq<ProfileRef>
  )

  datatype Config = Config(
    pools: map<PoolKey, PoolRecord>,        // pools.pool.load(partition, name)
    rules: map<(string, string), string>,   // rules.rule.load(partition, name).apiAnonymous
    clientSsl: set<(string, string)>,       // client_ssls.client_ssl.load succeeds
    serverSsl: set<(string, string)>,       // server_ssls.server_ssl.load succeeds
    dns: map<string, string>,               // gethostbyname(hostname)
    dataGroups: seq<DataGroup>              // data_group.internals.get_collection()
  )
}
