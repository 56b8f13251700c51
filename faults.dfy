/**
 * The exceptions the topology resolver can raise, one constructor per way it
 * fails. `PoolNotFound` is the appliance's 404 (`iControlUnexpectedHTTPError`)
 * on a pool load, the only one some callers catch.
 */
module Faults {

  datatype Fault =
    | MalformedDestination(destination: string)   // IndexError from `findall(...)[0]`
    | MissingSnatPool                             // KeyError: a `type=snat` descriptor without `pool`
    | BadPoolName(poolname: string)               // ValueError unpacking `poolname.split('/')[1:]`
    | PoolNotFound(partition: string, name: string)
    | BadRuleId(rule: string)                     // ValueError unpacking `rule.split('/')[1:]`
    | RuleNotFound(partition: string, name: string)
    | MissingRecordData(group: string)            // KeyError: a data-group record without `data`
}
