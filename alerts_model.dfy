/**
 * The parts of the alerting service's definitions that the alerter reads:
 * a trigger, which owns conditions and can be disabled, and its conditions,
 * of which only external ones carry a DSL expression.
 */
module AlertsModel {
  import opened Results

  datatype Trigger = Trigger(
    id: string,
    name: string,
    tenantId: string,
    source: string,
    enabled: bool)

  /** A condition evaluated outside the alerting engine; `expression` may be absent (null). */
  datatype ExternalCondition = ExternalCondition(
    conditionId: string,
    alerterId: string,
    dataId: string,
    expression: Option<string>)

  /** Every other kind of condition (threshold, availability, ...) is opaque here. */
  datatype Condition =
    | External(external: ExternalCondition)
    | NonExternal(conditionId: string)
}
