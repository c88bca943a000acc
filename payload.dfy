/**
 * The incident body built by `PagerDutyNotification._get_pagerduty_payload`:
 * a fixed PagerDuty Events API v2 "trigger" event whose only variable part is
 * the routing key read from the application configuration. Serialisation
 * to JSON text is not modelled; the body is a record.
 */
module PagerDutyPayload {
  import opened Wrappers
  import opened Json

  /** The value the application configuration holds under the routing-key
      setting: something `json.dumps` can encode, or something it rejects. */
  datatype Setting = Serialisable(value: Value) | Unserialisable

  datatype CustomDetails = CustomDetails(
    alarmName: string,
    description: string,
    env: string,
    businessUnit: string,
    pod: string,
    team: string,
    metric: string,
    metricValue: string,
    app: string)

  /** The inner "payload" object of the event. */
  datatype EventDetails = EventDetails(
    summary: string,
    source: string,
    severity: string,
    group: string,
    eventClass: string,
    component: string,
    customDetails: CustomDetails)

  datatype Image = Image(src: string, href: string, alt: string)

  datatype Link = Link(href: string, text: string)

  /** The whole request body. */
  datatype Payload = Payload(
    payload: EventDetails,
    routingKey: Value,
    dedupKey: string,
    images: seq<Image>,
    links: seq<Link>,
    eventAction: string,
    client: string,
    clientUrl: string)

  const Details: EventDetails := EventDetails(
    "CRITICAL - PROD - Data-Platform - NRT - ",
    "AppInternalAlert",
    "critical",
    "nrt",
    "ModelFailure",
    "prism-model",
    CustomDetails(
      "Failure",
      "description",
      "prod",
      "nrt-platform",
      "data-platform",
      "nrt",
      "meesho_metric",
      "meesho_value",
      "prism-model"))

  const DedupKey: string := "severity=critical,env=prod,bu=dp,pod=shared,team=bizops,service=NRT"

  const Images: seq<Image> := [
    Image(
      "https://www.pagerduty.com/wp-content/uploads/2016/05/pagerduty-logo-green.png",
      "https://example.com/",
      "Example text")
  ]

  const Links: seq<Link> := [Link("https://example.com/", "Link text")]

  const Client: string := "Superset"

  const ClientUrl: string := "https://di-prd-superset.meesho.com"

  /** The body for a given routing-key setting. `None` stands for the
      falsy sentinel the builder returns from its `except` branch: taken
      when the setting is absent (the lookup raises inside the `try`) or
      when its value cannot be serialised. */
  function BuildPayload(routingKey: Option<Setting>): (r: Option<Payload>)
    ensures r.Some? <==> routingKey.Some? && routingKey.value.Serialisable?
    ensures r.Some? ==> r.value.routingKey == routingKey.value.value
    ensures r.Some? ==> r.value.eventAction == "trigger"
    ensures r.Some? ==> r.value.dedupKey == DedupKey && r.value.client == Client
                        && r.value.payload.severity == "critical"
  {
    match routingKey
    case Some(Serialisable(key)) =>
      Some(Payload(Details, key, DedupKey, Images, Links, "trigger", Client, ClientUrl))
    case _ => None
  }

  /** Payloads that differ at most in their routing key. */
  predicate SameExceptRoutingKey(p: Payload, q: Payload) {
    p.(routingKey := q.routingKey) == q
  }

  /** Every field but the routing key is fixed: any two successful builds
      agree everywhere else, and they are equal exactly when the routing
      keys are. */
  lemma BuildPayloadFixedFields(k1: Value, k2: Value)
    ensures BuildPayload(Some(Serialisable(k1))).Some?
    ensures BuildPayload(Some(Serialisable(k2))).Some?
    ensures SameExceptRoutingKey(BuildPayload(Some(Serialisable(k1))).value,
                                 BuildPayload(Some(Serialisable(k2))).value)
    ensures BuildPayload(Some(Serialisable(k1))) == BuildPayload(Some(Serialisable(k2))) <==> k1 == k2
  {
  }
}
