/** The protocol side of `MqttService`: the topic table, the payloads the
    backend publishes, and how an inbound message is routed. The client
    itself (connecting, subscribing, publishing) is the class in module
    Services; here everything is a value. */
module Mqtt {
  import opened Messages

  const TOPIC_COMANDO: string := "casa/foco/comando"      // backend to device
  const TOPIC_ESTADO: string := "casa/foco/estado"        // device to backend
  const TOPIC_HEARTBEAT: string := "casa/foco/heartbeat"  // device to backend
  const TOPIC_STATUS: string := "casa/foco/status"        // backend to device

  /** Every publish and every subscription uses quality of service 0. */
  const QOS: nat := 0

  /** The topics subscribed after each successful connect. */
  function Subscriptions(): (r: seq<string>)
    ensures forall t :: t in r <==> t == TOPIC_ESTADO || t == TOPIC_HEARTBEAT
    ensures TOPIC_COMANDO !in r && TOPIC_STATUS !in r
    ensures |r| == 2
  {
    [TOPIC_ESTADO, TOPIC_HEARTBEAT]
  }

  /** The publication `enviarComandoAESP32(estado, timestamp)` makes at `now`. */
  function ComandoMessage(estado: string, timestamp: Option<int>, now: int): (r: Publication)
    ensures r.topic == TOPIC_COMANDO && r.payload.Comando? && r.payload.estado == estado
    ensures r.payload.timestamp == EffectiveTimestamp(timestamp, now)
  {
    Publication(TOPIC_COMANDO, Comando(estado, EffectiveTimestamp(timestamp, now), "backend"), QOS)
  }

  /** The publication `enviarStatus(mensaje)` makes at `now`. */
  function StatusMessage(mensaje: string, now: int): (r: Publication)
    ensures r.topic == TOPIC_STATUS && r.payload.Status? && r.payload.mensaje == mensaje
    ensures r.payload.timestamp == now
  {
    Publication(TOPIC_STATUS, Status(mensaje, now, "nestjs"), QOS)
  }

  /** What an inbound message asks of the device service. */
  datatype Delivery =
    | ReportState(dto: EstadoDispositivoDto, esp32Id: string)
    | RegisterHeartbeat(key: JsString)
    | Ignore

  /** `esp32Id || 'unknown'`. */
  function OrUnknown(esp32Id: JsString): (r: string)
    ensures r == "unknown" <==> esp32Id in {None, Some(""), Some("unknown")}
    ensures esp32Id.Some? && esp32Id.value != "" ==> r == esp32Id.value
  {
    match esp32Id
    case Some(id) => if id == "" then "unknown" else id
    case None => "unknown"
  }

  /** `handleEstadoMessage`: the payload itself is the state report. */
  function EstadoDelivery(p: Inbound): (r: Delivery)
    ensures r.ReportState? && r.dto.estado == p.estado && r.dto.timestamp == p.timestamp
    ensures r.esp32Id == OrUnknown(p.esp32Id)
  {
    ReportState(EstadoDispositivoDto(p.estado, p.timestamp), OrUnknown(p.esp32Id))
  }

  /** `handleHeartbeatMessage`: the id is registered as it came. */
  function HeartbeatDelivery(p: Inbound): (r: Delivery)
    ensures r.RegisterHeartbeat? && r.key == p.esp32Id
  {
    RegisterHeartbeat(p.esp32Id)
  }

  /** `handleMqttMessage`: `parsed` is `None` when the payload did not parse
      (or parsed to `null`, which the handlers fail on); otherwise the switch
      on the topic picks a handler, and an unknown topic falls through. */
  function Dispatch(topic: string, parsed: Option<Inbound>): (r: Delivery)
    ensures parsed.None? ==> r == Ignore
    ensures r.ReportState? <==> parsed.Some? && topic == TOPIC_ESTADO
    ensures r.RegisterHeartbeat? <==> parsed.Some? && topic == TOPIC_HEARTBEAT
  {
    match parsed
    case None => Ignore
    case Some(p) =>
      if topic == TOPIC_ESTADO then EstadoDelivery(p)
      else if topic == TOPIC_HEARTBEAT then HeartbeatDelivery(p)
      else Ignore
  }

  // ---------------------------------------------------------------------
  // Properties of the routing and of the payloads

  /** A message is acted on exactly when it parsed and came on a subscribed topic. */
  lemma DispatchMatchesSubscriptions(topic: string, parsed: Option<Inbound>)
    ensures Dispatch(topic, parsed) != Ignore <==> parsed.Some? && topic in Subscriptions()
  {
  }

  /** A state report is handed on with its own `estado` and `timestamp`, and
      with its `esp32Id`, or `"unknown"` when that is missing or empty. */
  lemma EstadoRoute(p: Inbound)
    ensures Dispatch(TOPIC_ESTADO, Some(p)) == ReportState(EstadoDispositivoDto(p.estado, p.timestamp), OrUnknown(p.esp32Id))
    ensures p.esp32Id == None ==> Dispatch(TOPIC_ESTADO, Some(p)).esp32Id == "unknown"
  {
  }

  /** A heartbeat registers its `esp32Id` with no default, `undefined` included. */
  lemma HeartbeatRoute(p: Inbound)
    ensures Dispatch(TOPIC_HEARTBEAT, Some(p)) == RegisterHeartbeat(p.esp32Id)
  {
  }

  /** Messages on the outbound topics are never acted on, even if the broker
      delivers them. */
  lemma OutboundTopicsIgnored(parsed: Option<Inbound>)
    ensures Dispatch(TOPIC_COMANDO, parsed) == Ignore && Dispatch(TOPIC_STATUS, parsed) == Ignore
  {
  }

  /** The command payload carries the value, the given time or else now, and
      `origen == "backend"`, on the command topic. */
  lemma ComandoShape(estado: string, timestamp: Option<int>, now: int)
    ensures var m := ComandoMessage(estado, timestamp, now);
            && m.topic == TOPIC_COMANDO && m.qos == 0 && m.payload.Comando?
            && m.payload.estado == estado && m.payload.origen == "backend"
            && m.payload.timestamp == (if timestamp.Some? then timestamp.value else now)
  {
  }

  /** The status payload carries the message, now, and `servidor == "nestjs"`,
      on the status topic. */
  lemma StatusShape(mensaje: string, now: int)
    ensures var m := StatusMessage(mensaje, now);
            && m.topic == TOPIC_STATUS && m.qos == 0 && m.payload.Status?
            && m.payload.mensaje == mensaje && m.payload.timestamp == now && m.payload.servidor == "nestjs"
  {
  }
}
