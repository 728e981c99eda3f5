/** Values exchanged by the bridge: the HTTP bodies, the fields the MQTT
    handlers read from a parsed payload, and the messages the backend
    publishes. JSON text and ISO-8601 strings are not modelled: a timestamp
    is already a number of milliseconds, and a field that JavaScript would
    read as `undefined` is `None`. */
module Messages {

  datatype Option<+T> = None | Some(value: T)

  /** A string-valued field that may be `undefined`. */
  type JsString = Option<string>

  /** How JavaScript renders a possibly-undefined string inside a template literal. */
  function JsText(s: JsString): string {
    match s
    case None => "undefined"
    case Some(v) => v
  }

  /** The instant an optional timestamp field stands for: the one it gives,
      or the current time when it is absent or falsy. */
  function EffectiveTimestamp(timestamp: Option<int>, now: int): (r: int)
    ensures timestamp.Some? ==> r == timestamp.value
    ensures timestamp.None? ==> r == now
  {
    match timestamp
    case Some(t) => t
    case None => now
  }

  /** The two device states accepted by `@IsIn(['on', 'off'])`. */
  predicate ValidEstado(estado: string) {
    estado == "on" || estado == "off"
  }

  /** Body of `POST api/dispositivo`. `timestamp` is `None` when the field is
      absent or falsy (the empty string), otherwise the instant it denotes. */
  datatype DispositivoDto = DispositivoDto(dispositivo: string, estado: string, timestamp: Option<int>)

  /** The fields of a device state report that the service reads. The
      payload object is passed as it was parsed, so `estado` is not checked. */
  datatype EstadoDispositivoDto = EstadoDispositivoDto(estado: JsString, timestamp: Option<int>)

  /** The properties an inbound handler reads from a parsed, non-null JSON
      value (for a value that is not an object every property is undefined). */
  datatype Inbound = Inbound(estado: JsString, timestamp: Option<int>, esp32Id: JsString)

  /** The two payload kinds the backend publishes. */
  datatype OutPayload =
    | Comando(estado: string, timestamp: int, origen: string)
    | Status(mensaje: string, timestamp: int, servidor: string)

  /** One call of the MQTT client's `publish`. */
  datatype Publication = Publication(topic: string, payload: OutPayload, qos: nat)
}
