/** `DispositivoController`: the HTTP endpoints under `api`. Request bodies
    reach it already validated by the global validation pipe, and an error is
    an `HttpError` carrying the status code the response would have. */
module Controller {
  import opened Messages
  import opened Registry
  import opened Dispositivo
  import opened Mqtt
  import opened Services

  /** An `HttpException`: its message and its status. An empty message and a
      zero status stand for the falsy (missing) ones. */
  datatype HttpError = HttpError(message: string, status: nat)

  datatype Result<T> = Ok(value: T) | Err(error: HttpError)

  const SERVICE_UNAVAILABLE: nat := 503
  const BAD_REQUEST: nat := 400
  const INTERNAL_SERVER_ERROR: nat := 500

  /** The exception the `catch` of `controlarDispositivo` throws for a caught
      `error`: its message and status, each replaced by the generic one when
      falsy. */
  function Rethrow(e: HttpError): (r: HttpError)
    ensures r.message == e.message <==> e.message != "" || e.message == "Error interno del servidor"
    ensures r.message == "Error interno del servidor" <==> e.message in {"", "Error interno del servidor"}
    ensures r.status == e.status <==> e.status != 0 || e.status == INTERNAL_SERVER_ERROR
    ensures r.status == INTERNAL_SERVER_ERROR <==> e.status in {0, INTERNAL_SERVER_ERROR}
  {
    HttpError(if e.message == "" then "Error interno del servidor" else e.message,
              if e.status == 0 then INTERNAL_SERVER_ERROR else e.status)
  }

  /** Rethrowing an exception that already has a message and a status changes
      nothing, so rethrowing twice is rethrowing once. */
  lemma RethrowIdempotent(e: HttpError)
    ensures Rethrow(Rethrow(e)) == Rethrow(e)
    ensures e.message != "" && e.status != 0 ==> Rethrow(e) == e
  {
  }

  /** The body of `POST api/dispositivo/test/:estado`. */
  datatype TestResponse = TestResponse(success: bool, mensaje: string, timestamp: int)

  /** The body of `GET api/health`; of the `mqtt` object only `connected` is kept. */
  datatype HealthResponse = HealthResponse(
    status: string, timestamp: int, service: string, mqttConnected: bool,
    esp32s: nat, estadoFoco: JsString)

  function TestMensaje(estado: string): (r: string)
    ensures |r| == 25 + |estado| && r[..25] == "Comando de test enviado: " && r[25..] == estado
  {
    "Comando de test enviado: " + estado
  }

  class DispositivoController {
    const dispositivoService: DispositivoService
    const mqttService: MqttService

    /** Both injected services are the application's singletons, so the
        device service publishes through the same MQTT service. */
    ghost predicate Valid()
      reads this, dispositivoService
    {
      dispositivoService.mqttService == mqttService && dispositivoService.Valid()
    }

    constructor (dispositivoService: DispositivoService, mqttService: MqttService)
      requires dispositivoService.mqttService == mqttService
      ensures this.dispositivoService == dispositivoService && this.mqttService == mqttService
    {
      this.dispositivoService := dispositivoService;
      this.mqttService := mqttService;
    }

    /** `POST api/dispositivo`: refuse with 503 while the broker is not
        connected, and change nothing; otherwise the service handles the
        command and its response is returned. `now` and `nowPub` are the
        service's two clock readings. */
    method ControlarDispositivo(dto: DispositivoDto, now: int, nowPub: int) returns (r: Result<ControlResponse>)
      requires Valid() && ValidEstado(dto.estado)
      modifies dispositivoService, mqttService`published
      ensures Valid()
      ensures r.Err? <==> !old(mqttService.connected)
      ensures r.Err? ==> r.error == HttpError("Servidor MQTT no disponible", SERVICE_UNAVAILABLE)
      ensures r.Err? ==> dispositivoService.State() == old(dispositivoService.State())
                         && mqttService.published == old(mqttService.published)
      ensures r.Ok? ==> && dispositivoService.State() == ApplyCommand(old(dispositivoService.State()), dto, now)
                        && mqttService.published == old(mqttService.published) + [ComandoMessage(dto.estado, dto.timestamp, nowPub)]
                        && r.value.success && r.value.mensaje == MensajeFoco(dto.estado)
                        && r.value.estado == Some(dto.estado)
                        && r.value.timestamp == EffectiveTimestamp(dto.timestamp, now)
                        && r.value.esp32sConectados == |old(dispositivoService.esp32sConectados)|
                        && r.value.mqttConnected
    {
      var connected := mqttService.IsConnected();
      if !connected {
        r := Err(Rethrow(HttpError("Servidor MQTT no disponible", SERVICE_UNAVAILABLE)));
      } else {
        var resultado := dispositivoService.ControlarDispositivo(dto, now, nowPub);
        r := Ok(resultado);
      }
    }

    /** `GET api/dispositivo/estado`. */
    method GetEstadoDispositivo() returns (r: EstadoResponse)
      ensures r.estado == dispositivoService.estadoActual
      ensures r.timestamp == dispositivoService.ultimaActualizacion
      ensures r.esp32sConectados == |dispositivoService.esp32sConectados|
    {
      r := dispositivoService.GetEstadoDispositivo();
    }

    /** `GET api/dispositivo/estadisticas`. */
    method GetEstadisticas() returns (r: Estadisticas)
      requires Valid()
      ensures r.estadoFoco == dispositivoService.estadoActual
      ensures r.ultimaActualizacion == dispositivoService.ultimaActualizacion
      ensures r.totalESP32s == |dispositivoService.esp32sConectados| == |r.esp32sConectados|
      ensures forall k :: k in r.esp32sConectados <==> k in dispositivoService.esp32sConectados
      ensures Distinct(r.esp32sConectados)
      ensures r.mqttConnected == mqttService.connected
    {
      r := dispositivoService.GetEstadisticas();
    }

    /** `GET api/health` at `now`: always `ok`, with the connection flag, the
        number of registered devices and the stored value. */
    method GetHealth(now: int) returns (r: HealthResponse)
      requires Valid()
      ensures r.status == "ok" && r.timestamp == now && r.service == "Dispositivo Controller MQTT"
      ensures r.mqttConnected == mqttService.connected
      ensures r.esp32s == |dispositivoService.esp32sConectados|
      ensures r.estadoFoco == dispositivoService.estadoActual
    {
      var stats := dispositivoService.GetEstadisticas();
      var connected := mqttService.IsConnected();
      r := HealthResponse("ok", now, "Dispositivo Controller MQTT", connected, stats.totalESP32s, stats.estadoFoco);
    }

    /** `POST api/dispositivo/test/:estado`: a value other than `on` or `off`
        is refused with 400 and nothing is sent; otherwise the command is
        published directly, without touching the stored state and without
        checking the connection. The command carries the clock reading
        `nowPub`, the response the later reading `now`. */
    method TestComando(estado: string, nowPub: int, now: int) returns (r: Result<TestResponse>)
      modifies mqttService`published
      ensures r.Err? <==> !ValidEstado(estado)
      ensures r.Err? ==> r.error == HttpError("Estado debe ser \"on\" o \"off\"", BAD_REQUEST)
                         && mqttService.published == old(mqttService.published)
      ensures r.Ok? ==> && mqttService.published == old(mqttService.published) + [ComandoMessage(estado, None, nowPub)]
                        && r.value == TestResponse(true, TestMensaje(estado), now)
    {
      if !(estado == "on" || estado == "off") {
        r := Err(HttpError("Estado debe ser \"on\" o \"off\"", BAD_REQUEST));
      } else {
        mqttService.EnviarComandoAESP32(estado, None, nowPub);
        r := Ok(TestResponse(true, TestMensaje(estado), now));
      }
    }
  }
}
