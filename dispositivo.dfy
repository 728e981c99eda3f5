/** What `DispositivoService` remembers and how each of its operations changes
    it, as functions on a value. The class in module Services keeps the same
    three fields and is proved to follow these functions. */
module Dispositivo {
  import opened Messages
  import opened Registry

  /** `estadoActual`, `ultimaActualizacion` (milliseconds) and the heartbeat
      registry `esp32sConectados` with its key order. */
  datatype DeviceState = DeviceState(
    estadoActual: JsString,
    ultimaActualizacion: int,
    esp32sConectados: map<DeviceKey, int>,
    orden: seq<DeviceKey>)

  ghost predicate Consistent(st: DeviceState) {
    WellFormed(st.orden, st.esp32sConectados)
  }

  /** The field initialisers, evaluated when the service is built at `now`. */
  function Initial(now: int): (r: DeviceState)
    ensures Consistent(r) && r.esp32sConectados == map[]
  {
    DeviceState(Some("off"), now, map[], [])
  }

  /** `controlarDispositivo`: the command's value and time overwrite the stored ones. */
  function ApplyCommand(st: DeviceState, dto: DispositivoDto, now: int): (r: DeviceState)
    ensures r.estadoActual == Some(dto.estado)
    ensures r.esp32sConectados == st.esp32sConectados && r.orden == st.orden
    ensures Consistent(st) ==> Consistent(r)
  {
    st.(estadoActual := Some(dto.estado), ultimaActualizacion := EffectiveTimestamp(dto.timestamp, now))
  }

  /** `actualizarEstadoDesdeESP32`: the report's value and time overwrite the
      stored ones, with no comparison against the stored time. */
  function ApplyReport(st: DeviceState, dto: EstadoDispositivoDto, now: int): (r: DeviceState)
    ensures r.estadoActual == dto.estado
    ensures r.esp32sConectados == st.esp32sConectados && r.orden == st.orden
    ensures Consistent(st) ==> Consistent(r)
  {
    st.(estadoActual := dto.estado, ultimaActualizacion := EffectiveTimestamp(dto.timestamp, now))
  }

  /** `registrarESP32`: `esp32sConectados.set(id, now)`. */
  function Register(st: DeviceState, id: DeviceKey, now: int): (r: DeviceState)
    ensures r.esp32sConectados.Keys == st.esp32sConectados.Keys + {id}
    ensures r.esp32sConectados[id] == now
    ensures r.estadoActual == st.estadoActual && r.ultimaActualizacion == st.ultimaActualizacion
  {
    st.(esp32sConectados := st.esp32sConectados[id := now], orden := SetOrden(st.orden, id))
  }

  /** `limpiarESP32sInactivos`: delete every entry older than the timeout. */
  function Sweep(st: DeviceState, now: int): (r: DeviceState)
    ensures r.esp32sConectados.Keys <= st.esp32sConectados.Keys
    ensures r.estadoActual == st.estadoActual && r.ultimaActualizacion == st.ultimaActualizacion
  {
    st.(esp32sConectados := Survivors(st.esp32sConectados, now),
        orden := Drop(st.orden, InactiveKeys(st.esp32sConectados, now)))
  }

  /** The `mensaje` of a command response. */
  function MensajeFoco(estado: string): (r: string)
    ensures r == "Foco encendido" <==> estado == "on"
    ensures r == "Foco apagado" <==> estado != "on"
  {
    "Foco " + (if estado == "on" then "encendido" else "apagado")
  }

  /** The status acknowledgement sent for a state report. */
  function AckMensaje(estado: JsString, esp32Id: string): (r: string)
    ensures |r| == 7 + |JsText(estado)| + 18 + |esp32Id|
    ensures r[..7] == "Estado " && r[7..7 + |JsText(estado)|] == JsText(estado)
    ensures r[7 + |JsText(estado)|..|r| - |esp32Id|] == " confirmado desde "
    ensures r[|r| - |esp32Id|..] == esp32Id
  {
    "Estado " + JsText(estado) + " confirmado desde " + esp32Id
  }

  /** The object `controlarDispositivo` returns. */
  datatype ControlResponse = ControlResponse(
    success: bool, mensaje: string, estado: JsString, timestamp: int,
    esp32sConectados: nat, mqttConnected: bool)

  /** The object `actualizarEstadoDesdeESP32` returns. */
  datatype ReportResponse = ReportResponse(success: bool, mensaje: string, estado: JsString)

  /** The object `getEstadoDispositivo` returns. */
  datatype EstadoResponse = EstadoResponse(estado: JsString, timestamp: int, esp32sConectados: nat)

  /** The object `getEstadisticas` returns; of `mqttService.getStats()` only
      the connectivity flag is kept. */
  datatype Estadisticas = Estadisticas(
    estadoFoco: JsString, ultimaActualizacion: int, esp32sConectados: seq<DeviceKey>,
    totalESP32s: nat, mqttConnected: bool)

  // ---------------------------------------------------------------------
  // Properties of the operations

  /** The service starts switched off with an empty registry. */
  lemma InitialState(now: int)
    ensures Initial(now).estadoActual == Some("off")
    ensures Initial(now).ultimaActualizacion == now
    ensures |Initial(now).esp32sConectados| == 0 && Consistent(Initial(now))
  {
  }

  /** A command sets the value and its time, and leaves the registry alone. */
  lemma CommandEffect(st: DeviceState, dto: DispositivoDto, now: int)
    ensures ApplyCommand(st, dto, now).estadoActual == Some(dto.estado)
    ensures ApplyCommand(st, dto, now).ultimaActualizacion == (if dto.timestamp.Some? then dto.timestamp.value else now)
    ensures ApplyCommand(st, dto, now).esp32sConectados == st.esp32sConectados
    ensures ApplyCommand(st, dto, now).orden == st.orden
  {
  }

  /** A report sets the value and its time whatever the stored time is, and
      leaves the registry alone. */
  lemma ReportEffect(st: DeviceState, dto: EstadoDispositivoDto, now: int)
    ensures ApplyReport(st, dto, now).estadoActual == dto.estado
    ensures ApplyReport(st, dto, now).ultimaActualizacion == (if dto.timestamp.Some? then dto.timestamp.value else now)
    ensures ApplyReport(st, dto, now).esp32sConectados == st.esp32sConectados
    ensures ApplyReport(st, dto, now).orden == st.orden
  {
  }

  /** Writes are applied in arrival order: whatever was written before, the
      last command or report alone decides value and time. */
  lemma LastArrivalWins(st: DeviceState, dto: EstadoDispositivoDto, cmd: DispositivoDto, now1: int, now2: int)
    ensures ApplyCommand(ApplyReport(st, dto, now1), cmd, now2) == ApplyCommand(st, cmd, now2)
    ensures ApplyReport(ApplyCommand(st, cmd, now1), dto, now2) == ApplyReport(st, dto, now2)
  {
  }

  /** A report stamped earlier than the stored time still replaces the value
      and moves the stored time back: writes are not ordered by timestamp. */
  lemma StaleReportOverwrites()
    ensures var st := ApplyCommand(Initial(0), DispositivoDto("foco", "on", Some(0)), 0);
            var st' := ApplyReport(st, EstadoDispositivoDto(Some("off"), Some(-5)), 1);
            st.estadoActual == Some("on") && st'.estadoActual == Some("off") &&
            st'.ultimaActualizacion < st.ultimaActualizacion
  {
  }

  /** `registrarESP32` is an upsert: the id maps to now, every other entry is
      kept, the registry grows by one exactly when the id is new, and the
      device value is untouched. */
  lemma RegisterUpsert(st: DeviceState, id: DeviceKey, now: int)
    requires Consistent(st)
    ensures var st' := Register(st, id, now);
            && Consistent(st')
            && id in st'.esp32sConectados && st'.esp32sConectados[id] == now
            && (forall k :: k != id ==> (k in st'.esp32sConectados <==> k in st.esp32sConectados))
            && (forall k :: k != id && k in st.esp32sConectados ==> st'.esp32sConectados[k] == st.esp32sConectados[k])
            && |st'.esp32sConectados| == (if id in st.esp32sConectados then |st.esp32sConectados| else |st.esp32sConectados| + 1)
            && st'.estadoActual == st.estadoActual && st'.ultimaActualizacion == st.ultimaActualizacion
  {
    SetWellFormed(st.orden, st.esp32sConectados, id, now);
  }

  /** A sweep removes exactly the entries older than the timeout (an entry
      exactly at the limit stays), keeps the survivors' times, and leaves the
      device value alone. */
  lemma SweepEffect(st: DeviceState, now: int)
    requires Consistent(st)
    ensures var st' := Sweep(st, now);
            && Consistent(st')
            && (forall k :: k in st'.esp32sConectados <==> k in st.esp32sConectados && now - st.esp32sConectados[k] <= INACTIVITY_TIMEOUT_MS)
            && (forall k :: k in st'.esp32sConectados ==> st'.esp32sConectados[k] == st.esp32sConectados[k])
            && st'.estadoActual == st.estadoActual && st'.ultimaActualizacion == st.ultimaActualizacion
  {
    SweepWellFormed(st.orden, st.esp32sConectados, now);
  }

  /** A later sweep subsumes an earlier one, and sweeping twice at the same
      time changes nothing more. */
  lemma SweepLater(st: DeviceState, t1: int, t2: int)
    requires t1 <= t2
    ensures Sweep(Sweep(st, t1), t2) == Sweep(st, t2)
  {
    var m := st.esp32sConectados;
    var i1 := InactiveKeys(m, t1);
    var i2 := InactiveKeys(Survivors(m, t1), t2);
    SurvivorsLater(m, t1, t2);
    DropTwice(st.orden, i1, i2);
    assert i1 + i2 == InactiveKeys(m, t2);
  }

  /** Without a sweep the registry only grows: after any run of heartbeats
      every id registered before is still there. */
  lemma {:induction false} HeartbeatsOnlyGrow(st: DeviceState, ids: seq<DeviceKey>, times: seq<int>)
    requires |ids| == |times|
    ensures st.esp32sConectados.Keys <= RegisterAll(st, ids, times).esp32sConectados.Keys
    decreases |ids|
  {
    if ids != [] {
      HeartbeatsOnlyGrow(Register(st, ids[0], times[0]), ids[1..], times[1..]);
    }
  }

  /** A run of heartbeats, the `i`-th from `ids[i]` at `times[i]`. */
  function RegisterAll(st: DeviceState, ids: seq<DeviceKey>, times: seq<int>): DeviceState
    requires |ids| == |times|
    decreases |ids|
  {
    if ids == [] then st else RegisterAll(Register(st, ids[0], times[0]), ids[1..], times[1..])
  }

  /** A device that has just sent a heartbeat survives a sweep at that time. */
  lemma RegisteredSurvivesSweep(st: DeviceState, id: DeviceKey, now: int)
    ensures id in Sweep(Register(st, id, now), now).esp32sConectados
  {
  }

  /** The registry's key list is as long as the registry is large. */
  lemma ListedCount(st: DeviceState)
    requires Consistent(st)
    ensures |st.orden| == |st.esp32sConectados|
  {
    WellFormedSize(st.orden, st.esp32sConectados);
  }

  /** Heartbeats from one device at 0 s and 100 s: a sweep at 150 s keeps it,
      a sweep at 401 s removes it. */
  lemma HeartbeatExpiry(st0: DeviceState)
    requires st0.esp32sConectados == map[]
    ensures var st := Register(Register(st0, Some("esp32-1"), 0), Some("esp32-1"), 100000);
            |Sweep(st, 150000).esp32sConectados| == 1 && |Sweep(st, 401000).esp32sConectados| == 0
  {
    var st := Register(Register(st0, Some("esp32-1"), 0), Some("esp32-1"), 100000);
    assert st.esp32sConectados == map[Some("esp32-1") := 100000];
    assert Sweep(st, 150000).esp32sConectados == st.esp32sConectados;
    assert Sweep(st, 401000).esp32sConectados == map[];
  }
}
