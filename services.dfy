/** The two injectable services. They refer to each other (the MQTT service
    calls back into the device service on inbound messages, the device
    service publishes through the MQTT service), so they share one module. */
module Services {
  import opened Messages
  import opened Registry
  import opened Dispositivo
  import opened Mqtt

  /** `MqttService` with its MQTT client reduced to two observations: whether
      it is connected now, and the publishes issued so far. */
  class MqttService {
    /** `this.client && this.client.connected`; the client's connection
        events set it. */
    var connected: bool
    /** Every call of `this.client.publish`, oldest first. Whether the broker
        received it is not recorded: failures are only logged. */
    ghost var published: seq<Publication>
    /** Injected late by `setDispositivoService`. */
    var dispositivoService: DispositivoService?

    constructor ()
      ensures !connected && published == [] && dispositivoService == null
    {
      connected := false;
      published := [];
      dispositivoService := null;
    }

    method IsConnected() returns (c: bool)
      ensures c == connected
    {
      c := connected;
    }

    method SetDispositivoService(s: DispositivoService)
      modifies this`dispositivoService
      ensures dispositivoService == s
    {
      dispositivoService := s;
    }

    /** Publishes a command on the command topic; the device state is not touched. */
    method EnviarComandoAESP32(estado: string, timestamp: Option<int>, now: int)
      modifies this`published
      ensures published == old(published) + [ComandoMessage(estado, timestamp, now)]
    {
      published := published + [ComandoMessage(estado, timestamp, now)];
    }

    /** Publishes a status acknowledgement on the status topic. */
    method EnviarStatus(mensaje: string, now: int)
      modifies this`published
      ensures published == old(published) + [StatusMessage(mensaje, now)]
    {
      published := published + [StatusMessage(mensaje, now)];
    }

    /** The objects an inbound message may change. */
    ghost function Receivers(): set<object>
      reads this
    {
      if dispositivoService == null then {} else {dispositivoService, dispositivoService.mqttService}
    }

    /** The device service, once injected, is in a consistent state. */
    ghost predicate Ready()
      reads this, dispositivoService
    {
      dispositivoService != null ==> dispositivoService.Valid()
    }

    /** `handleEstadoMessage`; `now` and `nowAck` are the two clock readings
        of the state update and of the acknowledgement. */
    method HandleEstadoMessage(p: Inbound, now: int, nowAck: int)
      requires Ready()
      modifies Receivers()
      ensures dispositivoService == old(dispositivoService) && Ready()
      ensures dispositivoService != null ==> Delivered(dispositivoService, EstadoDelivery(p), now, nowAck)
    {
      if dispositivoService != null {
        var _ := dispositivoService.ActualizarEstadoDesdeESP32(EstadoDispositivoDto(p.estado, p.timestamp), OrUnknown(p.esp32Id), now, nowAck);
      }
    }

    /** `handleHeartbeatMessage`. */
    method HandleHeartbeatMessage(p: Inbound, now: int)
      requires Ready()
      modifies Receivers()
      ensures dispositivoService == old(dispositivoService) && Ready()
      ensures dispositivoService != null ==> Delivered(dispositivoService, HeartbeatDelivery(p), now, now)
    {
      if dispositivoService != null {
        dispositivoService.RegistrarESP32(p.esp32Id, now);
      }
    }

    /** `handleMqttMessage`: the one entry point for every inbound message.
        Before the device service is injected nothing changes at all. */
    method HandleMqttMessage(topic: string, parsed: Option<Inbound>, now: int, nowAck: int)
      requires Ready()
      modifies Receivers()
      ensures dispositivoService == old(dispositivoService) && Ready()
      ensures dispositivoService != null ==> Delivered(dispositivoService, Dispatch(topic, parsed), now, nowAck)
      ensures dispositivoService == null ==> published == old(published) && connected == old(connected)
    {
      match parsed {
        case None =>
        case Some(p) =>
          if topic == TOPIC_ESTADO {
            HandleEstadoMessage(p, now, nowAck);
          } else if topic == TOPIC_HEARTBEAT {
            HandleHeartbeatMessage(p, now);
          }
      }
    }
  }

  /** What handing `d` to the device service `s` did: its state and the
      publishes of its MQTT service changed as `d` demands, the connection
      and the wiring did not. `now` is the time the state update reads and
      `nowAck` the time the acknowledgement carries. */
  twostate predicate Delivered(s: DispositivoService, d: Delivery, now: int, nowAck: int)
    reads s, s.mqttService
  {
    && s.mqttService.connected == old(s.mqttService.connected)
    && s.mqttService.dispositivoService == old(s.mqttService.dispositivoService)
    && match d
       case Ignore =>
         s.State() == old(s.State()) && s.mqttService.published == old(s.mqttService.published)
       case ReportState(dto, id) =>
         && s.State() == ApplyReport(old(s.State()), dto, now)
         && s.mqttService.published == old(s.mqttService.published) + [StatusMessage(AckMensaje(dto.estado, id), nowAck)]
       case RegisterHeartbeat(key) =>
         s.State() == Register(old(s.State()), key, now) && s.mqttService.published == old(s.mqttService.published)
  }

  /** `DispositivoService`: the authoritative device value, its time, and the
      heartbeat registry. */
  class DispositivoService {
    var estadoActual: JsString
    var ultimaActualizacion: int
    var esp32sConectados: map<DeviceKey, int>
    /** The insertion order of `esp32sConectados`' keys. */
    var orden: seq<DeviceKey>
    const mqttService: MqttService

    ghost predicate Valid()
      reads this
    {
      WellFormed(orden, esp32sConectados)
    }

    function State(): DeviceState
      reads this
    {
      DeviceState(estadoActual, ultimaActualizacion, esp32sConectados, orden)
    }

    /** Built at `now`, the time the field initialiser `new Date()` reads. */
    constructor (mqttService: MqttService, now: int)
      ensures Valid() && State() == Initial(now) && this.mqttService == mqttService
    {
      estadoActual := Some("off");
      ultimaActualizacion := now;
      esp32sConectados := map[];
      orden := [];
      this.mqttService := mqttService;
    }

    /** `onModuleInit`: hands this service to the MQTT service. */
    method OnModuleInit()
      modifies mqttService`dispositivoService
      ensures mqttService.dispositivoService == this
    {
      mqttService.SetDispositivoService(this);
    }

    /** `controlarDispositivo`: store the command, publish it once, and report
        the new state. The clock is read twice: `now` for the stored time and
        `nowPub` for the published command. */
    method ControlarDispositivo(dto: DispositivoDto, now: int, nowPub: int) returns (r: ControlResponse)
      requires Valid()
      modifies this, mqttService`published
      ensures Valid() && State() == ApplyCommand(old(State()), dto, now)
      ensures mqttService.published == old(mqttService.published) + [ComandoMessage(dto.estado, dto.timestamp, nowPub)]
      ensures r.success && r.mensaje == MensajeFoco(dto.estado)
      ensures r.estado == estadoActual && r.timestamp == ultimaActualizacion
      ensures r.esp32sConectados == |esp32sConectados| && r.mqttConnected == mqttService.connected
    {
      estadoActual := Some(dto.estado);
      ultimaActualizacion := EffectiveTimestamp(dto.timestamp, now);
      mqttService.EnviarComandoAESP32(dto.estado, dto.timestamp, nowPub);
      var connected := mqttService.IsConnected();
      r := ControlResponse(true, MensajeFoco(dto.estado), estadoActual, ultimaActualizacion,
                           |esp32sConectados|, connected);
    }

    /** `getEstadoDispositivo`: a snapshot; nothing changes. */
    method GetEstadoDispositivo() returns (r: EstadoResponse)
      ensures r.estado == estadoActual && r.timestamp == ultimaActualizacion
      ensures r.esp32sConectados == |esp32sConectados|
    {
      r := EstadoResponse(estadoActual, ultimaActualizacion, |esp32sConectados|);
    }

    /** `actualizarEstadoDesdeESP32`: overwrite the state with the report, and
        acknowledge it once. `now` is the clock reading for the stored time,
        `nowAck` the one for the acknowledgement. */
    method ActualizarEstadoDesdeESP32(dto: EstadoDispositivoDto, esp32Id: string, now: int, nowAck: int) returns (r: ReportResponse)
      requires Valid()
      modifies this, mqttService`published
      ensures Valid() && State() == ApplyReport(old(State()), dto, now)
      ensures mqttService.published == old(mqttService.published) + [StatusMessage(AckMensaje(dto.estado, esp32Id), nowAck)]
      ensures r == ReportResponse(true, "Estado actualizado correctamente", estadoActual)
    {
      estadoActual := dto.estado;
      ultimaActualizacion := EffectiveTimestamp(dto.timestamp, now);
      mqttService.EnviarStatus(AckMensaje(dto.estado, esp32Id), nowAck);
      r := ReportResponse(true, "Estado actualizado correctamente", estadoActual);
    }

    /** `registrarESP32`: upsert the heartbeat time. */
    method RegistrarESP32(esp32Id: DeviceKey, now: int)
      requires Valid()
      modifies this`esp32sConectados, this`orden
      ensures Valid() && State() == Register(old(State()), esp32Id, now)
    {
      SetWellFormed(orden, esp32sConectados, esp32Id, now);
      if esp32Id !in esp32sConectados {
        orden := orden + [esp32Id];
      }
      esp32sConectados := esp32sConectados[esp32Id := now];
    }

    /** `esp32sConectados.delete(id)`, one step of the sweep below; the sweep's
        loop invariant, not `Valid()`, describes the state around it. */
    method Delete(id: DeviceKey)
      modifies this`esp32sConectados, this`orden
      ensures esp32sConectados == old(esp32sConectados) - {id}
      ensures orden == Drop(old(orden), {id})
    {
      esp32sConectados := esp32sConectados - {id};
      orden := Drop(orden, {id});
    }

    /** After visiting the first `i` keys of the order `o0` of `m0`, the
        inactive ones among them, and only those, have been deleted. */
    ghost predicate Visited(o0: seq<DeviceKey>, m0: map<DeviceKey, int>, now: int, i: nat)
      reads this
    {
      && i <= |o0|
      && esp32sConectados == m0 - InactiveAmong(o0[..i], m0, now)
      && orden == Drop(o0, InactiveAmong(o0[..i], m0, now))
    }

    /** One iteration of the sweep: the entry at place `i` is deleted when its
        heartbeat is older than the timeout. */
    method VisitEntry(ghost o0: seq<DeviceKey>, ghost m0: map<DeviceKey, int>, now: int, ghost i: nat, id: DeviceKey)
      requires WellFormed(o0, m0) && i < |o0| && id == o0[i] && Visited(o0, m0, now, i)
      modifies this`esp32sConectados, this`orden
      ensures Visited(o0, m0, now, i + 1)
    {
      SweepStep(o0, m0, now, i, esp32sConectados, orden);
      var ultimoHeartbeat := esp32sConectados[id];
      if now - ultimoHeartbeat > INACTIVITY_TIMEOUT_MS {
        Delete(id);
      }
    }

    /** `limpiarESP32sInactivos`: visit the entries in order and delete each
        one whose heartbeat is older than the timeout. */
    method LimpiarESP32sInactivos(now: int)
      requires Valid()
      modifies this`esp32sConectados, this`orden
      ensures Valid() && State() == Sweep(old(State()), now)
    {
      ghost var m0, o0 := esp32sConectados, orden;
      var entries := orden;
      var i := 0;
      assert InactiveAmong(entries[..0], m0, now) == {};
      DropAbsent(o0, {});
      while i < |entries|
        invariant 0 <= i <= |entries| && Visited(o0, m0, now, i)
        invariant estadoActual == old(estadoActual) && ultimaActualizacion == old(ultimaActualizacion)
      {
        VisitEntry(o0, m0, now, i, entries[i]);
        i := i + 1;
      }
      assert entries[..i] == o0;
      InactiveAmongAll(o0, m0, now);
    }

    /** `getEstadisticas`: a snapshot listing the registered ids in insertion
        order; nothing changes. */
    method GetEstadisticas() returns (r: Estadisticas)
      requires Valid()
      ensures r.estadoFoco == estadoActual && r.ultimaActualizacion == ultimaActualizacion
      ensures r.totalESP32s == |esp32sConectados| == |r.esp32sConectados|
      ensures forall k :: k in r.esp32sConectados <==> k in esp32sConectados
      ensures Distinct(r.esp32sConectados)
      ensures r.mqttConnected == mqttService.connected
    {
      WellFormedSize(orden, esp32sConectados);
      var connected := mqttService.IsConnected();
      r := Estadisticas(estadoActual, ultimaActualizacion, orden, |esp32sConectados|, connected);
    }
  }

  /** The command a device receives names the value the service stored. Its
      time is the stored one when the request gave a timestamp; without one,
      the stored time and the published time are two clock readings, and they
      agree exactly when the readings do. */
  lemma CommandAgreesWithState(st: DeviceState, dto: DispositivoDto, now: int, nowPub: int)
    ensures var m := ComandoMessage(dto.estado, dto.timestamp, nowPub);
            var st' := ApplyCommand(st, dto, now);
            && st'.estadoActual == Some(m.payload.estado)
            && (st'.ultimaActualizacion == m.payload.timestamp <==> dto.timestamp.Some? || now == nowPub)
  {
  }
}
