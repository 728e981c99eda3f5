# Light-switch bridge: device service, MQTT service and HTTP controller

This project models the core of a NestJS backend. The backend turns voice-assistant commands into MQTT messages for an ESP32-driven light ("foco"). It keeps three things:

- the authoritative on/off value (`estadoActual`);
- the time of its last update (`ultimaActualizacion`);
- a heartbeat registry (`esp32sConectados`), a JavaScript `Map` from device id to last-heartbeat time.

Commands arrive over HTTP (`POST api/dispositivo`) and go out on the topic `casa/foco/comando`. Devices report their state on `casa/foco/estado` and get an acknowledgement on `casa/foco/status`. They announce themselves on `casa/foco/heartbeat`.

Modules:

- `Messages` (messages.dfy): the request bodies, the payload fields the handlers read, and the published messages. An absent timestamp, or a falsy one (the empty string), is `None`; a present one is already a number of milliseconds. A string field JavaScript would read as `undefined` is `None`.
- `Registry` (registry.dfy): the heartbeat `Map` as a Dafny `map` plus the key order a `Map` keeps (`set` on a new key appends it, `delete` removes it). The five-minute timeout is here, along with the sweep's set algebra.
- `Dispositivo` (dispositivo.dfy): the service state as a value, one function per state change, the response records, and the lemmas about them.
- `Mqtt` (mqtt.dfy): the topic table, the builders of the command and status payloads, and the routing of an inbound message.
- `Services` (services.dfy): the two injectable services as classes. `MqttService` keeps a `connected` flag, a ghost log `published` of every publish it issued, and the late-injected device service. `DispositivoService` has the source's fields and is proved to follow the functions of `Dispositivo`. The two source files import each other, so both classes share one module.
- `Controller` (controller.dfy): `DispositivoController` with its connectivity guard, its value check on the test endpoint and its health report.

The current time is a parameter (milliseconds) on every operation that reads the clock. Each clock reading is its own parameter. `controlarDispositivo` reads the clock once for the stored time (`now`) and once more inside the publish (`nowPub`). `actualizarEstadoDesdeESP32` does the same for the stored time (`now`) and the acknowledgement (`nowAck`).

## Model

| member | source | states |
|---|---|---|
| Messages.EffectiveTimestamp | src/dispositivo/dispositivo.service.ts:27 | the instant an optional timestamp stands for: the given one when present, otherwise the clock reading |
| Dispositivo.Initial | src/dispositivo/dispositivo.service.ts:8-12 | the state the field initialisers give: consistent, with an empty registry |
| Dispositivo.ApplyCommand | src/dispositivo/dispositivo.service.ts:26-27 | the reference effect of a command: the value becomes `dto.estado`; the registry and its order are unchanged, so consistency is kept |
| Dispositivo.ApplyReport | src/dispositivo/dispositivo.service.ts:59-60 | the reference effect of a report: the value becomes the report's (unchecked) estado; the registry and its order are unchanged, so consistency is kept |
| Dispositivo.Register | src/dispositivo/dispositivo.service.ts:76 | the reference effect of a heartbeat: the registered ids become the old ones plus the id, which maps to now; value and time untouched |
| Dispositivo.Sweep | src/dispositivo/dispositivo.service.ts:83-93 | the reference effect of a sweep: no id is added, and value and time are untouched |
| Dispositivo.HeartbeatsOnlyGrow | src/dispositivo/dispositivo.service.ts:75-80 | without a sweep, any run of heartbeats keeps every id registered before it |
| Dispositivo.InitialState | src/dispositivo/dispositivo.service.ts:8-12 | the service starts with value `off`, time = construction time, and an empty, consistent registry |
| Services.DispositivoService.constructor | src/dispositivo/dispositivo.service.ts:8-14 | the fields start as in `Initial(now)` and the registry order is well formed |
| Services.DispositivoService.OnModuleInit | src/dispositivo/dispositivo.service.ts:16-18 | afterwards the MQTT service holds this device service |
| Dispositivo.CommandEffect | src/dispositivo/dispositivo.service.ts:20-27 | a command sets the value to `dto.estado` and the time to the given timestamp or else now; the registry and its order are unchanged |
| Dispositivo.MensajeFoco | src/dispositivo/dispositivo.service.ts:34 | the message is "Foco encendido" exactly when estado is "on", and "Foco apagado" exactly otherwise |
| Services.DispositivoService.ControlarDispositivo | src/dispositivo/dispositivo.service.ts:20-40 | the new state is `ApplyCommand` of the old at the first clock reading; exactly one command publication, at the second reading, is appended; the response has success, the right message, the new value and time, the registry size, and the current connection flag |
| Services.CommandAgreesWithState | src/dispositivo/dispositivo.service.ts:26-30 | the published command carries the value that was stored; its time equals the stored time exactly when the request gave a timestamp or the two clock readings agree |
| Services.DispositivoService.GetEstadoDispositivo | src/dispositivo/dispositivo.service.ts:42-48 | returns the current value, time and registry size; changes nothing |
| Dispositivo.ReportEffect | src/dispositivo/dispositivo.service.ts:55-60 | a report sets value and time whatever the stored time is; the registry is unchanged |
| Dispositivo.AckMensaje | src/dispositivo/dispositivo.service.ts:63-65 | the acknowledgement is "Estado ", then the value's text (or "undefined"), then " confirmado desde ", then the device id; its length is fixed by those parts |
| Services.DispositivoService.ActualizarEstadoDesdeESP32 | src/dispositivo/dispositivo.service.ts:51-72 | the new state is `ApplyReport` of the old; exactly one status acknowledgement naming estado and id, at the second clock reading, is appended; the response is success with the new value |
| Dispositivo.LastArrivalWins | src/dispositivo/dispositivo.service.ts:26-27 | the last command or report alone decides value and time, whatever came before |
| Dispositivo.StaleReportOverwrites | src/dispositivo/dispositivo.service.ts:59-60 | a report stamped before the stored time still overwrites the value and moves the time back |
| Dispositivo.RegisterUpsert | src/dispositivo/dispositivo.service.ts:75-80 | after a heartbeat the id maps to now; other entries are unchanged; the size grows by one exactly when the id was new; the value and time are untouched; the order stays consistent |
| Services.DispositivoService.RegistrarESP32 | src/dispositivo/dispositivo.service.ts:75-76 | the new state is `Register` of the old and stays consistent |
| Services.DispositivoService.Delete | src/dispositivo/dispositivo.service.ts:89 | the key leaves the map and the order; nothing else changes |
| Services.DispositivoService.VisitEntry | src/dispositivo/dispositivo.service.ts:88-90 | one iteration: the entry at the current place is deleted exactly when it is inactive, so one more key of the order counts as visited |
| Services.DispositivoService.LimpiarESP32sInactivos | src/dispositivo/dispositivo.service.ts:83-93 | the loop over the entries in order, deleting while it iterates, ends in `Sweep(old state, now)` and keeps the order consistent |
| Dispositivo.SweepEffect | src/dispositivo/dispositivo.service.ts:84-91 | a sweep keeps exactly the entries with `now - last <= 300000` (one exactly at the limit stays) with their times; the value is untouched; the order stays consistent |
| Dispositivo.SweepLater | src/dispositivo/dispositivo.service.ts:83-93 | sweeping at t1 and then at t2 >= t1 is sweeping at t2; in particular sweeping twice at once is idempotent |
| Dispositivo.RegisteredSurvivesSweep | src/dispositivo/dispositivo.service.ts:76-88 | a device that just sent a heartbeat survives a sweep at that time |
| Dispositivo.HeartbeatExpiry | src/dispositivo/dispositivo.service.ts:76-91 | heartbeats at 0 s and 100 s: a sweep at 150 s keeps the device, one at 401 s removes it |
| Registry.Survivors | src/dispositivo/dispositivo.service.ts:87-91 | an entry survives exactly when its heartbeat is at most the timeout old, and keeps its time |
| Registry.Drop | src/dispositivo/dispositivo.service.ts:89 | the order after deletions holds exactly the keys not deleted, and is no longer than before |
| Registry.DropAppend | src/dispositivo/dispositivo.service.ts:89 | deletion filters a concatenation piece by piece, so the keys that remain keep their relative order |
| Registry.DropTwice | src/dispositivo/dispositivo.service.ts:87-91 | deleting one set of keys and then another equals deleting their union |
| Registry.SweepStep | src/dispositivo/dispositivo.service.ts:87-91 | one loop step: the visited key is still present with its original time, and deleting it when inactive (or keeping it) extends the visited prefix by one |
| Registry.InactiveAmongAll | src/dispositivo/dispositivo.service.ts:87-91 | after the whole order is visited, the deleted keys are exactly the inactive ones, what is left is the survivors, and the order is consistent |
| Registry.WellFormedSize | src/dispositivo/dispositivo.service.ts:100-101 | an order that lists each key once has as many entries as the map |
| Registry.SetWellFormed | src/dispositivo/dispositivo.service.ts:76 | `Map.set` keeps the order consistent with the map |
| Registry.DropDistinct | src/dispositivo/dispositivo.service.ts:89 | deleting keys never makes the order repeat a key |
| Registry.SurvivorsLater | src/dispositivo/dispositivo.service.ts:83-93 | the survivors of a later sweep of the survivors are the survivors of the later sweep |
| Dispositivo.ListedCount | src/dispositivo/dispositivo.service.ts:100-101 | the number of listed ids equals the registry size |
| Services.DispositivoService.GetEstadisticas | src/dispositivo/dispositivo.service.ts:96-104 | returns the value and time, the ids without repetition and exactly the registered ones, a total equal both to the registry size and to the list length, and the connection flag; changes nothing |
| Mqtt.Subscriptions | src/dispositivo/mqtt/mqtt.service.ts:122-125 | exactly the estado and heartbeat topics are subscribed, two topics in all, and neither the command nor the status topic is among them |
| Mqtt.ComandoMessage | src/dispositivo/mqtt/mqtt.service.ts:173-180 | the command goes on the command topic with the given estado and the effective timestamp |
| Mqtt.StatusMessage | src/dispositivo/mqtt/mqtt.service.ts:192-199 | the status goes on the status topic with the given message and the clock reading |
| Mqtt.EstadoDelivery | src/dispositivo/mqtt/mqtt.service.ts:156-162 | a state report hands on the payload's estado and timestamp, with the id or "unknown" |
| Mqtt.HeartbeatDelivery | src/dispositivo/mqtt/mqtt.service.ts:165-169 | a heartbeat registers the payload's id as it came |
| Mqtt.Dispatch | src/dispositivo/mqtt/mqtt.service.ts:138-153 | an unparsed payload is ignored; a report is delivered exactly for a parsed payload on the estado topic, a heartbeat exactly for one on the heartbeat topic |
| Services.Delivered | src/dispositivo/mqtt/mqtt.service.ts:142-169 | the effect of handing a delivery to the device service: the state changes as `ApplyReport` or `Register` say, or not at all; only a report publishes, one acknowledgement; connection and wiring stay |
| Mqtt.DispatchMatchesSubscriptions | src/dispositivo/mqtt/mqtt.service.ts:138-153 | a message is acted on exactly when its payload parsed and its topic is a subscribed one |
| Mqtt.OrUnknown | src/dispositivo/mqtt/mqtt.service.ts:160 | the id handed on is "unknown" exactly when the payload's id is missing, empty or literally "unknown"; otherwise it is the payload's id |
| Mqtt.EstadoRoute | src/dispositivo/mqtt/mqtt.service.ts:143-144 | a state report is handed on with its own estado and timestamp, and a missing id becomes "unknown" |
| Mqtt.HeartbeatRoute | src/dispositivo/mqtt/mqtt.service.ts:147-148 | a heartbeat registers the payload's id as it came, with no default |
| Mqtt.OutboundTopicsIgnored | src/dispositivo/mqtt/mqtt.service.ts:142-150 | messages on the command and status topics are never acted on |
| Mqtt.ComandoShape | src/dispositivo/mqtt/mqtt.service.ts:173-179 | a command goes on `casa/foco/comando` at QoS 0 with the given estado, the given timestamp or else now, and origin "backend" |
| Mqtt.StatusShape | src/dispositivo/mqtt/mqtt.service.ts:192-199 | a status goes on `casa/foco/status` at QoS 0 with the given message, now, and server "nestjs" |
| Services.MqttService.constructor | src/dispositivo/mqtt/mqtt.service.ts:11-14 | a fresh service is disconnected, has published nothing and has no device service |
| Services.MqttService.EnviarComandoAESP32 | src/dispositivo/mqtt/mqtt.service.ts:173-189 | exactly the command publication is appended to the log |
| Services.MqttService.EnviarStatus | src/dispositivo/mqtt/mqtt.service.ts:192-208 | exactly the status publication is appended to the log |
| Services.MqttService.SetDispositivoService | src/dispositivo/mqtt/mqtt.service.ts:211-213 | the device service reference is the one given |
| Services.MqttService.IsConnected | src/dispositivo/mqtt/mqtt.service.ts:216-218 | returns the connection flag |
| Services.MqttService.HandleEstadoMessage | src/dispositivo/mqtt/mqtt.service.ts:156-163 | once a device service is injected, the report is applied and acknowledged as `EstadoDelivery` demands; the wiring stays the same |
| Services.MqttService.HandleHeartbeatMessage | src/dispositivo/mqtt/mqtt.service.ts:165-170 | once a device service is injected, the id is registered and nothing is published |
| Services.MqttService.HandleMqttMessage | src/dispositivo/mqtt/mqtt.service.ts:138-154 | the device service changes as `Dispatch(topic, parsed)` says: an unparsed payload or another topic changes nothing; before injection nothing changes at all |
| Controller.Rethrow | src/dispositivo/dispositivo.controller.ts:43-46 | a caught error keeps its message and its status when they are set; each falls back to the generic one (500, "Error interno del servidor") exactly when missing |
| Controller.RethrowIdempotent | src/dispositivo/dispositivo.controller.ts:41-46 | rethrowing keeps an error that already has a message and a status, and rethrowing twice is rethrowing once |
| Controller.DispositivoController.ControlarDispositivo | src/dispositivo/dispositivo.controller.ts:26-48 | fails exactly when the broker is disconnected, then with 503 "Servidor MQTT no disponible", leaving the state and the log unchanged; otherwise it returns the service's result (state applied, one command published) |
| Controller.DispositivoController.GetEstadoDispositivo | src/dispositivo/dispositivo.controller.ts:50-53 | returns the service's snapshot |
| Controller.DispositivoController.constructor | src/dispositivo/dispositivo.controller.ts:21-24 | keeps the two injected services, which must be the wired pair |
| Controller.DispositivoController.GetEstadisticas | src/dispositivo/dispositivo.controller.ts:55-58 | returns the service's statistics with all of their guarantees: value, time, the exact duplicate-free id list, the total and the connection flag |
| Controller.DispositivoController.GetHealth | src/dispositivo/dispositivo.controller.ts:61-76 | status "ok", the time, the service name, the connection flag, the number of registered devices and the stored value; changes nothing |
| Controller.TestMensaje | src/dispositivo/dispositivo.controller.ts:89 | the test message is the 25-character prefix "Comando de test enviado: " followed by the estado |
| Controller.DispositivoController.TestComando | src/dispositivo/dispositivo.controller.ts:79-92 | fails with 400 and publishes nothing exactly when estado is neither "on" nor "off"; otherwise it publishes one command with no timestamp, stamped at the first clock reading, answers with the second, and leaves the stored state untouched |

## Left out

- The MQTT connection lifecycle: connecting, the client's event handlers, reconnecting, subscribing and disconnecting (src/dispositivo/mqtt/mqtt.service.ts:34-136). The client is reduced to the `connected` flag and the `published` log; nothing in the model changes `connected`.
- Whether a publish reaches the broker: `published` records the publishes the service issued. Publish errors are only logged in the source.
- `Services.MqttService.EnviarComandoAESP32`: the source throws when no client object exists yet, because it calls `publish` on it. The model always records the call. The controller calls it only while connected, except from the test endpoint.
- JSON and ISO-8601: parsing and printing are foreign calls. A timestamp is an already-parsed number of milliseconds, and an invalid date string is not modelled. A payload that does not parse, or parses to `null` (its handler then fails and the error is caught), is `None`. Fields of a type other than string are not modelled.
- The clock: every reading is a free parameter. The model does not relate successive readings, so it does not assume the clock is monotonic.
- Configuration, the random client id, and the `broker`, `clientId` and `topics` parts of `getStats` and `getHealth`: they echo environment settings.
- Logging, CORS and the bootstrap in src/main.ts, and the module wiring in src/app.module.ts and src/dispositivo/dispositivo.module.ts. Only the global validation pipe is kept: `Controller.DispositivoController.ControlarDispositivo` requires estado to be "on" or "off", as the request body's validation demands.
- `LimpiarESP32sInactivos` is private in the source and nothing calls it. It is modelled and proved, but no other operation invokes it, so the registry only grows.
- Behaviour the code does not have is not added: stale reports are not rejected, no provenance is tracked, and reads do not sweep.
