/**
 * The web MQTT manager: a five-state connection machine over the device's
 * MQTT module, with a last-error tick and a reconnect interval. The module-level
 * statics become the fields of Manager; the tick counter, the outcome of the
 * MQTT module's init and of task creation are parameters; the calls the
 * manager makes outside itself (the user callback, mqtt_module_init,
 * mqtt_module_start, xTaskCreate) are appended to a call log.
 */
module WebMqttManager {
  import opened Base

  /** TickType_t: a 32-bit unsigned tick count. */
  const TickModulus: nat := 0x1_0000_0000
  type Tick = x: int | 0 <= x < 0x1_0000_0000

  /** A C int. */
  type Int32 = x: int | -0x8000_0000 <= x < 0x8000_0000

  const EspOk: int := 0
  const EspErrNoMem: int := 0x101
  const EspErrInvalidArg: int := 0x102

  datatype MgrState = Disconnected | Connecting | Connected | Ready | Error

  /** mqtt_module_event_t; Other stands for any value outside the three named ones. */
  datatype MqttEvent = EventConnected | EventDisconnected | EventError | EventOther(code: int)

  /** web_mqtt_manager_config_t, as far as this file reads it; hasEventCb says whether event_cb is set. */
  datatype Config = Config(
    brokerUri: Option<CString>,
    clientId: Option<CString>,
    username: Option<CString>,
    password: Option<CString>,
    keepaliveSec: Int32,
    reconnectIntervalMs: Int32,
    hasEventCb: bool)

  /** A C string (no NUL inside). */
  type CString = s: string | NoNul(s)

  /** The zero-initialised static configuration, before init. */
  const ZeroConfig: Config := Config(None, None, None, None, 0, 0, false)

  /** The mqtt_module_config_t init passes on: the module's own defaults with these fields set. */
  datatype ModuleConfig = ModuleConfig(
    brokerUri: CString,
    clientId: Option<CString>,
    username: Option<CString>,
    password: Option<CString>,
    keepaliveSec: int)

  /** Calls the manager makes outside itself, in order. */
  datatype Call =
    | Notify(state: MgrState)          // the configured event_cb
    | ModuleInit(config: ModuleConfig) // mqtt_module_init
    | ModuleStart                      // mqtt_module_start
    | TaskCreate                       // xTaskCreate of the manager task

  /** The manager's statics and the calls made so far. */
  datatype Mgr = Mgr(cfg: Config, state: MgrState, taskCreated: bool, lastErrorTs: Tick, calls: seq<Call>)

  // ---------------------------------------------------------------- transitions

  /** web_mqtt_manager_notify_state: the new state, then the callback when one is configured. */
  function Notified(m: Mgr, s: MgrState): (r: Mgr)
    ensures r.state == s && r.cfg == m.cfg && r.taskCreated == m.taskCreated && r.lastErrorTs == m.lastErrorTs
    ensures r.calls == m.calls + (if m.cfg.hasEventCb then [Notify(s)] else [])
  {
    m.(state := s, calls := m.calls + (if m.cfg.hasEventCb then [Notify(s)] else []))
  }

  /** web_mqtt_manager_on_mqtt_event at tick now. */
  function EventSpec(m: Mgr, ev: MqttEvent, now: Tick): Mgr
  {
    match ev
    case EventConnected => Notified(m, Connected).(lastErrorTs := 0)
    case EventDisconnected => Notified(m, Disconnected).(lastErrorTs := now)
    case _ => Notified(m, Error).(lastErrorTs := now)
  }

  /** pdMS_TO_TICKS(ms): ms times the tick rate in 32-bit unsigned arithmetic, divided by 1000. */
  function MsToTicks(ms: int, tickRateHz: Tick): (r: Tick)
  {
    ((ms % TickModulus) * tickRateHz % TickModulus) / 1000
  }

  /** Ticks since the last error, 32-bit unsigned; 0 when none is recorded. */
  function Delta(last: Tick, now: Tick): (r: Tick)
  {
    if last == 0 then 0 else (now - last) % TickModulus
  }

  /** Ticks to wait before the next attempt; 0 when the interval is not positive. */
  function Need(cfg: Config, tickRateHz: Tick): Tick
  {
    MsToTicks(if cfg.reconnectIntervalMs <= 0 then 0 else cfg.reconnectIntervalMs, tickRateHz)
  }

  /** Whether a step at tick now makes a connection attempt. */
  predicate Due(m: Mgr, now: Tick, tickRateHz: Tick)
  {
    (m.state == Disconnected || m.state == Error)
    && m.cfg.reconnectIntervalMs >= 0
    && Delta(m.lastErrorTs, now) >= Need(m.cfg, tickRateHz)
  }

  /** web_mqtt_manager_step at tick now. */
  function StepSpec(m: Mgr, now: Tick, tickRateHz: Tick): Mgr
  {
    if (m.state == Disconnected || m.state == Error) && m.cfg.reconnectIntervalMs >= 0 then
      var delta := Delta(m.lastErrorTs, now);
      var need := Need(m.cfg, tickRateHz);
      if delta >= need then
        var n := Notified(m, Connecting);
        n.(calls := n.calls + [ModuleStart], lastErrorTs := if m.lastErrorTs == 0 then now else m.lastErrorTs)
      else m
    else m
  }

  /** The configuration init passes to the MQTT module: keepalive overridden only when positive. */
  function ModuleConfigFor(cfg: Config, defaultKeepaliveSec: int): ModuleConfig
    requires cfg.brokerUri.Some?
  {
    ModuleConfig(cfg.brokerUri.value, cfg.clientId, cfg.username, cfg.password,
                 if cfg.keepaliveSec > 0 then cfg.keepaliveSec else defaultKeepaliveSec)
  }

  /**
   * web_mqtt_manager_init. config None is a NULL pointer, which selects
   * defaults; moduleInitResult is what mqtt_module_init returns and
   * taskCreateOk whether xTaskCreate succeeds.
   */
  function InitSpec(m: Mgr, config: Option<Config>, defaults: Config, defaultKeepaliveSec: int,
                    moduleInitResult: int, taskCreateOk: bool): (Mgr, int)
  {
    var cfg := if config.None? then defaults else config.value;
    var m1 := m.(cfg := cfg);
    if cfg.brokerUri.None? || cfg.brokerUri.value == [] then (m1, EspErrInvalidArg)
    else
      var m2 := m1.(calls := m1.calls + [ModuleInit(ModuleConfigFor(cfg, defaultKeepaliveSec))]);
      if moduleInitResult != EspOk then (m2, moduleInitResult)
      else
        var m3 := m2.(state := Disconnected, lastErrorTs := 0);
        if !m3.taskCreated && !taskCreateOk then (m3.(calls := m3.calls + [TaskCreate]), EspErrNoMem)
        else
          var m4 := if m3.taskCreated then m3 else m3.(taskCreated := true, calls := m3.calls + [TaskCreate]);
          var m5 := Notified(m4, Disconnected);
          (m5.(calls := m5.calls + [ModuleStart]), EspOk)
  }

  // ---------------------------------------------------------------- the statics as an object

  class Manager {
    /** configTICK_RATE_HZ. */
    const tickRateHz: Tick
    var cfg: Config
    var state: MgrState
    /** Whether s_mgr_task holds a task. */
    var taskCreated: bool
    var lastErrorTs: Tick
    var calls: seq<Call>

    function Snapshot(): Mgr
      reads this
    {
      Mgr(cfg, state, taskCreated, lastErrorTs, calls)
    }

    /** The statics at boot: zero configuration, DISCONNECTED, no task, no error tick. */
    constructor (tickRateHz: Tick)
      ensures this.tickRateHz == tickRateHz
      ensures Snapshot() == Mgr(ZeroConfig, Disconnected, false, 0, [])
    {
      this.tickRateHz := tickRateHz;
      cfg := ZeroConfig;
      state := Disconnected;
      taskCreated := false;
      lastErrorTs := 0;
      calls := [];
    }

    method NotifyState(s: MgrState)
      modifies this
      ensures Snapshot() == Notified(old(Snapshot()), s)
    {
      state := s;
      if cfg.hasEventCb {
        calls := calls + [Notify(s)];
      }
    }

    method OnMqttEvent(ev: MqttEvent, now: Tick)
      modifies this
      ensures Snapshot() == EventSpec(old(Snapshot()), ev, now)
    {
      match ev {
        case EventConnected =>
          NotifyState(Connected);
          lastErrorTs := 0;
        case EventDisconnected =>
          NotifyState(Disconnected);
          lastErrorTs := now;
        case _ =>
          NotifyState(Error);
          lastErrorTs := now;
      }
    }

    method Step(now: Tick)
      modifies this
      ensures Snapshot() == StepSpec(old(Snapshot()), now, tickRateHz)
    {
      if state == Disconnected || state == Error {
        if cfg.reconnectIntervalMs < 0 {
          return;
        }
        var delta: Tick := if lastErrorTs == 0 then 0 else (now - lastErrorTs) % TickModulus;
        var need := MsToTicks(if cfg.reconnectIntervalMs <= 0 then 0 else cfg.reconnectIntervalMs, tickRateHz);
        if delta >= need {
          NotifyState(Connecting);
          calls := calls + [ModuleStart];
          if lastErrorTs == 0 {
            lastErrorTs := now;
          }
        }
      }
    }

    method Init(config: Option<Config>, defaults: Config, defaultKeepaliveSec: int,
                moduleInitResult: int, taskCreateOk: bool) returns (ret: int)
      modifies this
      ensures (Snapshot(), ret) == InitSpec(old(Snapshot()), config, defaults, defaultKeepaliveSec, moduleInitResult, taskCreateOk)
    {
      if config.None? {
        cfg := defaults;
      } else {
        cfg := config.value;
      }
      if cfg.brokerUri.None? || cfg.brokerUri.value == [] {
        return EspErrInvalidArg;
      }
      var keepalive := defaultKeepaliveSec;
      if cfg.keepaliveSec > 0 {
        keepalive := cfg.keepaliveSec;
      }
      calls := calls + [ModuleInit(ModuleConfig(cfg.brokerUri.value, cfg.clientId, cfg.username, cfg.password, keepalive))];
      if moduleInitResult != EspOk {
        return moduleInitResult;
      }
      state := Disconnected;
      lastErrorTs := 0;
      if !taskCreated {
        calls := calls + [TaskCreate];
        if !taskCreateOk {
          return EspErrNoMem;
        }
        taskCreated := true;
      }
      NotifyState(Disconnected);
      calls := calls + [ModuleStart];
      ret := EspOk;
    }
  }

  // ---------------------------------------------------------------- properties

  /** How often c occurs in calls. */
  function Count(calls: seq<Call>, c: Call): nat
  {
    if calls == [] then 0 else Count(calls[..|calls| - 1], c) + (if calls[|calls| - 1] == c then 1 else 0)
  }

  lemma {:induction false} CountAppend(a: seq<Call>, b: seq<Call>, c: Call)
    ensures Count(a + b, c) == Count(a, c) + Count(b, c)
    decreases |b|
  {
    if b == [] {
      assert a + b == a;
    } else {
      assert (a + b)[..|a + b| - 1] == a + b[..|b| - 1];
      CountAppend(a, b[..|b| - 1], c);
    }
  }

  /**
   * The new state is in place when the callback runs, and the callback runs
   * (once, with that state) exactly when one is configured.
   */
  lemma NotifyCallsBackOnce(m: Mgr, s: MgrState)
    ensures Count(Notified(m, s).calls, Notify(s)) == Count(m.calls, Notify(s)) + (if m.cfg.hasEventCb then 1 else 0)
    ensures m.cfg.hasEventCb ==> Notified(m, s).calls[|Notified(m, s).calls| - 1] == Notify(s)
  {
    CountAppend(m.calls, if m.cfg.hasEventCb then [Notify(s)] else [], Notify(s));
  }

  /**
   * After an event the state is CONNECTED exactly for the connected event,
   * DISCONNECTED exactly for the disconnected event and ERROR otherwise; the
   * error tick is cleared on connect and set to now on every other event.
   * Nothing is started.
   */
  lemma EventTransitions(m: Mgr, ev: MqttEvent, now: Tick)
    ensures var r := EventSpec(m, ev, now);
      && (r.state == Connected <==> ev == EventConnected)
      && (r.state == Disconnected <==> ev == EventDisconnected)
      && (r.state == Error <==> !ev.EventConnected? && !ev.EventDisconnected?)
      && r.lastErrorTs == (if ev.EventConnected? then 0 else now)
      && r.cfg == m.cfg && r.taskCreated == m.taskCreated
      && Count(r.calls, ModuleStart) == Count(m.calls, ModuleStart)
  {
    var r := EventSpec(m, ev, now);
    var s := r.state;
    CountAppend(m.calls, if m.cfg.hasEventCb then [Notify(s)] else [], ModuleStart);
    if m.cfg.hasEventCb {
      assert Count([Notify(s)], ModuleStart) == Count([], ModuleStart) + 0;
    }
  }

  /** A step changes something exactly when it is due; then it notifies CONNECTING and starts the module once. */
  lemma StepChangesIffDue(m: Mgr, now: Tick, hz: Tick)
    ensures StepSpec(m, now, hz) != m <==> Due(m, now, hz)
    ensures Due(m, now, hz) ==>
      && StepSpec(m, now, hz).state == Connecting
      && StepSpec(m, now, hz).calls == m.calls + (if m.cfg.hasEventCb then [Notify(Connecting)] else []) + [ModuleStart]
      && Count(StepSpec(m, now, hz).calls, ModuleStart) == Count(m.calls, ModuleStart) + 1
      && StepSpec(m, now, hz).lastErrorTs == (if m.lastErrorTs == 0 then now else m.lastErrorTs)
  {
    if Due(m, now, hz) {
      var r := StepSpec(m, now, hz);
      assert r.state == Connecting && m.state != Connecting;
      var notify: seq<Call> := if m.cfg.hasEventCb then [Notify(Connecting)] else [];
      CountAppend(m.calls + notify, [ModuleStart], ModuleStart);
      CountAppend(m.calls, notify, ModuleStart);
      assert Count([ModuleStart], ModuleStart) == Count([], ModuleStart) + 1;
      if m.cfg.hasEventCb {
        assert Count(notify, ModuleStart) == Count([], ModuleStart) + 0;
      }
    }
  }

  /** In CONNECTING, CONNECTED or READY a step does nothing. */
  lemma StepQuietWhenNotDown(m: Mgr, now: Tick, hz: Tick)
    requires m.state != Disconnected && m.state != Error
    ensures StepSpec(m, now, hz) == m
  {
  }

  /** A negative reconnect interval disables reconnection. */
  lemma NegativeIntervalNeverReconnects(m: Mgr, now: Tick, hz: Tick)
    requires m.cfg.reconnectIntervalMs < 0
    ensures StepSpec(m, now, hz) == m
  {
  }

  /**
   * Without a recorded error tick the step counts no time as elapsed: it
   * attempts exactly when no waiting is needed.
   */
  lemma ZeroTickAttemptsOnlyWithoutWait(m: Mgr, now: Tick, hz: Tick)
    requires m.lastErrorTs == 0 && (m.state == Disconnected || m.state == Error) && m.cfg.reconnectIntervalMs >= 0
    ensures Due(m, now, hz) <==> Need(m.cfg, hz) == 0
  {
  }

  /** Elapsed ticks survive the counter wrapping: delta is the true elapsed count below 2^32. */
  lemma DeltaAcrossWrap(last: Tick, elapsed: nat, now: Tick)
    requires last != 0 && elapsed < TickModulus && now == (last + elapsed) % TickModulus
    ensures Delta(last, now) == elapsed
  {
    if last + elapsed >= TickModulus {
      assert now == last + elapsed - TickModulus;
    } else {
      assert now == last + elapsed;
    }
  }

  /**
   * After an attempt the manager is CONNECTING, so further steps start nothing
   * until the MQTT module reports an event.
   */
  lemma OneAttemptPerFailure(m: Mgr, now: Tick, later: Tick, hz: Tick)
    requires Due(m, now, hz)
    ensures StepSpec(StepSpec(m, now, hz), later, hz) == StepSpec(m, now, hz)
  {
    StepChangesIffDue(m, now, hz);
  }

  /**
   * After a disconnect or error reported at a non-zero tick t, with a positive
   * interval, the next attempt comes once the ticks elapsed since t reach the
   * interval in ticks.
   */
  lemma RetryAfterInterval(m: Mgr, ev: MqttEvent, t: Tick, elapsed: nat, hz: Tick)
    requires !ev.EventConnected? && t != 0 && elapsed < TickModulus && m.cfg.reconnectIntervalMs > 0
    ensures var down := EventSpec(m, ev, t);
      Due(down, (t + elapsed) % TickModulus, hz) <==> elapsed >= MsToTicks(m.cfg.reconnectIntervalMs, hz)
  {
    DeltaAcrossWrap(t, elapsed, (t + elapsed) % TickModulus);
  }

  /** Count of a call that does not occur. */
  lemma {:induction false} CountAbsent(calls: seq<Call>, c: Call)
    requires c !in calls
    ensures Count(calls, c) == 0
    decreases |calls|
  {
    if calls != [] {
      assert forall x :: x in calls[..|calls| - 1] ==> x in calls;
      CountAbsent(calls[..|calls| - 1], c);
    }
  }

  /**
   * init rejects a missing or empty broker URI before calling anything;
   * otherwise it initialises the module with the configured keepalive when
   * that is positive, and forwards a failure of the module unchanged.
   */
  lemma InitValidation(m: Mgr, config: Option<Config>, defaults: Config, keepalive: int, initResult: int, taskOk: bool)
    ensures var (r, ret) := InitSpec(m, config, defaults, keepalive, initResult, taskOk);
      var cfg := if config.None? then defaults else config.value;
      && r.cfg == cfg
      && (cfg.brokerUri.None? || cfg.brokerUri.value == [] ==> ret == EspErrInvalidArg && r == m.(cfg := cfg))
      && (cfg.brokerUri.Some? && cfg.brokerUri.value != [] ==>
            && |r.calls| > |m.calls| && r.calls[|m.calls|] == ModuleInit(ModuleConfig(cfg.brokerUri.value,
                 cfg.clientId, cfg.username, cfg.password, if cfg.keepaliveSec > 0 then cfg.keepaliveSec else keepalive))
            && (initResult != EspOk ==> ret == initResult && r.state == m.state && r.lastErrorTs == m.lastErrorTs))
      && (ret == EspOk <==> cfg.brokerUri.Some? && cfg.brokerUri.value != [] && initResult == EspOk && (m.taskCreated || taskOk))
  {
  }

  /**
   * A successful init leaves the manager DISCONNECTED with no error tick and
   * a task, and starts the module exactly once.
   */
  lemma InitSuccess(m: Mgr, config: Option<Config>, defaults: Config, keepalive: int, initResult: int, taskOk: bool)
    requires InitSpec(m, config, defaults, keepalive, initResult, taskOk).1 == EspOk
    ensures var r := InitSpec(m, config, defaults, keepalive, initResult, taskOk).0;
      && r.state == Disconnected && r.lastErrorTs == 0 && r.taskCreated
      && Count(r.calls, ModuleStart) == Count(m.calls, ModuleStart) + 1
  {
    var middle := InitCalls(m, config, defaults, keepalive, initResult, taskOk);
    CountAppend(m.calls + middle, [ModuleStart], ModuleStart);
    CountAppend(m.calls, middle, ModuleStart);
    CountAbsent(middle, ModuleStart);
    assert Count([ModuleStart], ModuleStart) == Count([], ModuleStart) + 1;
  }

  /** The calls of a successful init: module init, task creation, callback, none of them a start, then a start. */
  lemma InitCalls(m: Mgr, config: Option<Config>, defaults: Config, keepalive: int, initResult: int, taskOk: bool)
    returns (middle: seq<Call>)
    requires InitSpec(m, config, defaults, keepalive, initResult, taskOk).1 == EspOk
    ensures ModuleStart !in middle
    ensures InitSpec(m, config, defaults, keepalive, initResult, taskOk).0.calls == m.calls + middle + [ModuleStart]
    ensures var r := InitSpec(m, config, defaults, keepalive, initResult, taskOk).0;
      r.state == Disconnected && r.lastErrorTs == 0 && r.taskCreated
  {
    var cfg := if config.None? then defaults else config.value;
    var init := [ModuleInit(ModuleConfigFor(cfg, keepalive))];
    var task: seq<Call> := if m.taskCreated then [] else [TaskCreate];
    var notify: seq<Call> := if cfg.hasEventCb then [Notify(Disconnected)] else [];
    middle := init + task + notify;
  }
}
