/** Bringing the SIM up, and SIM changes put off until the next connect. */
module SimCard {
  import opened Bytes

  const SIM_ROUNDS := 10

  const NSAPI_ERROR_OK := 0
  const NSAPI_ERROR_NO_CONNECTION := -3004
  const NSAPI_ERROR_AUTH_FAILURE := -3010
  const NSAPI_ERROR_DEVICE_ERROR := -3012

  /** What the modem may say to AT+CPIN? (section 8.3 of 3GPP TS 27.007). */
  datatype CpinAnswer = SimPin | Ready | Unexpected | NoAnswer

  /** How modem and SIM will take what a call may ask of them. */
  datatype Answers = Answers(
    powersUp: bool,
    cpin: seq<CpinAnswer>,    // to AT+CPIN?, round by round; nothing comes after the last
    hearsPin: bool,           // AT+CPIN="..." gets out
    takesPin: bool,           // and is answered with OK
    identifies: bool,         // device identity, ICCID, IMSI, IMEI, MEID and SMS set-up all work
    takesCheck: bool,         // AT+CLCK="SC" is answered with OK
    takesNewPin: bool,        // AT+CPWD="SC" is answered with OK
    registers: seq<bool>,     // attempt by attempt; none succeeds after the last
    stackUp: bool)
  {
    function Cpin(round: nat): CpinAnswer
    {
      if round < |cpin| then cpin[round] else NoAnswer
    }

    /** The first answer to AT+CPIN? in ten rounds is `x`. */
    predicate SaysFirst(x: CpinAnswer)
    {
      exists k :: 0 <= k < 10 && Cpin(k) == x && forall j :: 0 <= j < k ==> Cpin(j) == NoAnswer
    }

    predicate Registers(attempt: nat)
    {
      attempt < |registers| && registers[attempt]
    }

    /** Neither power nor SIM nor set-up stands in the way of init. */
    predicate ComesUp()
    {
      powersUp && (SaysFirst(Ready) || (SaysFirst(SimPin) && hearsPin && takesPin)) && identifies
    }
  }

  lemma FirstIsFirst(a: Answers, k: nat, x: CpinAnswer)
    requires k < 10 && a.Cpin(k) != NoAnswer && x != NoAnswer
    requires forall j :: 0 <= j < k ==> a.Cpin(j) == NoAnswer
    ensures a.SaysFirst(x) <==> a.Cpin(k) == x
  {
    if a.SaysFirst(x) {
      var i :| 0 <= i < 10 && a.Cpin(i) == x && forall j :: 0 <= j < i ==> a.Cpin(j) == NoAnswer;
      assert i == k;
    }
  }

  /** The state of the driver's SIM handling, and what it has done to the SIM so far. */
  datatype Sim = Sim(
    initialised: bool, checkEnabled: bool, pin: Option<string>,
    checkPending: bool, checkValue: bool, pinPending: bool, newPin: Option<string>,
    inits: nat,           // init calls made while uninitialised
    pinEntries: nat,      // AT+CPIN="..." sent
    checksPutOff: nat, checksTried: nat,   // deferred check changes: asked for, tried
    pinsPutOff: nat, pinsTried: nat,       // deferred PIN changes: asked for, tried
    failed: nat,          // tries of a SIM change, put off or immediate, that failed
    registrations: nat)   // registration attempts

  /** `s` with what init works on taken from `s'`. */
  function Initialised(s: Sim, s': Sim): Sim
  {
    s.(initialised := s'.initialised, checkEnabled := s'.checkEnabled, pin := s'.pin,
       inits := s'.inits, pinEntries := s'.pinEntries)
  }

  /** Nothing but what init works on differs; the PIN goes out once at most, only if uninitialised. */
  predicate AfterInit(s: Sim, s': Sim)
  {
    && s' == Initialised(s, s')
    && (s.initialised ==> s' == s)
    && (!s.initialised ==> s'.inits == s.inits + 1)
    && s.pinEntries <= s'.pinEntries <= s.pinEntries + (s'.inits - s.inits)
  }

  const BRAND_NEW := Sim(false, false, None, false, false, false, None, 0, 0, 0, 0, 0, 0, 0, 0)

  /** The public calls. */
  datatype Call = Connect | PutOffCheck(value: bool) | PutOffPin(newPin: Option<string>) | Immediate | Deinit | SetPin

  /** What a call may do. */
  predicate CallStep(c: Call, s: Sim, s': Sim, err: int)
  {
    match c
    case Connect =>
      && s'.inits - s.inits == (if s.initialised then 0 else 1)
      && s.pinEntries <= s'.pinEntries <= s.pinEntries + (s'.inits - s.inits)
      && s'.checksPutOff == s.checksPutOff && s'.pinsPutOff == s.pinsPutOff
      && (if s'.initialised
          then
            && !s'.checkPending && !s'.pinPending
            && s'.checksTried == s.checksTried + (if s.checkPending then 1 else 0)
            && s'.pinsTried == s.pinsTried + (if s.pinPending then 1 else 0)
          else
            && s'.checkPending == s.checkPending && s'.checkValue == s.checkValue
            && s'.pinPending == s.pinPending && s'.newPin == s.newPin
            && s'.checksTried == s.checksTried && s'.pinsTried == s.pinsTried)
      && (err == NSAPI_ERROR_DEVICE_ERROR <==> !s'.initialised)
      && s.failed <= s'.failed <= s.failed + (s'.checksTried - s.checksTried) + (s'.pinsTried - s.pinsTried)
      && (err == NSAPI_ERROR_AUTH_FAILURE <==> s'.failed > s.failed)
      && s.registrations <= s'.registrations
      && (s'.registrations > s.registrations <==> s'.initialised && s'.failed == s.failed)
      && (err == NSAPI_ERROR_OK ==> s'.registrations > s.registrations)
      && (s'.registrations != s.registrations && s.checkPending ==> s'.checkEnabled == s.checkValue)
      && (s'.registrations != s.registrations && s.pinPending ==> s.newPin.Some? && s'.pin == s.newPin)
    case PutOffCheck(value) =>
      && err == NSAPI_ERROR_OK
      && s' == s.(pin := s'.pin, checkPending := true, checkValue := value, checksPutOff := s.checksPutOff + 1)
    case PutOffPin(newPin) =>
      && err == NSAPI_ERROR_OK
      && s' == s.(pin := s'.pin, pinPending := true, newPin := newPin, pinsPutOff := s.pinsPutOff + 1)
    case Immediate =>
      && s' == Initialised(s, s').(failed := s'.failed) && s.failed <= s'.failed <= s.failed + 1
      && (err == NSAPI_ERROR_DEVICE_ERROR <==> !s'.initialised)
      && (err == NSAPI_ERROR_AUTH_FAILURE <==> s'.failed > s.failed)
      && s.inits <= s'.inits && s.pinEntries <= s'.pinEntries <= s.pinEntries + (s'.inits - s.inits)
      && (s.initialised ==> s'.inits == s.inits)
    case Deinit => s' == s.(initialised := false)
    case SetPin => s' == s.(pin := s'.pin)
  }

  /** PIN entries are paid for by init calls, tries of put-off changes by requests. */
  predicate Safe(s: Sim)
  {
    && s.pinEntries <= s.inits
    && s.checksTried + (if s.checkPending then 1 else 0) <= s.checksPutOff
    && s.pinsTried + (if s.pinPending then 1 else 0) <= s.pinsPutOff
  }

  ghost predicate Runs(ss: seq<Sim>, calls: seq<Call>, errs: seq<int>)
  {
    && |ss| == |calls| + 1 && |errs| == |calls|
    && forall i :: 0 <= i < |calls| ==> CallStep(calls[i], ss[i], ss[i + 1], errs[i])
  }

  lemma SafeKept(c: Call, s: Sim, s': Sim, err: int)
    requires Safe(s) && CallStep(c, s, s', err)
    ensures Safe(s')
  {
  }

  lemma {:induction false} SafeOverRuns(ss: seq<Sim>, calls: seq<Call>, errs: seq<int>, n: nat)
    requires Runs(ss, calls, errs) && n <= |calls| && Safe(ss[0])
    ensures Safe(ss[n])
  {
    if n > 0 {
      SafeOverRuns(ss, calls, errs, n - 1);
      SafeKept(calls[n - 1], ss[n - 1], ss[n], errs[n - 1]);
    }
  }

  /** Between any two points of a run, the PIN is entered no more often than init starts afresh. */
  lemma {:induction false} PinEntriesArePaidFor(ss: seq<Sim>, calls: seq<Call>, errs: seq<int>, m: nat, n: nat)
    requires Runs(ss, calls, errs) && m <= n <= |calls|
    ensures ss[m].inits <= ss[n].inits
    ensures ss[n].pinEntries - ss[m].pinEntries <= ss[n].inits - ss[m].inits
    decreases n - m
  {
    if m < n {
      PinEntriesArePaidFor(ss, calls, errs, m, n - 1);
      assert CallStep(calls[n - 1], ss[n - 1], ss[n], errs[n - 1]);
    }
  }

  /** The two SIM changes that can be put off. */
  datatype Change = CheckChange | PinChange

  predicate Pending(s: Sim, c: Change)
  {
    if c.CheckChange? then s.checkPending else s.pinPending
  }

  function Tried(s: Sim, c: Change): nat
  {
    if c.CheckChange? then s.checksTried else s.pinsTried
  }

  predicate PutsOff(call: Call, c: Change)
  {
    if c.CheckChange? then call.PutOffCheck? else call.PutOffPin?
  }

  /** Some connect from call `m` to call `n` got as far as the SIM. */
  ghost predicate Connected(ss: seq<Sim>, calls: seq<Call>, m: nat, n: nat)
    requires |ss| == |calls| + 1 && n <= |calls|
  {
    exists k :: m <= k < n && calls[k].Connect? && ss[k + 1].initialised
  }

  lemma ConnectedLast(ss: seq<Sim>, calls: seq<Call>, m: nat, n: nat)
    requires |ss| == |calls| + 1 && m < n <= |calls|
    ensures Connected(ss, calls, m, n) <==>
      Connected(ss, calls, m, n - 1) || (calls[n - 1].Connect? && ss[n].initialised)
  {
    if calls[n - 1].Connect? && ss[n - 1 + 1].initialised {
    }
  }

  /** What one call does to a change put off earlier. */
  lemma ChangeStep(call: Call, s: Sim, s': Sim, err: int, c: Change)
    requires CallStep(call, s, s', err) && !PutsOff(call, c)
    ensures Tried(s', c) - Tried(s, c) == if Pending(s, c) && call.Connect? && s'.initialised then 1 else 0
    ensures Pending(s', c) <==> Pending(s, c) && !(call.Connect? && s'.initialised)
  {
  }

  /** A change put off is tried once, in the first connect whose init succeeds, and never again
      unless it is put off again. */
  lemma {:induction false} PutOffChangeTriedOnce(ss: seq<Sim>, calls: seq<Call>, errs: seq<int>, c: Change,
                                                 m: nat, n: nat)
    requires Runs(ss, calls, errs) && m <= n <= |calls|
    requires forall k :: m <= k < n ==> !PutsOff(calls[k], c)
    ensures Tried(ss[n], c) - Tried(ss[m], c) == if Pending(ss[m], c) && Connected(ss, calls, m, n) then 1 else 0
    ensures Pending(ss[n], c) <==> Pending(ss[m], c) && !Connected(ss, calls, m, n)
    decreases n - m
  {
    if m < n {
      var last := n - 1;
      PutOffChangeTriedOnce(ss, calls, errs, c, m, last);
      ChangeStep(calls[last], ss[last], ss[n], errs[last], c);
      ConnectedLast(ss, calls, m, n);
    }
  }

  // ---------------------------------------------------------------- the driver

  class UbloxModem {
    var modemInitialised: bool
    var simPinCheckEnabled: bool
    var pin: Option<string>
    var checkChangePending: bool
    var checkChangeValue: bool
    var pinChangePending: bool
    var pinChangeNewValue: Option<string>
    ghost var past: Sim   // only its counters are looked at
    var modem: Answers    // the other side; the driver does not change it

    ghost function Now(): Sim
      reads this
    {
      past.(initialised := modemInitialised, checkEnabled := simPinCheckEnabled, pin := pin,
            checkPending := checkChangePending, checkValue := checkChangeValue,
            pinPending := pinChangePending, newPin := pinChangeNewValue)
    }

    constructor (modem: Answers)
      ensures this.modem == modem && Now() == BRAND_NEW && Safe(Now())
    {
      modemInitialised, simPinCheckEnabled, pin := false, false, None;
      checkChangePending, checkChangeValue, pinChangePending, pinChangeNewValue := false, false, false, None;
      past := BRAND_NEW;
      this.modem := modem;
    }

    /** The first answer came in round `k` and was acted on. */
    ghost predicate Settled(k: nat, success: bool, wasEnabled: bool, was: Sim)
      reads this
    {
      var x := modem.Cpin(k);
      && x != NoAnswer && (forall j :: 0 <= j < k ==> modem.Cpin(j) == NoAnswer)
      && success == (x == Ready || (x == SimPin && modem.hearsPin && modem.takesPin))
      && past == was.(pinEntries := was.pinEntries + if x == SimPin && modem.hearsPin then 1 else 0)
      && simPinCheckEnabled == (x == SimPin || (x != Ready && wasEnabled))
    }

    // Asks for the SIM state, ten times if need be, and gives the PIN if that is what it wants.
    method InitialiseSimCard() returns (success: bool)
      modifies this`simPinCheckEnabled, this`past
      ensures success <==> modem.SaysFirst(Ready) || (modem.SaysFirst(SimPin) && modem.hearsPin && modem.takesPin)
      ensures past == old(past).(pinEntries :=
        old(past.pinEntries) + if modem.SaysFirst(SimPin) && modem.hearsPin then 1 else 0)
      ensures simPinCheckEnabled ==
        if modem.SaysFirst(SimPin) then true else if modem.SaysFirst(Ready) then false else old(simPinCheckEnabled)
    {
      success := false;
      var done := false;
      var retryCount := 0;
      while !done && retryCount < SIM_ROUNDS
        invariant 0 <= retryCount <= 10
        invariant !done ==> past == old(past) && !success && simPinCheckEnabled == old(simPinCheckEnabled)
        invariant !done ==> forall j :: 0 <= j < retryCount ==> modem.Cpin(j) == NoAnswer
        invariant done ==> retryCount > 0 && Settled(retryCount - 1, success, old(simPinCheckEnabled), old(past))
      {
        var answer := modem.Cpin(retryCount);
        if answer != NoAnswer {
          done := true;
          if answer == SimPin {
            simPinCheckEnabled := true;
            if modem.hearsPin {
              past := past.(pinEntries := past.pinEntries + 1);
              success := modem.takesPin;
            }
          } else if answer == Ready {
            simPinCheckEnabled := false;
            success := true;
          }
        }
        retryCount := retryCount + 1;
      }
      if done {
        FirstIsFirst(modem, retryCount - 1, SimPin);
        FirstIsFirst(modem, retryCount - 1, Ready);
      }
    }

    method Init(newPin: Option<string>) returns (ready: bool)
      modifies this`modemInitialised, this`simPinCheckEnabled, this`pin, this`past
      ensures ready == modemInitialised && AfterInit(old(Now()), Now())
      ensures ready <==> old(modemInitialised) || modem.ComesUp()
      ensures pin == if newPin.Some? && !old(modemInitialised) && modem.powersUp then newPin else old(pin)
    {
      if !modemInitialised {
        past := past.(inits := past.inits + 1);
        if modem.powersUp {
          if newPin.Some? {
            pin := newPin;
          }
          var simReady := InitialiseSimCard();
          if simReady && modem.identifies {
            modemInitialised := true;
          }
        }
      }
      ready := modemInitialised;
    }

    method SimPinCheckEnable(enable: bool) returns (success: bool)
      modifies this`simPinCheckEnabled, this`past
      ensures success <==> pin.Some? && (old(simPinCheckEnabled) == enable || modem.takesCheck)
      ensures past == old(past).(failed := old(past.failed) + (if success then 0 else 1))
      ensures success ==> simPinCheckEnabled == enable && pin.Some?
      ensures !success ==> simPinCheckEnabled == old(simPinCheckEnabled)
    {
      success := false;
      if pin.Some? {
        if simPinCheckEnabled != enable {
          if modem.takesCheck {
            simPinCheckEnabled := enable;
            success := true;
          }
        } else {
          success := true;
        }
      }
      past := if success then past else past.(failed := past.failed + 1);
    }

    method ChangeSimPin(newPin: Option<string>) returns (success: bool)
      modifies this`pin, this`past
      ensures success <==> newPin.Some? && old(pin).Some? && modem.takesNewPin
      ensures past == old(past).(failed := old(past.failed) + (if success then 0 else 1))
      ensures success ==> newPin.Some? && pin == newPin
      ensures !success ==> pin == old(pin)
    {
      success := false;
      if newPin.Some? && pin.Some? {
        success := modem.takesNewPin;
        if success {
          pin := newPin;
        }
      }
      past := if success then past else past.(failed := past.failed + 1);
    }

    // The change of the PIN check, if one was put off: tried, and then forgotten.
    method PerformCheckChange() returns (ok: bool)
      modifies this`simPinCheckEnabled, this`checkChangePending, this`past
      ensures past == old(past).(checksTried := past.checksTried, failed := past.failed)
      ensures past.checksTried == old(past.checksTried) + (if old(checkChangePending) then 1 else 0)
      ensures past.failed == old(past.failed) + (if ok then 0 else 1) && (!ok ==> old(checkChangePending))
      ensures !checkChangePending && (ok && old(checkChangePending) ==> simPinCheckEnabled == checkChangeValue)
      ensures old(checkChangePending) ==>
        (ok <==> pin.Some? && (old(simPinCheckEnabled) == checkChangeValue || modem.takesCheck))
    {
      ok := true;
      if checkChangePending {
        past := past.(checksTried := past.checksTried + 1);
        ok := SimPinCheckEnable(checkChangeValue);
        checkChangePending := false;
      }
    }

    // The change of the PIN, if one was put off: tried, and then forgotten.
    method PerformPinChange() returns (ok: bool)
      modifies this`pin, this`pinChangePending, this`past
      ensures past == old(past).(pinsTried := past.pinsTried, failed := past.failed)
      ensures past.pinsTried == old(past.pinsTried) + (if old(pinChangePending) then 1 else 0)
      ensures past.failed == old(past.failed) + (if ok then 0 else 1) && (!ok ==> old(pinChangePending))
      ensures !pinChangePending
      ensures ok && old(pinChangePending) ==> pinChangeNewValue.Some? && pin == pinChangeNewValue
      ensures old(pinChangePending) ==> (ok <==> pinChangeNewValue.Some? && old(pin).Some? && modem.takesNewPin)
      ensures !(ok && old(pinChangePending)) ==> pin == old(pin)
    {
      ok := true;
      if pinChangePending {
        past := past.(pinsTried := past.pinsTried + 1);
        ok := ChangeSimPin(pinChangeNewValue);
        pinChangePending := false;
      }
    }

    method Register() returns (registered: bool)
      modifies this`past
      ensures Now() == old(Now()).(registrations := past.registrations)
      ensures registered <==> modem.Registers(0) || modem.Registers(1) || modem.Registers(2)
      ensures past.registrations - old(past.registrations) ==
        if modem.Registers(0) then 1 else if modem.Registers(1) then 2 else 3
    {
      registered := false;
      var retries := 0;
      ghost var was := past;
      while !registered && retries < 3
        invariant past == was.(registrations := was.registrations + retries) && 0 <= retries <= 3
        invariant registered ==> retries > 0 && modem.Registers(retries - 1)
        invariant forall k :: 0 <= k < (if registered then retries - 1 else retries) ==> !modem.Registers(k)
      {
        past := past.(registrations := past.registrations + 1);
        registered := modem.Registers(retries);
        retries := retries + 1;
      }
    }

    method Connect() returns (err: int)
      modifies this
      ensures CallStep(Call.Connect, old(Now()), Now(), err) && modem == old(modem)
      ensures modemInitialised <==> old(modemInitialised) || modem.ComesUp()
      ensures err == NSAPI_ERROR_OK <==>
        && modemInitialised && past.failed == old(past.failed) && modem.stackUp
        && (modem.Registers(0) || modem.Registers(1) || modem.Registers(2))
      ensures modemInitialised && (old(checkChangePending) || old(pinChangePending)) && old(pin).None? ==>
        err == NSAPI_ERROR_AUTH_FAILURE
      ensures old(pin).Some? && modem.takesCheck && modem.takesNewPin && err == NSAPI_ERROR_AUTH_FAILURE ==>
        old(pinChangePending) && old(pinChangeNewValue).None?
    {
      err := NSAPI_ERROR_DEVICE_ERROR;
      var registered := false;
      var ready := Init(None);
      if ready {
        err := NSAPI_ERROR_NO_CONNECTION;
        var checkOk := PerformCheckChange();
        if !checkOk {
          err := NSAPI_ERROR_AUTH_FAILURE;
        }
        var pinOk := PerformPinChange();
        if !pinOk {
          err := NSAPI_ERROR_AUTH_FAILURE;
        }
        if err == NSAPI_ERROR_NO_CONNECTION {
          registered := Register();
        }
      }
      if registered && modem.stackUp {
        err := NSAPI_ERROR_OK;
      }
    }

    // Init, and at once a change of the PIN check.
    method SetCheckNow(value: bool) returns (err: int)
      modifies this
      ensures CallStep(Immediate, old(Now()), Now(), err) && modem == old(modem) && pin == old(pin)
      ensures err == NSAPI_ERROR_OK ==> simPinCheckEnabled == value
      ensures modemInitialised <==> old(modemInitialised) || modem.ComesUp()
      ensures modemInitialised && pin.Some? && modem.takesCheck ==> err == NSAPI_ERROR_OK
    {
      err := NSAPI_ERROR_AUTH_FAILURE;
      var ready := Init(None);
      if ready {
        var ok := SimPinCheckEnable(value);
        if ok {
          err := NSAPI_ERROR_OK;
        }
      } else {
        err := NSAPI_ERROR_DEVICE_ERROR;
      }
    }

    method SetSimPinCheck(value: bool, immediate: bool, simPin: Option<string>) returns (err: int)
      modifies this
      ensures CallStep(if immediate then Immediate else PutOffCheck(value), old(Now()), Now(), err)
      ensures immediate && err == NSAPI_ERROR_OK ==> simPinCheckEnabled == value
      ensures pin == (if simPin.Some? then simPin else old(pin)) && modem == old(modem)
      ensures immediate && modemInitialised && pin.Some? && modem.takesCheck ==> err == NSAPI_ERROR_OK
    {
      if simPin.Some? {
        pin := simPin;
      }
      if immediate {
        err := SetCheckNow(value);
      } else {
        err := NSAPI_ERROR_OK;
        past := past.(checksPutOff := past.checksPutOff + 1);
        checkChangePending := true;
        checkChangeValue := value;
      }
    }

    // Init, and at once a change of the PIN.
    method SetPinNow(newPin: Option<string>) returns (err: int)
      modifies this
      ensures CallStep(Immediate, old(Now()), Now(), err) && modem == old(modem)
      ensures err == NSAPI_ERROR_OK ==> pin == newPin
      ensures err != NSAPI_ERROR_OK ==> pin == old(pin)
      ensures modemInitialised <==> old(modemInitialised) || modem.ComesUp()
      ensures err == NSAPI_ERROR_OK <==> modemInitialised && newPin.Some? && old(pin).Some? && modem.takesNewPin
    {
      err := NSAPI_ERROR_AUTH_FAILURE;
      var ready := Init(None);
      if ready {
        var ok := ChangeSimPin(newPin);
        if ok {
          err := NSAPI_ERROR_OK;
        }
      } else {
        err := NSAPI_ERROR_DEVICE_ERROR;
      }
    }

    method SetNewSimPin(newPin: Option<string>, immediate: bool, oldPin: Option<string>) returns (err: int)
      modifies this
      ensures CallStep(if immediate then Immediate else PutOffPin(newPin), old(Now()), Now(), err)
      ensures immediate && err == NSAPI_ERROR_OK ==> pin == newPin
      ensures !immediate || err != NSAPI_ERROR_OK ==> pin == if oldPin.Some? then oldPin else old(pin)
      ensures modem == old(modem)
      ensures immediate ==> (err == NSAPI_ERROR_OK <==>
        modemInitialised && newPin.Some? && (oldPin.Some? || old(pin).Some?) && modem.takesNewPin)
    {
      if oldPin.Some? {
        pin := oldPin;
      }
      if immediate {
        err := SetPinNow(newPin);
      } else {
        err := NSAPI_ERROR_OK;
        past := past.(pinsPutOff := past.pinsPutOff + 1);
        pinChangePending := true;
        pinChangeNewValue := newPin;
      }
    }

    method Deinit()
      modifies this`modemInitialised
      ensures CallStep(Call.Deinit, old(Now()), Now(), NSAPI_ERROR_OK)
    {
      modemInitialised := false;
    }

    method SetPin(newPin: Option<string>)
      modifies this`pin
      ensures pin == newPin && CallStep(Call.SetPin, old(Now()), Now(), NSAPI_ERROR_OK)
    {
      pin := newPin;
    }
  }
}
