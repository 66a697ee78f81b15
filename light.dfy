/**
 * One Twinkly light as the plugin sees it: a node bound to a host that keeps
 * two cached driver values, ST (power: 100 on, 0 off) and GV1 (brightness).
 * Every call to the device is given as its outcome; a failed call raises in
 * the device client, the handler catches it and leaves the cache as it was.
 */
module Light {

  /** The outcome of one call to the device: the value it returned, or failure. */
  datatype Outcome<T> = Success(value: T) | Failure

  /**
   * What the device answers during one refresh: the power read and the
   * brightness read. The brightness read is made only when the power read
   * succeeds.
   */
  datatype Reading = Reading(isOn: Outcome<bool>, brightness: Outcome<int>)

  /** The cached driver values of a light. */
  datatype Drivers = Drivers(st: int, gv1: int)

  /** ST reported for a light that is on, and for one that is off. */
  const ON: int := 100
  const OFF: int := 0

  /** The driver values a light starts with. */
  const INITIAL: Drivers := Drivers(OFF, 0)

  /**
   * The cache after a refresh. A failed power read leaves both values; a
   * successful one sets ST, and GV1 then follows the brightness read if it
   * succeeds. A failed brightness read keeps GV1 but not the old ST.
   */
  function Synced(d: Drivers, r: Reading): (d': Drivers)
    ensures r.isOn.Failure? ==> d' == d
    ensures r.isOn.Success? ==> d'.st == (if r.isOn.value then ON else OFF)
    ensures r.isOn.Success? && r.brightness.Success? ==> d'.gv1 == r.brightness.value
    ensures r.brightness.Failure? ==> d'.gv1 == d.gv1
  {
    match r.isOn
    case Failure => d
    case Success(on) =>
      var st := if on then ON else OFF;
      match r.brightness
      case Failure => Drivers(st, d.gv1)
      case Success(b) => Drivers(st, b)
  }

  /** A refresh that reads both values replaces the whole cache: the prior values do not matter. */
  lemma SyncedForgetsPrior(d1: Drivers, d2: Drivers, r: Reading)
    requires r.isOn.Success? && r.brightness.Success?
    ensures Synced(d1, r) == Synced(d2, r)
  {
  }

  /** Refreshing twice with the same answers is the same as refreshing once. */
  lemma SyncedIdempotent(d: Drivers, r: Reading)
    ensures Synced(Synced(d, r), r) == Synced(d, r)
  {
  }

  /**
   * The cache after a power command: on success ST is written through to
   * the value commanded (without re-reading the device); on failure nothing
   * changes. GV1 is never touched.
   */
  function Switched(d: Drivers, on: bool, sent: Outcome<()>): (d': Drivers)
    ensures d'.gv1 == d.gv1
    ensures sent.Success? ==> d'.st == (if on then ON else OFF)
    ensures sent.Failure? ==> d' == d
  {
    if sent.Success? then d.(st := if on then ON else OFF) else d
  }

  /**
   * The cache after a brightness command. `value` is the outcome of
   * converting the command's value to an integer; when that fails the
   * device is not called. On success GV1 is the requested value as given,
   * with no clamping; ST is never touched.
   */
  function Dimmed(d: Drivers, value: Outcome<int>, sent: Outcome<()>): (d': Drivers)
    ensures d'.st == d.st
    ensures value.Success? && sent.Success? ==> d'.gv1 == value.value
    ensures value.Failure? || sent.Failure? ==> d' == d
  {
    if value.Success? && sent.Success? then d.(gv1 := value.value) else d
  }

  /** A light node and its driver cache. */
  class TwinklyLight {
    /** Address of the controller node this light hangs under. */
    const primary: string
    /** Registry address of this light. */
    const address: string
    /** Display name: the label it was discovered under. */
    const name: string
    /** Host of the device this light talks to. */
    const myHost: string
    /** Whether the controller's short poll refreshes this node: always, for a light. */
    const queryON: bool
    /** ST driver: 100 when the device is on, 0 when off. */
    var st: int
    /** GV1 driver: brightness. */
    var gv1: int

    /** The cached driver values. */
    function Cached(): Drivers
      reads this
    {
      Drivers(st, gv1)
    }

    constructor (primary: string, address: string, name: string, host: string)
      ensures this.primary == primary && this.address == address && this.name == name
      ensures myHost == host && queryON
      ensures Cached() == INITIAL
    {
      this.primary := primary;
      this.address := address;
      this.name := name;
      myHost := host;
      queryON := true;
      st := OFF;
      gv1 := 0;
    }

    /** The start callback: refresh from the device. */
    method Start(r: Reading)
      modifies this
      ensures Cached() == Synced(old(Cached()), r)
    {
      Update(r);
    }

    /** Re-report the cached values without contacting the device; nothing changes. */
    method Query() returns (report: Drivers)
      ensures report == Cached()
    {
      report := Drivers(st, gv1);
    }

    /** DON command. */
    method SetOn(sent: Outcome<()>)
      modifies this
      ensures Cached() == Switched(old(Cached()), true, sent)
    {
      if sent.Success? {
        st := ON;
      }
    }

    /** DOF command. */
    method SetOff(sent: Outcome<()>)
      modifies this
      ensures Cached() == Switched(old(Cached()), false, sent)
    {
      if sent.Success? {
        st := OFF;
      }
    }

    /** SET_BRI command. */
    method SetBrightness(value: Outcome<int>, sent: Outcome<()>)
      modifies this
      ensures Cached() == Dimmed(old(Cached()), value, sent)
    {
      if value.Success? && sent.Success? {
        gv1 := value.value;
      }
    }

    /** Refresh: read power, then brightness; a failure stops the refresh where it happens. */
    method Update(r: Reading)
      modifies this
      ensures Cached() == Synced(old(Cached()), r)
    {
      match r.isOn
      case Failure =>
      case Success(on) =>
        if on {
          st := ON;
        } else {
          st := OFF;
        }
        match r.brightness
        case Failure =>
        case Success(b) =>
          gv1 := b;
    }
  }
}
