/** The registry of interrupt handlers of the GPIO pins and the dispatcher of a group of pins. */
module Gpio {
  import opened Options

  const PINS_PER_PORT: nat := 8
  const PINS_PER_GROUP: nat := 32
  const PORTS_PER_GROUP: nat := 4

  // ---------- bytes of pin bits ----------

  /** The mask of bit k. */
  function Bit(k: nat): bv8
    requires k < 8
  {
    (1 as bv8) << k
  }

  predicate IsSet(b: bv8, k: nat)
    requires k < 8
  {
    (b >> k) & 1 == 1
  }

  function PowerOfTwo(k: nat): (p: nat)
    ensures p > 0
  {
    if k == 0 then 1 else 2 * PowerOfTwo(k - 1)
  }

  /** Bit k of a byte is the digit of 2 to the k in it. */
  lemma IsSetDigit(b: bv8, k: nat)
    requires k < 8
    ensures IsSet(b, k) <==> b as nat / PowerOfTwo(k) % 2 == 1
  {
    ShiftedByte(b, k);
    LowestDigit(b >> k);
  }

  lemma LowestDigit(b: bv8)
    ensures (b & 1) as nat == b as nat % 2
  {
  }

  lemma {:induction false} ShiftedByte(b: bv8, k: nat)
    requires k < 8
    ensures (b >> k) as nat == b as nat / PowerOfTwo(k)
  {
    if k > 0 {
      ShiftedByte(b, k - 1);
      ShiftTwice(b, k);
      HalfByte(b >> (k - 1));
      DivideTwice(b as nat, PowerOfTwo(k - 1));
    }
  }

  lemma ShiftTwice(b: bv8, k: nat)
    requires 0 < k < 8
    ensures b >> k == (b >> (k - 1)) >> 1
  {
  }

  lemma HalfByte(b: bv8)
    ensures (b >> 1) as nat == b as nat / 2
  {
  }

  lemma DivideTwice(n: nat, p: nat)
    requires p > 0
    ensures n / p / 2 == n / (2 * p)
  {
    var q := n / p / 2;
    var r := n / p - 2 * q;
    assert n == (2 * q + r) * p + n % p;
    assert 0 <= r * p + n % p < 2 * p by {
      if r == 1 { assert r * p == p; } else { assert r == 0; }
    }
    assert n == q * (2 * p) + (r * p + n % p);
    QuotientIs(n, 2 * p, q, r * p + n % p);
  }

  lemma QuotientIs(n: nat, d: nat, q: nat, r: nat)
    requires n == q * d + r && r < d
    ensures n / d == q
  {
    assert (n / d - q) * d == r - n % d;
    Multiple(n / d - q, d);
  }

  lemma Multiple(x: int, d: nat)
    ensures x >= 1 ==> x * d >= d
    ensures x <= -1 ==> x * d + d <= 0
  {
  }

  /** The value written where the mask is set, the data elsewhere. */
  function Merged(data: bv8, value: bv8, mask: bv8): bv8 {
    (data & !mask) | (value & mask)
  }

  lemma MergedAt(data: bv8, value: bv8, mask: bv8, b: bv8)
    requires mask & b == 0 || mask & b == b
    ensures Merged(data, value, mask) & b != 0 <==> if mask & b != 0 then value & b != 0 else data & b != 0
  {
    assert ((data & !mask) | (value & mask)) & b == if mask & b == 0 then data & b else value & b;
  }

  lemma MaskAt(mask: bv8, k: nat)
    requires k < 8
    ensures mask & Bit(k) == 0 || mask & Bit(k) == Bit(k)
  {
  }

  lemma MergedBits(data: bv8, value: bv8, mask: bv8, k: nat)
    requires k < 8
    ensures IsSet(Merged(data, value, mask), k) <==> if IsSet(mask, k) then IsSet(value, k) else IsSet(data, k)
  {
    MaskAt(mask, k);
    MergedAt(data, value, mask, Bit(k));
  }

  lemma BitAlone(k: nat, j: nat)
    requires k < 8 && j < 8
    ensures IsSet(Bit(k), j) <==> j == k
  {
  }

  /** b1 is b0 with bit k changed to `on`. */
  ghost predicate OneBit(b0: bv8, b1: bv8, k: nat, on: bool)
    requires k < 8
  {
    && (IsSet(b1, k) <==> on)
    && forall j :: 0 <= j < 8 && j != k ==> (IsSet(b1, j) <==> IsSet(b0, j))
  }

  /** The bits of b1 are those of the value where the mask is set, and those of b0 elsewhere. */
  ghost predicate BitsMerged(b0: bv8, b1: bv8, value: bv8, mask: bv8) {
    forall j :: 0 <= j < 8 ==> (IsSet(b1, j) <==> if IsSet(mask, j) then IsSet(value, j) else IsSet(b0, j))
  }

  lemma MergedAll(data: bv8, value: bv8, mask: bv8)
    ensures BitsMerged(data, Merged(data, value, mask), value, mask)
  {
    forall j | 0 <= j < 8
      ensures IsSet(Merged(data, value, mask), j) <==> if IsSet(mask, j) then IsSet(value, j) else IsSet(data, j)
    {
      MergedBits(data, value, mask, j);
    }
  }

  lemma Cleared(data: bv8, mask: bv8)
    ensures data & !mask == Merged(data, 0, mask)
  {
  }

  /** The value to write, and the mask, for changing a single pin. */
  function PinValue(k: nat, on: bool): bv8
    requires k < 8
  {
    if on then Bit(k) else 0
  }

  lemma MergedPin(b0: bv8, b1: bv8, k: nat, on: bool)
    requires k < 8 && BitsMerged(b0, b1, PinValue(k, on), Bit(k))
    ensures OneBit(b0, b1, k, on)
  {
    forall j | 0 <= j < 8 ensures IsSet(b1, j) <==> if j == k then on else IsSet(b0, j) {
      BitAlone(k, j);
      assert !IsSet(0, j);
    }
  }

  /** The masks are the powers of two. */
  lemma BitNumber(k: nat)
    requires k < 8
    ensures Bit(k) as nat == [1, 2, 4, 8, 16, 32, 64, 128][k]
  {
    if k == 0 { assert Bit(k) == 1; }
    else if k == 1 { assert Bit(k) == 2; }
    else if k == 2 { assert Bit(k) == 4; }
    else if k == 3 { assert Bit(k) == 8; }
    else if k == 4 { assert Bit(k) == 16; }
    else if k == 5 { assert Bit(k) == 32; }
    else if k == 6 { assert Bit(k) == 64; }
    else { assert Bit(k) == 128; }
  }

  lemma SameBits(b: bv8, c: bv8)
    requires forall j :: 0 <= j < 8 ==> (IsSet(b, j) <==> IsSet(c, j))
    ensures b == c
  {
    assert (IsSet(b, 0) <==> IsSet(c, 0)) && (IsSet(b, 1) <==> IsSet(c, 1)) && (IsSet(b, 2) <==> IsSet(c, 2));
    assert (IsSet(b, 3) <==> IsSet(c, 3)) && (IsSet(b, 4) <==> IsSet(c, 4)) && (IsSet(b, 5) <==> IsSet(c, 5));
    assert (IsSet(b, 6) <==> IsSet(c, 6)) && (IsSet(b, 7) <==> IsSet(c, 7));
  }

  /** A byte of which one bit has changed is the byte with the mask of that bit added or taken out. */
  lemma OneBitExact(b0: bv8, b1: bv8, k: nat, on: bool)
    requires k < 8
    ensures OneBit(b0, b1, k, on) <==> b1 == if on then b0 | Bit(k) else b0 & !Bit(k)
  {
    var b := Merged(b0, PinValue(k, on), Bit(k));
    assert b == if on then b0 | Bit(k) else b0 & !Bit(k) by {
      MergedOnes(b0, Bit(k));
      Cleared(b0, Bit(k));
    }
    MergedAll(b0, PinValue(k, on), Bit(k));
    MergedPin(b0, b, k, on);
    if OneBit(b0, b1, k, on) {
      OneBitUnique(b0, b, b1, k, on);
    }
  }

  lemma OneBitUnique(b0: bv8, b: bv8, c: bv8, k: nat, on: bool)
    requires k < 8 && OneBit(b0, b, k, on) && OneBit(b0, c, k, on)
    ensures b == c
  {
    SameBits(b, c);
  }

  lemma MergedOnes(data: bv8, mask: bv8)
    ensures data | mask == Merged(data, mask, mask)
  {
  }

  // ---------- the registry ----------

  /** A handler and its argument, known by a number. What it does when it is called is up to it. */
  datatype Handler = Handler(id: nat)

  datatype Pin = Pin(lock: bool, active: bool, handler: Option<Handler>) {
    /** A pin has a handler exactly while it is locked, and is active only then. */
    predicate Ok() {
      (handler.Some? <==> lock) && (active ==> lock)
    }
  }

  /** The direction and interrupt registers of a port. */
  datatype Port = Port(dir: bv8, enable: bv8, sense: bv8, both: bv8, event: bv8)

  function Locked(pins: seq<Pin>, lo: nat, hi: nat): nat
    requires lo <= hi <= |pins|
  {
    if lo == hi then 0 else Locked(pins, lo, hi - 1) + if pins[hi - 1].lock then 1 else 0
  }

  function One(b: bool): nat {
    if b then 1 else 0
  }

  lemma {:induction false} LockedUpdate(pins: seq<Pin>, p: nat, q: Pin, lo: nat, hi: nat)
    requires lo <= hi <= |pins| && p < |pins|
    ensures Locked(pins[p := q], lo, hi) ==
            if lo <= p < hi then Locked(pins, lo, hi) + One(q.lock) - One(pins[p].lock) else Locked(pins, lo, hi)
    decreases hi
  {
    if lo < hi { LockedUpdate(pins, p, q, lo, hi - 1); }
  }

  /** The pin is in order, and its interrupt is enabled exactly while it is active. */
  ghost predicate PinConsistent(pins: seq<Pin>, ports: seq<Port>, p: nat)
    requires p < |pins| && p / 8 < |ports|
  {
    pins[p].Ok() && (IsSet(ports[p / 8].enable, p % 8) <==> pins[p].active)
  }

  /** The group counts its locked pins. */
  ghost predicate GroupConsistent(pins: seq<Pin>, nums: seq<int>, g: nat)
    requires g < |nums| && PINS_PER_GROUP * |nums| <= |pins|
  {
    nums[g] == Locked(pins, PINS_PER_GROUP * g, PINS_PER_GROUP * g + PINS_PER_GROUP)
  }

  ghost predicate Consistent(groups: nat, pins: seq<Pin>, nums: seq<int>, ports: seq<Port>) {
    && |pins| == PINS_PER_GROUP * groups && |nums| == groups && |ports| == PORTS_PER_GROUP * groups
    && (forall p {:trigger PinConsistent(pins, ports, p)} :: 0 <= p < |pins| ==> PinConsistent(pins, ports, p))
    && forall g {:trigger GroupConsistent(pins, nums, g)} :: 0 <= g < groups ==> GroupConsistent(pins, nums, g)
  }

  /** Changing one pin in order, with its enable bit and the count of its group, keeps the registry consistent. */
  lemma ChangeKeeps(groups: nat, pins: seq<Pin>, nums: seq<int>, ports: seq<Port>, p: nat, q: Pin, port: Port)
    requires Consistent(groups, pins, nums, ports) && p < |pins| && q.Ok()
    requires OneBit(ports[p / 8].enable, port.enable, p % 8, q.active)
    ensures Consistent(groups, pins[p := q], nums[p / 32 := nums[p / 32] + One(q.lock) - One(pins[p].lock)],
                       ports[p / 8 := port])
  {
    var pins', ports' := pins[p := q], ports[p / 8 := port];
    var nums' := nums[p / 32 := nums[p / 32] + One(q.lock) - One(pins[p].lock)];
    forall g: nat | g < groups ensures GroupConsistent(pins', nums', g) {
      assert GroupConsistent(pins, nums, g);
      LockedUpdate(pins, p, q, 32 * g, 32 * g + 32);
    }
    forall r: nat | r < |pins| ensures PinConsistent(pins', ports', r) {
      assert PinConsistent(pins, ports, r);
      if r / 8 == p / 8 && r != p { assert r % 8 != p % 8; }
    }
  }

  /** The flags of a request. */
  const GPIO_INT_SENSE_LEVEL: bv32 := 0x1
  const GPIO_INT_BOTH_EDGE: bv32 := 0x2
  const GPIO_INT_EVENT_HI: bv32 := 0x4

  /** What they mean: level rather than edge, both edges, high or rising. */
  datatype Trigger = Trigger(level: bool, bothEdges: bool, high: bool)

  function TriggerOf(irqflags: bv32): Trigger {
    Trigger(irqflags & GPIO_INT_SENSE_LEVEL != 0, irqflags & GPIO_INT_BOTH_EDGE != 0,
            irqflags & GPIO_INT_EVENT_HI != 0)
  }

  /** Between p0 and p1 only bit k has changed, and now stands for an enabled input with the given trigger. */
  ghost predicate Configured(p0: Port, p1: Port, k: nat, t: Trigger)
    requires k < 8
  {
    && OneBit(p0.dir, p1.dir, k, false) && OneBit(p0.enable, p1.enable, k, true)
    && OneBit(p0.sense, p1.sense, k, t.level)
    && (if t.level then p1.both == p0.both else OneBit(p0.both, p1.both, k, t.bothEdges))
    && (if !t.level && t.bothEdges then p1.event == p0.event else OneBit(p0.event, p1.event, k, t.high))
  }

  /** The calls of the registry that programs, and handlers while they are served, can make. */
  datatype Action =
    | Requesting(pin: nat, handler: Option<Handler>, irqflags: bv32)
    | Freeing(pin: nat)
    | Enabling(pin: nat)
    | Disabling(pin: nat)

  /** The pins after a call. */
  function Performed(pins: seq<Pin>, a: Action): (r: seq<Pin>)
    ensures |r| == |pins|
  {
    if a.pin >= |pins| then pins
    else
      match a
      case Requesting(p, h, _) => if h.Some? && !pins[p].lock then pins[p := Pin(true, true, h)] else pins
      case Freeing(p) => if pins[p].lock then pins[p := Pin(false, false, None)] else pins
      case Enabling(p) => if pins[p].lock then pins[p := pins[p].(active := true)] else pins
      case Disabling(p) => if pins[p].lock then pins[p := pins[p].(active := false)] else pins
  }

  function AllPerformed(pins: seq<Pin>, actions: seq<Action>): (r: seq<Pin>)
    ensures |r| == |pins|
  {
    if actions == [] then pins
    else Performed(AllPerformed(pins, actions[..|actions| - 1]), actions[|actions| - 1])
  }

  /** What the handler called for each pin does during one interrupt. */
  type Script = nat -> seq<Action>

  /** The pins once the handlers of the pins `called` have been called in order. */
  function AfterCalls(pins: seq<Pin>, called: seq<nat>, does: Script): (r: seq<Pin>)
    ensures |r| == |pins|
  {
    if called == [] then pins
    else AllPerformed(AfterCalls(pins, called[..|called| - 1], does), does(called[|called| - 1]))
  }

  /** From the pin p to the end of its group, the pending pins that have a handler by the time it is their turn. */
  function Todo(pins: seq<Pin>, status: seq<bool>, base: nat, p: nat, does: Script): (ps: seq<nat>)
    requires |status| == PINS_PER_GROUP && base <= p <= base + PINS_PER_GROUP <= |pins|
    decreases base + PINS_PER_GROUP - p
  {
    if p == base + PINS_PER_GROUP then []
    else if status[p - base] && pins[p].handler.Some? then
      [p] + Todo(AllPerformed(pins, does(p)), status, base, p + 1, does)
    else Todo(pins, status, base, p + 1, does)
  }

  /** By the time the handlers of `called` have been called, no more pins of the group are registered than that. */
  predicate Stops(pins: seq<Pin>, base: nat, called: seq<nat>, does: Script)
    requires base + PINS_PER_GROUP <= |pins|
  {
    |called| >= Locked(AfterCalls(pins, called, does), base, base + PINS_PER_GROUP)
  }

  /** None of the first parts of `called` that are not empty and have less than n pins stops the dispatcher. */
  ghost predicate RunsOn(pins: seq<Pin>, base: nat, called: seq<nat>, does: Script, n: nat)
    requires base + PINS_PER_GROUP <= |pins|
  {
    forall k {:trigger called[..k]} :: 1 <= k < n && k <= |called| ==> !Stops(pins, base, called[..k], does)
  }

  /** Nothing but the enable bit k of the port has changed, to `on`. */
  ghost predicate Enabled(p0: Port, p1: Port, k: nat, on: bool)
    requires k < 8
  {
    p1 == p0.(enable := p1.enable) && OneBit(p0.enable, p1.enable, k, on)
  }

  class Driver {
    const groups: nat
    const pins: array<Pin>
    const irqNum: array<int>
    const ports: array<Port>

    /** All interrupts off and nothing registered. */
    constructor (groups: nat)
      requires groups > 0
      ensures Valid() && fresh(pins) && fresh(irqNum) && fresh(ports) && this.groups == groups
      ensures forall p :: 0 <= p < pins.Length ==> pins[p] == Pin(false, false, None)
    {
      this.groups := groups;
      pins := new Pin[PINS_PER_GROUP * groups](_ => Pin(false, false, None));
      irqNum := new int[groups](_ => 0);
      ports := new Port[PORTS_PER_GROUP * groups](_ => Port(0, 0, 0, 0, 0));
      new;
      forall g: nat | g < groups ensures GroupConsistent(pins[..], irqNum[..], g) {
        NoneLocked(pins[..], 32 * g, 32 * g + 32);
      }
    }

    ghost predicate Valid()
      reads this, pins, irqNum, ports
    {
      Consistent(groups, pins[..], irqNum[..], ports[..])
    }

    /** Between the old state and now only this port has changed. */
    twostate predicate OtherPorts(port: nat)
      reads ports
    {
      forall q :: 0 <= q < ports.Length && q != port ==> ports[q] == old(ports[q])
    }

    method DirectionInputWithMask(port: nat, mask: bv8)
      requires port < ports.Length
      modifies ports
      ensures ports[port] == old(ports[port]).(dir := ports[port].dir) && OtherPorts(port)
      ensures BitsMerged(old(ports[port]).dir, ports[port].dir, 0, mask)
    {
      Cleared(ports[port].dir, mask);
      MergedAll(ports[port].dir, 0, mask);
      ports[port] := ports[port].(dir := ports[port].dir & !mask);
    }

    method SetEnableWithMask(port: nat, value: bv8, mask: bv8)
      requires port < ports.Length
      modifies ports
      ensures ports[port] == old(ports[port]).(enable := ports[port].enable) && OtherPorts(port)
      ensures BitsMerged(old(ports[port]).enable, ports[port].enable, value, mask)
    {
      MergedAll(ports[port].enable, value, mask);
      ports[port] := ports[port].(enable := Merged(ports[port].enable, value, mask));
    }

    method SetSenseWithMask(port: nat, value: bv8, mask: bv8)
      requires port < ports.Length
      modifies ports
      ensures ports[port] == old(ports[port]).(sense := ports[port].sense) && OtherPorts(port)
      ensures BitsMerged(old(ports[port]).sense, ports[port].sense, value, mask)
    {
      MergedAll(ports[port].sense, value, mask);
      ports[port] := ports[port].(sense := Merged(ports[port].sense, value, mask));
    }

    method SetBothEdgesWithMask(port: nat, value: bv8, mask: bv8)
      requires port < ports.Length
      modifies ports
      ensures ports[port] == old(ports[port]).(both := ports[port].both) && OtherPorts(port)
      ensures BitsMerged(old(ports[port]).both, ports[port].both, value, mask)
    {
      MergedAll(ports[port].both, value, mask);
      ports[port] := ports[port].(both := Merged(ports[port].both, value, mask));
    }

    method SetEventWithMask(port: nat, value: bv8, mask: bv8)
      requires port < ports.Length
      modifies ports
      ensures ports[port] == old(ports[port]).(event := ports[port].event) && OtherPorts(port)
      ensures BitsMerged(old(ports[port]).event, ports[port].event, value, mask)
    {
      MergedAll(ports[port].event, value, mask);
      ports[port] := ports[port].(event := Merged(ports[port].event, value, mask));
    }

    /** Makes the pin k of a port an enabled interrupt input with the given trigger; nothing else changes. */
    method Configure(port: nat, k: nat, t: Trigger)
      requires port < ports.Length && k < 8
      modifies ports
      ensures Configured(old(ports[port]), ports[port], k, t) && OtherPorts(port)
    {
      var val := Bit(k);
      DirectionInputWithMask(port, val);
      MergedPin(old(ports[port]).dir, ports[port].dir, k, false);
      if !t.level {
        SetSenseWithMask(port, 0, val);
        if !t.bothEdges {
          SetBothEdgesWithMask(port, 0, val);
          SetEventWithMask(port, PinValue(k, t.high), val);
        } else {
          SetBothEdgesWithMask(port, val, val);
        }
        MergedPin(old(ports[port]).both, ports[port].both, k, t.bothEdges);
      } else {
        SetSenseWithMask(port, val, val);
        SetEventWithMask(port, PinValue(k, t.high), val);
      }
      MergedPin(old(ports[port]).sense, ports[port].sense, k, t.level);
      if t.level || !t.bothEdges {
        MergedPin(old(ports[port]).event, ports[port].event, k, t.high);
      }
      SetEnableWithMask(port, val, val);
      MergedPin(old(ports[port]).enable, ports[port].enable, k, true);
    }

    /** Turns the interrupt of the pin k of a port on or off; nothing else changes. */
    method Switch(port: nat, k: nat, on: bool)
      requires port < ports.Length && k < 8
      modifies ports
      ensures Enabled(old(ports[port]), ports[port], k, on) && OtherPorts(port)
    {
      SetEnableWithMask(port, PinValue(k, on), Bit(k));
      MergedPin(old(ports[port]).enable, ports[port].enable, k, on);
    }

    /** Registers a handler for a pin that has none, and configures and enables the pin's interrupt. */
    method Request(pin: nat, handler: Option<Handler>, irqflags: bv32) returns (r: int)
      requires Valid()
      modifies pins, irqNum, ports
      ensures Valid() && (r == 0 || r == -1)
      ensures r == 0 <==> pin < pins.Length && handler.Some? && !old(pins[..])[pin].lock
      ensures r == 0 ==>
                && pins[..] == old(pins[..])[pin := Pin(true, true, handler)]
                && irqNum[..] == old(irqNum[..])[pin / 32 := old(irqNum[..])[pin / 32] + 1]
                && ports[..] == old(ports[..])[pin / 8 := ports[pin / 8]]
                && Configured(old(ports[..])[pin / 8], ports[pin / 8], pin % 8, TriggerOf(irqflags))
      ensures r == -1 ==> pins[..] == old(pins[..]) && irqNum[..] == old(irqNum[..]) && ports[..] == old(ports[..])
    {
      if pin >= pins.Length || handler.None? {
        return -1;
      }
      if pins[pin].lock {
        return -1;
      }
      pins[pin] := Pin(true, true, handler);
      irqNum[pin / 32] := irqNum[pin / 32] + 1;
      Configure(pin / PINS_PER_PORT, pin % PINS_PER_PORT, TriggerOf(irqflags));
      assert ports[..] == old(ports[..])[pin / 8 := ports[pin / 8]];
      ChangeKeeps(groups, old(pins[..]), old(irqNum[..]), old(ports[..]), pin, Pin(true, true, handler),
                  ports[pin / 8]);
      r := 0;
    }

    /** The state is what it was except for the contents and the enable bit of one pin and the count of its group. */
    twostate predicate PinChanged(pin: nat, q: Pin)
      requires old(Valid()) && pin < pins.Length
      reads this, pins, irqNum, ports
    {
      && pins[..] == old(pins[..])[pin := q]
      && irqNum[..] ==
         old(irqNum[..])[pin / 32 := old(irqNum[..])[pin / 32] + One(q.lock) - One(old(pins[..])[pin].lock)]
      && |ports[..]| == |old(ports[..])| && OtherPorts(pin / 8)
      && Enabled(old(ports[..])[pin / 8], ports[pin / 8], pin % 8, q.active)
    }

    twostate predicate Unchanged()
      reads this, pins, irqNum, ports
    {
      pins[..] == old(pins[..]) && irqNum[..] == old(irqNum[..]) && ports[..] == old(ports[..])
    }

    /** Undoes a request. Freeing a pin that has no handler does nothing. */
    method Free(pin: nat)
      requires Valid()
      modifies pins, irqNum, ports
      ensures Valid()
      ensures if pin < pins.Length && old(pins[..])[pin].lock then PinChanged(pin, Pin(false, false, None))
              else Unchanged()
    {
      if pin >= pins.Length {
        return;
      }
      ghost var p0 := pins[pin];
      assert PinConsistent(pins[..], ports[..], pin);
      if pins[pin].active {
        pins[pin] := pins[pin].(active := false);
        Switch(pin / PINS_PER_PORT, pin % PINS_PER_PORT, false);
      }
      if pins[pin].lock {
        pins[pin] := pins[pin].(lock := false, handler := None);
        irqNum[pin / 32] := irqNum[pin / 32] - 1;
        assert pins[..] == old(pins[..])[pin := Pin(false, false, None)];
        assert irqNum[..] == old(irqNum[..])[pin / 32 := old(irqNum[..])[pin / 32] - 1];
        assert ports[..] == old(ports[..])[pin / 8 := ports[pin / 8]];
        ChangeKeeps(groups, old(pins[..]), old(irqNum[..]), old(ports[..]), pin, Pin(false, false, None),
                    ports[pin / 8]);
      } else {
        assert pins[..] == old(pins[..]) && irqNum[..] == old(irqNum[..]) && ports[..] == old(ports[..]);
      }
    }

    /** Turns the interrupt of a registered pin back on. */
    method Enable(pin: nat)
      requires Valid()
      modifies pins, irqNum, ports
      ensures Valid()
      ensures if pin < pins.Length && old(pins[..])[pin].lock then PinChanged(pin, old(pins[..])[pin].(active := true))
              else Unchanged()
    {
      if pin >= pins.Length || !pins[pin].lock {
        return;
      }
      if !pins[pin].active {
        pins[pin] := pins[pin].(active := true);
        Switch(pin / PINS_PER_PORT, pin % PINS_PER_PORT, true);
      }
      SwitchKeeps(groups, old(pins[..]), irqNum[..], old(ports[..]), ports[..], pin, true);
    }

    /** Turns the interrupt of a registered pin off; the pin keeps its handler. */
    method Disable(pin: nat)
      requires Valid()
      modifies pins, irqNum, ports
      ensures Valid()
      ensures if pin < pins.Length && old(pins[..])[pin].lock then PinChanged(pin, old(pins[..])[pin].(active := false))
              else Unchanged()
    {
      if pin >= pins.Length || !pins[pin].lock {
        return;
      }
      if pins[pin].active {
        pins[pin] := pins[pin].(active := false);
        Switch(pin / PINS_PER_PORT, pin % PINS_PER_PORT, false);
      }
      SwitchKeeps(groups, old(pins[..]), irqNum[..], old(ports[..]), ports[..], pin, false);
    }

    method Perform(a: Action)
      requires Valid()
      modifies pins, irqNum, ports
      ensures Valid() && pins[..] == Performed(old(pins[..]), a)
    {
      match a
      case Requesting(pin, handler, t) => var r := Request(pin, handler, t);
      case Freeing(pin) => Free(pin);
      case Enabling(pin) => Enable(pin);
      case Disabling(pin) => Disable(pin);
    }

    /** Calls the handler of a pin. */
    method Call(pin: nat, does: Script)
      requires Valid()
      modifies pins, irqNum, ports
      ensures Valid() && pins[..] == AllPerformed(old(pins[..]), does(pin))
    {
      var actions := does(pin);
      for i := 0 to |actions|
        invariant Valid() && pins[..] == AllPerformed(old(pins[..]), actions[..i])
      {
        assert actions[..i + 1][..i] == actions[..i];
        Perform(actions[i]);
      }
      assert actions[..|actions|] == actions;
    }

    /** The dispatcher's step for the line i of its group. `stop` says that it leaves it at that. */
    method DispatchLine(group: nat, status: seq<bool>, does: Script, i: nat, called: seq<nat>, ghost pins0: seq<Pin>)
      returns (called': seq<nat>, stop: bool)
      requires Valid() && group < groups && i < PINS_PER_GROUP
      requires Dispatching(pins0, status, PINS_PER_GROUP * group, PINS_PER_GROUP * group + i, does, called, pins[..])
      modifies pins, irqNum, ports
      ensures Valid()
      ensures if stop then Dispatched(pins0, status, PINS_PER_GROUP * group, does, called', pins[..])
              else Dispatching(pins0, status, PINS_PER_GROUP * group, PINS_PER_GROUP * group + i + 1, does, called',
                               pins[..])
    {
      called', stop := called, false;
      ghost var base := PINS_PER_GROUP * group;
      var pin := i + PINS_PER_GROUP * group;
      if status[i] && pins[pin].handler.Some? {
        ghost var pins1 := pins[..];
        Call(pin, does);
        called' := called + [pin];
        assert GroupConsistent(pins[..], irqNum[..], group);
        DispatchingCalls(pins0, status, base, pin, does, called, pins1, pins[..]);
        stop := |called'| >= irqNum[group];
      } else {
        DispatchingPasses(pins0, status, base, pin, does, called, pins[..]);
      }
    }

    /**
     * The interrupt service routine of a group: calls the handlers of pending pins, lowest pin first, until it has
     * called as many as there are registered pins of the group by then. Handlers may make any calls of the registry.
     */
    method Dispatch(group: nat, status: seq<bool>, does: Script) returns (called: seq<nat>)
      requires Valid() && group < groups && |status| == PINS_PER_GROUP
      modifies pins, irqNum, ports
      ensures Valid()
      ensures Dispatched(old(pins[..]), status, PINS_PER_GROUP * group, does, called, pins[..])
    {
      called := [];
      ghost var pins0, base := pins[..], PINS_PER_GROUP * group;
      DispatchingStarts(groups, pins0, irqNum[..], ports[..], group, status, does);
      if irqNum[group] == 0 {
        return;
      }
      var i := 0;
      while i < PINS_PER_GROUP
        invariant 0 <= i <= PINS_PER_GROUP && Valid()
        invariant Dispatching(pins0, status, base, base + i, does, called, pins[..])
      {
        var stop;
        called, stop := DispatchLine(group, status, does, i, called, pins0);
        if stop {
          return;
        }
        i := i + 1;
      }
      DispatchingEnds(pins0, status, base, does, called, pins[..]);
    }
  }

  /** What programs and devices do: calls of the registry, and interrupts with the status of a group's lines. */
  datatype Event = Act(action: Action) | Interrupt(group: nat, status: seq<bool>, does: Script) {
    predicate Ok(groups: nat) {
      Interrupt? ==> group < groups && |status| == PINS_PER_GROUP
    }
  }

  function Unregistered(groups: nat): (pins: seq<Pin>)
    ensures |pins| == PINS_PER_GROUP * groups
  {
    seq(PINS_PER_GROUP * groups, _ => Pin(false, false, None))
  }

  /** How many of `todo` are called, if the first k are. */
  function CallCount(pins: seq<Pin>, base: nat, todo: seq<nat>, does: Script, k: nat): (n: nat)
    requires base + PINS_PER_GROUP <= |pins|
    ensures n <= |todo|
    decreases |todo| - k
  {
    if k >= |todo| then |todo| else if k > 0 && Stops(pins, base, todo[..k], does) then k
    else CallCount(pins, base, todo, does, k + 1)
  }

  function AfterEvent(groups: nat, pins: seq<Pin>, e: Event): (r: seq<Pin>)
    requires |pins| == PINS_PER_GROUP * groups && e.Ok(groups)
    ensures |r| == |pins|
  {
    match e
    case Act(a) => Performed(pins, a)
    case Interrupt(g, status, does) =>
      var base := PINS_PER_GROUP * g;
      var todo := Todo(pins, status, base, base, does);
      AfterCalls(pins, todo[..CallCount(pins, base, todo, does, 0)], does)
  }

  function AfterEvents(groups: nat, pins: seq<Pin>, events: seq<Event>): (r: seq<Pin>)
    requires |pins| == PINS_PER_GROUP * groups && forall e :: e in events ==> e.Ok(groups)
    ensures |r| == |pins|
  {
    if events == [] then pins
    else AfterEvent(groups, AfterEvents(groups, pins, events[..|events| - 1]), events[|events| - 1])
  }

  /** After every run from the cleared state the registry is consistent, and the pins are what the events made them. */
  method Run(groups: nat, events: seq<Event>) returns (d: Driver)
    requires groups > 0 && forall e :: e in events ==> e.Ok(groups)
    ensures d.Valid() && fresh(d) && fresh(d.pins) && fresh(d.irqNum) && fresh(d.ports) && d.groups == groups
    ensures d.pins[..] == AfterEvents(groups, Unregistered(groups), events)
  {
    d := new Driver(groups);
    assert d.pins[..] == Unregistered(groups);
    for i := 0 to |events|
      invariant d.Valid() && fresh(d.pins) && fresh(d.irqNum) && fresh(d.ports)
      invariant d.pins[..] == AfterEvents(groups, Unregistered(groups), events[..i])
    {
      assert events[..i + 1][..i] == events[..i] && events[i] in events;
      match events[i] {
        case Act(a) => d.Perform(a);
        case Interrupt(group, status, does) =>
          ghost var pins0 := d.pins[..];
          var called := d.Dispatch(group, status, does);
          CalledCount(pins0, status, PINS_PER_GROUP * group, does, called, d.pins[..], 0);
      }
    }
    assert events[..|events|] == events;
  }

  /**
   * The handlers of the pins `called` have been called, which are all that there were to call unless as many as were
   * registered by then had been called before; it was not so for any smaller number of them.
   */
  ghost predicate Dispatched(pins0: seq<Pin>, status: seq<bool>, base: nat, does: Script, called: seq<nat>,
                             pins: seq<Pin>)
  {
    && |status| == PINS_PER_GROUP && base + PINS_PER_GROUP <= |pins0|
    && pins == AfterCalls(pins0, called, does)
    && var todo := Todo(pins0, status, base, base, does);
       && called <= todo && RunsOn(pins0, base, called, does, |called|)
       && (called != todo ==> called != [] && Stops(pins0, base, called, does))
  }

  /** The dispatcher has come to the pin p, having called the handlers of `called`. */
  ghost predicate Dispatching(pins0: seq<Pin>, status: seq<bool>, base: nat, p: nat, does: Script, called: seq<nat>,
                              pins: seq<Pin>)
  {
    && |status| == PINS_PER_GROUP && base <= p <= base + PINS_PER_GROUP <= |pins0| == |pins|
    && pins == AfterCalls(pins0, called, does)
    && called + Todo(pins, status, base, p, does) == Todo(pins0, status, base, base, does)
    && RunsOn(pins0, base, called, does, |called| + 1)
  }

  lemma DispatchingStarts(groups: nat, pins: seq<Pin>, nums: seq<int>, ports: seq<Port>, group: nat, status: seq<bool>,
                          does: Script)
    requires Consistent(groups, pins, nums, ports) && group < groups && |status| == PINS_PER_GROUP
    ensures var base := PINS_PER_GROUP * group;
            && Dispatching(pins, status, base, base, does, [], pins)
            && (nums[group] == 0 ==> Dispatched(pins, status, base, does, [], pins))
  {
    var base := PINS_PER_GROUP * group;
    var todo := Todo(pins, status, base, base, does);
    assert [] + todo == todo;
    assert GroupConsistent(pins, nums, group);
    if nums[group] == 0 {
      AllOk(groups, pins, nums, ports);
      NothingTodo(pins, status, base, base, does);
    }
  }

  /** In a group without registered pins there is nothing to call. */
  lemma {:induction false} NothingTodo(pins: seq<Pin>, status: seq<bool>, base: nat, p: nat, does: Script)
    requires |status| == PINS_PER_GROUP && base <= p <= base + PINS_PER_GROUP <= |pins|
    requires forall q :: 0 <= q < |pins| ==> pins[q].Ok()
    requires Locked(pins, p, base + PINS_PER_GROUP) == 0
    ensures Todo(pins, status, base, p, does) == []
    decreases base + PINS_PER_GROUP - p
  {
    if p < base + PINS_PER_GROUP {
      LockedFirst(pins, p, base + PINS_PER_GROUP);
      NothingTodo(pins, status, base, p + 1, does);
    }
  }

  lemma DispatchingPasses(pins0: seq<Pin>, status: seq<bool>, base: nat, p: nat, does: Script, called: seq<nat>,
                          pins: seq<Pin>)
    requires Dispatching(pins0, status, base, p, does, called, pins) && p < base + PINS_PER_GROUP
    requires !status[p - base] || pins[p].handler.None?
    ensures Dispatching(pins0, status, base, p + 1, does, called, pins)
  {
  }

  lemma DispatchingCalls(pins0: seq<Pin>, status: seq<bool>, base: nat, p: nat, does: Script, called: seq<nat>,
                         pins: seq<Pin>, pins': seq<Pin>)
    requires Dispatching(pins0, status, base, p, does, called, pins) && p < base + PINS_PER_GROUP
    requires status[p - base] && pins[p].handler.Some? && pins' == AllPerformed(pins, does(p))
    ensures if |called + [p]| >= Locked(pins', base, base + PINS_PER_GROUP)
            then Dispatched(pins0, status, base, does, called + [p], pins')
            else Dispatching(pins0, status, base, p + 1, does, called + [p], pins')
  {
    var c, rest := called + [p], Todo(pins', status, base, p + 1, does);
    var todo := Todo(pins0, status, base, base, does);
    assert c[..|called|] == called && c + rest == called + ([p] + rest) == todo;
    assert c[..|c|] == c;
    forall k | 1 <= k <= |called| ensures !Stops(pins0, base, c[..k], does) {
      assert c[..k] == called[..k];
    }
  }

  lemma DispatchingEnds(pins0: seq<Pin>, status: seq<bool>, base: nat, does: Script, called: seq<nat>, pins: seq<Pin>)
    requires Dispatching(pins0, status, base, base + PINS_PER_GROUP, does, called, pins)
    ensures Dispatched(pins0, status, base, does, called, pins)
  {
    assert called + [] == called;
  }

  /**
   * A pin that is pending and still registered when its turn comes is left out if and only if a part of the pins to
   * call, not all of them, leaves no more pins of the group registered than it has.
   */
  lemma CompleteExact(pins0: seq<Pin>, status: seq<bool>, base: nat, does: Script, called: seq<nat>, pins: seq<Pin>)
    requires Dispatched(pins0, status, base, does, called, pins)
    ensures var todo := Todo(pins0, status, base, base, does);
            called == todo <==> RunsOn(pins0, base, todo, does, |todo|)
  {
    var todo := Todo(pins0, status, base, base, does);
    assert called == todo[..|called|];
  }

  /** And the pins that are called are determined by the state before the interrupt and what the handlers do. */
  lemma {:induction false} CalledCount(pins0: seq<Pin>, status: seq<bool>, base: nat, does: Script, called: seq<nat>,
                                       pins: seq<Pin>, k: nat)
    requires Dispatched(pins0, status, base, does, called, pins) && k <= |called|
    ensures var todo := Todo(pins0, status, base, base, does);
            called == todo[..CallCount(pins0, base, todo, does, k)]
    decreases |called| - k
  {
    var todo := Todo(pins0, status, base, base, does);
    assert called == todo[..|called|];
    if k < |called| {
      assert called[..k] == todo[..k];
      CalledCount(pins0, status, base, does, called, pins, k + 1);
    }
  }

  lemma AllOk(groups: nat, pins: seq<Pin>, nums: seq<int>, ports: seq<Port>)
    requires Consistent(groups, pins, nums, ports)
    ensures forall p :: 0 <= p < |pins| ==> pins[p].Ok()
  {
    forall p: nat | p < |pins| ensures pins[p].Ok() {
      assert PinConsistent(pins, ports, p);
    }
  }

  lemma {:induction false} LockedFirst(pins: seq<Pin>, lo: nat, hi: nat)
    requires lo < hi <= |pins|
    ensures Locked(pins, lo, hi) == One(pins[lo].lock) + Locked(pins, lo + 1, hi)
    decreases hi
  {
    if lo + 1 < hi { LockedFirst(pins, lo, hi - 1); }
  }

  // ---------- when nothing is left out ----------

  /** None of the actions frees a pin from lo up to, but not including, hi. */
  predicate FreesNone(actions: seq<Action>, lo: nat, hi: nat) {
    forall i :: 0 <= i < |actions| && actions[i].Freeing? ==> !(lo <= actions[i].pin < hi)
  }

  lemma {:induction false} FreesNoneKeeps(pins: seq<Pin>, actions: seq<Action>, lo: nat, hi: nat)
    requires lo <= hi <= |pins| && FreesNone(actions, lo, hi) && forall q :: 0 <= q < |pins| ==> pins[q].Ok()
    ensures var r := AllPerformed(pins, actions);
            Locked(r, lo, hi) >= Locked(pins, lo, hi) && forall q :: 0 <= q < |r| ==> r[q].Ok()
    decreases |actions|
  {
    if actions != [] {
      var init, last := actions[..|actions| - 1], actions[|actions| - 1];
      FreesNoneKeeps(pins, init, lo, hi);
      var m := AllPerformed(pins, init);
      if last.pin < |pins| {
        LockedUpdate(m, last.pin, Performed(m, last)[last.pin], lo, hi);
        assert Performed(m, last) == m[last.pin := Performed(m, last)[last.pin]];
      }
    }
  }

  /**
   * If no handler frees its own pin or one of the group before it, the early exit leaves nothing out, whatever else
   * the handlers do.
   */
  lemma NothingSkipped(groups: nat, pins: seq<Pin>, nums: seq<int>, ports: seq<Port>, group: nat, status: seq<bool>,
                       does: Script)
    requires Consistent(groups, pins, nums, ports) && group < groups && |status| == PINS_PER_GROUP
    requires forall p :: PINS_PER_GROUP * group <= p < PINS_PER_GROUP * group + PINS_PER_GROUP ==>
               FreesNone(does(p), PINS_PER_GROUP * group, p + 1)
    ensures var base := PINS_PER_GROUP * group;
            var todo := Todo(pins, status, base, base, does);
            RunsOn(pins, base, todo, does, |todo|)
  {
    var base := PINS_PER_GROUP * group;
    var todo := Todo(pins, status, base, base, does);
    AllOk(groups, pins, nums, ports);
    assert [] + todo == todo;
    forall k | 1 <= k < |todo| ensures !Stops(pins, base, todo[..k], does) {
      NoneSkipped(pins, status, base, base, does, [], pins, k);
    }
  }

  lemma {:induction false} NoneSkipped(pins0: seq<Pin>, status: seq<bool>, base: nat, p: nat, does: Script,
                                       called: seq<nat>, pins: seq<Pin>, k: nat)
    requires |status| == PINS_PER_GROUP && base <= p <= base + PINS_PER_GROUP <= |pins0|
    requires forall q :: base <= q < base + PINS_PER_GROUP ==> FreesNone(does(q), base, q + 1)
    requires pins == AfterCalls(pins0, called, does) && forall q :: 0 <= q < |pins| ==> pins[q].Ok()
    requires |called| <= Locked(pins, base, p)
    requires |called| <= k < |called + Todo(pins, status, base, p, does)|
    ensures !Stops(pins0, base, (called + Todo(pins, status, base, p, does))[..k], does)
    decreases base + PINS_PER_GROUP - p
  {
    if status[p - base] && pins[p].handler.Some? {
      var c, pins' := called + [p], AllPerformed(pins, does(p));
      assert c[..|called|] == called;
      if k == |called| {
        assert (called + Todo(pins, status, base, p, does))[..k] == called;
        LockedGrows(pins, base, p + 1, base + PINS_PER_GROUP);
      } else {
        assert c + Todo(pins', status, base, p + 1, does) == called + Todo(pins, status, base, p, does);
        FreesNoneKeeps(pins, does(p), base, p + 1);
        NoneSkipped(pins0, status, base, p + 1, does, c, pins', k);
      }
    } else {
      NoneSkipped(pins0, status, base, p + 1, does, called, pins, k);
    }
  }

  lemma {:induction false} LockedGrows(pins: seq<Pin>, lo: nat, mid: nat, hi: nat)
    requires lo <= mid <= hi <= |pins|
    ensures Locked(pins, lo, mid) <= Locked(pins, lo, hi)
    decreases hi
  {
    if mid < hi { LockedGrows(pins, lo, mid, hi - 1); }
  }

  // ---------- when something is ----------

  /** The first three pins of the group from base on, and no others, are registered. */
  ghost predicate FirstThree(pins: seq<Pin>, base: nat) {
    && base + PINS_PER_GROUP <= |pins|
    && forall q :: base <= q < base + PINS_PER_GROUP ==> pins[q].Ok() && (pins[q].lock <==> q < base + 3)
  }

  lemma FirstThreeLocked(pins: seq<Pin>, base: nat)
    requires FirstThree(pins, base)
    ensures Locked(pins, base, base + PINS_PER_GROUP) == 3
  {
    LockedFirst(pins, base, base + PINS_PER_GROUP);
    LockedFirst(pins, base + 1, base + PINS_PER_GROUP);
    LockedFirst(pins, base + 2, base + PINS_PER_GROUP);
    NoneLocked(pins, base + 3, base + PINS_PER_GROUP);
  }

  /** If all three are pending and the handler of the second frees the first or itself, the third is left out. */
  lemma FreeingSkips(pins: seq<Pin>, status: seq<bool>, base: nat, does: Script, freed: nat)
    requires FirstThree(pins, base) && |status| == PINS_PER_GROUP && status[0] && status[1] && status[2]
    requires does(base) == [] && does(base + 1) == [Freeing(freed)] && base <= freed <= base + 1
    ensures base + 2 in Todo(pins, status, base, base, does)
    ensures forall called, pins' :: Dispatched(pins, status, base, does, called, pins') ==>
              called == [base, base + 1] && pins'[base + 2] == pins[base + 2]
  {
    var c1, c2 := [base], [base, base + 1];
    var pins2 := pins[freed := Pin(false, false, None)];
    assert c1[..0] == [] && c2[..1] == c1;
    assert AfterCalls(pins, c1, does) == pins;
    OneAction(pins, Freeing(freed));
    assert AfterCalls(pins, c2, does) == pins2;
    FirstThreeLocked(pins, base);
    LockedUpdate(pins, freed, Pin(false, false, None), base, base + PINS_PER_GROUP);
    assert !Stops(pins, base, c1, does) && Stops(pins, base, c2, does);
    var todo := Todo(pins, status, base, base, does);
    var rest := Todo(AllPerformed(pins2, does(base + 2)), status, base, base + 3, does);
    assert Todo(pins2, status, base, base + 2, does) == [base + 2] + rest;
    assert Todo(pins, status, base, base + 1, does) == [base + 1] + ([base + 2] + rest);
    assert todo == c2 + ([base + 2] + rest);
    assert todo[2] == base + 2;
    forall called, pins' | Dispatched(pins, status, base, does, called, pins')
      ensures called == c2 && pins' == pins2
    {
      assert called == todo[..|called|];
      assert |called| == 1 ==> called == c1;
      assert |called| >= 2 ==> called[..2] == c2;
    }
  }

  lemma OneAction(pins: seq<Pin>, a: Action)
    ensures AllPerformed(pins, [a]) == Performed(pins, a)
  {
    assert [a][..0] == [];
  }

  /** This state is reached: three pins are requested, all three interrupt at once, and only two are called. */
  method FreeingSkipped(freed: nat, h: Handler, t: bv32) returns (called: seq<nat>, third: Pin)
    requires freed <= 1
    ensures called == [0, 1] && third == Pin(true, true, Some(h))
  {
    var events := [Act(Requesting(0, Some(h), t)), Act(Requesting(1, Some(h), t)), Act(Requesting(2, Some(h), t))];
    ThreeRequested(events, h, t);
    var d := Run(1, events);
    called, third := ServeThree(d, freed);
  }

  method ServeThree(d: Driver, freed: nat) returns (called: seq<nat>, third: Pin)
    requires d.Valid() && d.groups > 0 && FirstThree(d.pins[..], 0) && freed <= 1
    modifies d.pins, d.irqNum, d.ports
    ensures called == [0, 1] && third == old(d.pins[..])[2]
  {
    ghost var pins := d.pins[..];
    var status := seq(PINS_PER_GROUP, _ => true);
    var does: Script := p => if p == 1 then [Freeing(freed)] else [];
    called := d.Dispatch(0, status, does);
    FreeingSkips(pins, status, 0, does, freed);
    third := d.pins[2];
  }

  lemma ThreeRequested(events: seq<Event>, h: Handler, t: bv32)
    requires |events| == 3
    requires forall i: nat :: i < 3 ==> events[i] == Act(Requesting(i, Some(h), t))
    ensures forall e :: e in events ==> e.Ok(1)
    ensures var pins := AfterEvents(1, Unregistered(1), events);
            FirstThree(pins, 0) && pins[2] == Pin(true, true, Some(h))
  {
    var p, c := Pin(true, true, Some(h)), Unregistered(1);
    var e1, e2 := events[..1], events[..2];
    assert e1[..0] == [] && e2[..1] == e1;
    assert AfterEvents(1, c, e1) == c[0 := p];
    assert AfterEvents(1, c, e2) == c[0 := p][1 := p];
    assert AfterEvents(1, c, events) == c[0 := p][1 := p][2 := p];
  }

  /** Switching a pin to `on`, which leaves it alone if it is on already, keeps the registry consistent. */
  lemma SwitchKeeps(groups: nat, pins: seq<Pin>, nums: seq<int>, ports: seq<Port>, ports': seq<Port>, p: nat, on: bool)
    requires Consistent(groups, pins, nums, ports) && p < |pins| && pins[p].lock && |ports'| == |ports|
    requires forall q :: 0 <= q < |ports| && q != p / 8 ==> ports'[q] == ports[q]
    requires if pins[p].active == on then ports' == ports else Enabled(ports[p / 8], ports'[p / 8], p % 8, on)
    ensures Consistent(groups, pins[p := pins[p].(active := on)], nums, ports')
    ensures Enabled(ports[p / 8], ports'[p / 8], p % 8, on)
  {
    var q := pins[p].(active := on);
    assert PinConsistent(pins, ports, p);
    assert ports' == ports[p / 8 := ports'[p / 8]];
    ChangeKeeps(groups, pins, nums, ports, p, q, ports'[p / 8]);
    assert nums[p / 32 := nums[p / 32]] == nums;
  }

  lemma {:induction false} NoneLocked(pins: seq<Pin>, lo: nat, hi: nat)
    requires lo <= hi <= |pins| && forall p :: lo <= p < hi ==> !pins[p].lock
    ensures Locked(pins, lo, hi) == 0
    decreases hi
  {
    if lo < hi { NoneLocked(pins, lo, hi - 1); }
  }
}
