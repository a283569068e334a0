/** What the states of the GPIO registry are, bit by bit and pin by pin. */
module Registers {
  import opened Gpio

  // ---------- the registers of a port ----------

  /** Of the digits of the byte exactly digit k has changed. */
  lemma OneBitDigits(b0: bv8, b1: bv8, k: nat, on: bool, j: nat)
    requires k < 8 && j < 8 && OneBit(b0, b1, k, on)
    ensures b1 as nat / PowerOfTwo(j) % 2 == 1 <==> if j == k then on else b0 as nat / PowerOfTwo(j) % 2 == 1
  {
    IsSetDigit(b0, j);
    IsSetDigit(b1, j);
  }

  /** The byte with bit k added or taken out. */
  function Changed(b: bv8, k: nat, on: bool): bv8
    requires k < 8
  {
    if on then b | ((1 as bv8) << k) else b & !((1 as bv8) << k)
  }

  lemma ChangedByte(b0: bv8, b1: bv8, k: nat, on: bool)
    requires k < 8 && OneBit(b0, b1, k, on)
    ensures b1 == Changed(b0, k, on)
  {
    OneBitExact(b0, b1, k, on);
  }

  /** The registers of a port after a request for its pin k. */
  lemma ConfiguredBytes(p0: Port, p1: Port, k: nat, irqflags: bv32)
    requires k < 8 && Configured(p0, p1, k, TriggerOf(irqflags))
    ensures p1.dir == Changed(p0.dir, k, false) && p1.enable == Changed(p0.enable, k, true)
    ensures p1.sense == Changed(p0.sense, k, irqflags & 0x1 != 0)
    ensures p1.both == if irqflags & 0x1 != 0 then p0.both else Changed(p0.both, k, irqflags & 0x2 != 0)
    ensures p1.event == if irqflags & 0x1 == 0 && irqflags & 0x2 != 0 then p0.event
                        else Changed(p0.event, k, irqflags & 0x4 != 0)
  {
    var t := TriggerOf(irqflags);
    ChangedByte(p0.dir, p1.dir, k, false);
    ChangedByte(p0.enable, p1.enable, k, true);
    ChangedByte(p0.sense, p1.sense, k, t.level);
    if !t.level { ChangedByte(p0.both, p1.both, k, t.bothEdges); }
    if t.level || !t.bothEdges { ChangedByte(p0.event, p1.event, k, t.high); }
  }

  /** The registers of a port after the interrupt of its pin k has been turned on or off. */
  lemma EnabledBytes(p0: Port, p1: Port, k: nat, on: bool)
    requires k < 8 && Enabled(p0, p1, k, on)
    ensures p1 == p0.(enable := Changed(p0.enable, k, on))
  {
    ChangedByte(p0.enable, p1.enable, k, on);
  }

  /** The first request after a reset, for the first pin. */
  lemma FirstRequest(p1: Port)
    requires Configured(Port(0, 0, 0, 0, 0), p1, 0, TriggerOf(GPIO_INT_EVENT_HI))
    ensures p1 == Port(0x00, 0x01, 0x00, 0x00, 0x01)
  {
    ConfiguredBytes(Port(0, 0, 0, 0, 0), p1, 0, GPIO_INT_EVENT_HI);
  }

  // ---------- the registry ----------

  /**
   * While the registry is consistent, a pin has a handler exactly while it is locked, is active only then, and is
   * enabled exactly while active, and a group counts its locked pins.
   */
  lemma ConsistentMeaning(groups: nat, pins: seq<Pin>, nums: seq<int>, ports: seq<Port>, p: nat)
    requires Consistent(groups, pins, nums, ports) && p < 32 * groups
    ensures |pins| == 32 * groups && |nums| == groups && |ports| == 4 * groups
    ensures (pins[p].handler.Some? <==> pins[p].lock) && (pins[p].active ==> pins[p].lock)
    ensures pins[p].active <==> ports[p / 8].enable as nat / PowerOfTwo(p % 8) % 2 == 1
    ensures nums[p / 32] == |LockedPins(pins, p / 32 * 32, p / 32 * 32 + 32)|
  {
    assert PinConsistent(pins, ports, p);
    assert GroupConsistent(pins, nums, p / 32);
    IsSetDigit(ports[p / 8].enable, p % 8);
    LockedCount(pins, p / 32 * 32, p / 32 * 32 + 32);
  }

  ghost function LockedPins(pins: seq<Pin>, lo: nat, hi: nat): set<nat>
    requires lo <= hi <= |pins|
  {
    set p: nat | lo <= p < hi && pins[p].lock
  }

  lemma {:induction false} LockedCount(pins: seq<Pin>, lo: nat, hi: nat)
    requires lo <= hi <= |pins|
    ensures Locked(pins, lo, hi) == |LockedPins(pins, lo, hi)|
    decreases hi
  {
    if lo == hi {
      assert LockedPins(pins, lo, hi) == {};
    } else {
      LockedCount(pins, lo, hi - 1);
      var before := LockedPins(pins, lo, hi - 1);
      assert LockedPins(pins, lo, hi) == if pins[hi - 1].lock then before + {hi - 1} else before;
    }
  }

  // ---------- the pins to call ----------

  lemma {:induction false} AfterCallsFirst(pins: seq<Pin>, p: nat, rest: seq<nat>, does: Script)
    ensures AfterCalls(pins, [p] + rest, does) == AfterCalls(AllPerformed(pins, does(p)), rest, does)
    decreases |rest|
  {
    var all := [p] + rest;
    if rest == [] {
      assert all == [p] && all[..0] == [];
      assert AfterCalls(pins, [], does) == pins;
    } else {
      assert all[..|all| - 1] == [p] + rest[..|rest| - 1];
      AfterCallsFirst(pins, p, rest[..|rest| - 1], does);
    }
  }

  ghost predicate Ascending(ps: seq<nat>, lo: nat, hi: nat) {
    && (forall i :: 0 <= i < |ps| ==> lo <= ps[i] < hi)
    && forall i, j :: 0 <= i < j < |ps| ==> ps[i] < ps[j]
  }

  lemma AscendingFirst(p: nat, rest: seq<nat>, hi: nat)
    requires Ascending(rest, p + 1, hi) && p < hi
    ensures Ascending([p] + rest, p, hi)
  {
  }

  /** They are in ascending order, from the pin p on and in the group. */
  lemma {:induction false} TodoAscending(pins: seq<Pin>, status: seq<bool>, base: nat, p: nat, does: Script)
    requires |status| == PINS_PER_GROUP && base <= p <= base + PINS_PER_GROUP <= |pins|
    ensures Ascending(Todo(pins, status, base, p, does), p, base + PINS_PER_GROUP)
    decreases base + PINS_PER_GROUP - p
  {
    if p < base + PINS_PER_GROUP {
      if status[p - base] && pins[p].handler.Some? {
        var pins' := AllPerformed(pins, does(p));
        TodoAscending(pins', status, base, p + 1, does);
        AscendingFirst(p, Todo(pins', status, base, p + 1, does), base + PINS_PER_GROUP);
      } else {
        TodoAscending(pins, status, base, p + 1, does);
      }
    }
  }

  /** The first k of the pins are those before q. */
  ghost predicate Before(ps: seq<nat>, q: nat, k: nat) {
    && k <= |ps| && (forall i :: 0 <= i < k ==> ps[i] < q)
    && forall i :: k <= i < |ps| ==> ps[i] >= q
  }

  lemma BeforeRest(p: nat, rest: seq<nat>, q: nat, k: nat)
    requires Before([p] + rest, q, k) && p < q
    ensures k > 0 && Before(rest, q, k - 1) && ([p] + rest)[..k] == [p] + rest[..k - 1]
    ensures k <= |rest| ==> ([p] + rest)[k] == rest[k - 1]
  {
    var ps := [p] + rest;
    assert ps[0] == p;
    assert forall i :: 0 <= i < |rest| ==> rest[i] == ps[i + 1];
  }

  lemma BeforeFirst(ps: seq<nat>, q: nat, k: nat)
    requires Before(ps, q, k) && forall i :: 0 <= i < |ps| ==> ps[i] >= q
    ensures ps[..k] == []
  {
    if |ps| > 0 { assert ps[0] >= q; }
  }

  /**
   * With k pins to call before it, a pin is the next one to call if and only if its interrupt is pending and it has
   * a handler once those have been called.
   */
  lemma {:induction false} TodoExact(pins: seq<Pin>, status: seq<bool>, base: nat, p: nat, does: Script, q: nat, k: nat)
    requires |status| == PINS_PER_GROUP && base <= p <= q < base + PINS_PER_GROUP <= |pins|
    requires Before(Todo(pins, status, base, p, does), q, k)
    ensures var todo := Todo(pins, status, base, p, does);
            k < |todo| && todo[k] == q <==>
            status[q - base] && AfterCalls(pins, todo[..k], does)[q].handler.Some?
    decreases base + PINS_PER_GROUP - p
  {
    var todo := Todo(pins, status, base, p, does);
    if p == q {
      TodoAscending(pins, status, base, p, does);
      BeforeFirst(todo, q, k);
      TodoAscending(pins, status, base, p + 1, does);
    } else if status[p - base] && pins[p].handler.Some? {
      var pins' := AllPerformed(pins, does(p));
      var rest := Todo(pins', status, base, p + 1, does);
      assert todo == [p] + rest;
      BeforeRest(p, rest, q, k);
      TodoExact(pins', status, base, p + 1, does, q, k - 1);
      AfterCallsFirst(pins, p, rest[..k - 1], does);
    } else {
      TodoExact(pins, status, base, p + 1, does, q, k);
    }
  }
}
