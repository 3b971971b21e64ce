/** The command set of the Alpheus device and the (tag, args) pair each public method of the
    driver hands to the frame encoder (cli/index.js). Arguments are integral JavaScript
    Numbers; only updateSlot transforms its arguments, the other methods pass them through. */
module Commands {
  import opened JsBits

  type Byte = b: int | 0 <= b < 256

  // Frame tags shared by host and device.
  const TagReset: int := 0
  const TagDone: int := 1
  const TagError: int := 2
  const TagUpdateClock: int := 3
  const TagUpdateTrigger: int := 4
  const TagUpdateSlot: int := 5
  const TagStart: int := 6

  /** One public command method of the driver, with the arguments it was called with. */
  datatype Command =
    | Reset
    | Start
    | UpdateClock(clockSource: int, prescaler: int)
    | UpdateTrigger(triggerConfig: int)
    | UpdateSlot(slot: int, delay: int, pulse: int)

  /** What a command method passes to the encoder: a tag and its argument list. */
  datatype Request = Request(tag: int, args: seq<int>)

  /** `v & 0xff`: the low byte of a 16-bit field. */
  function LoByte(v: int): (b: Byte)
    ensures b == v % 256
  {
    MaskByte(v);
    BitAnd(v, 0xff)
  }

  /** `(v >> 8) & 0xff`: the high byte of a 16-bit field. */
  function HiByte(v: int): (b: Byte)
    ensures b == (v / 256) % 256
  {
    MaskByte(ShiftRight(v, 8));
    ShiftByte(v);
    BitAnd(ShiftRight(v, 8), 0xff)
  }

  /** The five arguments updateSlot sends: the slot, then delay and pulse little-endian. */
  function SlotArgs(slot: int, delay: int, pulse: int): (args: seq<int>)
    ensures |args| == 5 && args[0] == slot
    ensures forall i :: 1 <= i < 5 ==> 0 <= args[i] < 256
    ensures args[1] + 256 * args[2] == delay % 0x1_0000
    ensures args[3] + 256 * args[4] == pulse % 0x1_0000
  {
    LittleEndianPair(delay);
    LittleEndianPair(pulse);
    [slot, LoByte(delay), HiByte(delay), LoByte(pulse), HiByte(pulse)]
  }

  /** The (tag, args) pair of each command method. */
  function Encode(c: Command): (r: Request)
    ensures r.tag != TagDone && r.tag != TagError
    ensures 0 <= r.tag <= 6
    ensures c.UpdateSlot? ==> forall i :: 1 <= i < |r.args| ==> 0 <= r.args[i] < 256
  {
    match c
    case Reset => Request(TagReset, [])
    case Start => Request(TagStart, [])
    case UpdateClock(clockSource, prescaler) => Request(TagUpdateClock, [clockSource, prescaler])
    case UpdateTrigger(triggerConfig) => Request(TagUpdateTrigger, [triggerConfig])
    case UpdateSlot(slot, delay, pulse) => Request(TagUpdateSlot, SlotArgs(slot, delay, pulse))
  }

  // ---------------------------------------------------------------- byte split

  /** The two bytes recombine to the value modulo 2^16. */
  lemma LittleEndianPair(v: int)
    ensures LoByte(v) + 256 * HiByte(v) == v % 0x1_0000
  {
    ModSplit(v, 256, 256);
  }

  /** Every value of [0, 65535] survives the little-endian split unchanged. */
  lemma ByteSplitRoundTrip(v: int)
    requires 0 <= v < 0x1_0000
    ensures HiByte(v) * 256 + LoByte(v) == v
  {
    LittleEndianPair(v);
    DivModUnique(v, 0x1_0000, 0, v);
  }

  /** Out-of-range values are not rejected: the bytes depend only on v modulo 2^16. */
  lemma ByteSplitWraps(v: int)
    ensures LoByte(v) == LoByte(v % 0x1_0000)
    ensures HiByte(v) == HiByte(v % 0x1_0000)
  {
    var w := v % 0x1_0000;
    var k := v / 0x1_0000;
    assert v == w + 256 * (256 * k);
    AddMultiple(w, 256, 256 * k);
    AddMultiple(w / 256, 256, k);
    assert v % 256 == w % 256 && (v / 256) % 256 == (w / 256) % 256;
  }

  // ---------------------------------------------------------------- command table

  /** The exact wire layout of every command method. */
  lemma EncodeLayout(c: Command)
    ensures c.Reset? ==> Encode(c) == Request(0, [])
    ensures c.Start? ==> Encode(c) == Request(6, [])
    ensures c.UpdateClock? ==> Encode(c) == Request(3, [c.clockSource, c.prescaler])
    ensures c.UpdateTrigger? ==> Encode(c) == Request(4, [c.triggerConfig])
    ensures c.UpdateSlot? ==> Encode(c) == Request(5,
      [c.slot, c.delay % 256, (c.delay / 256) % 256, c.pulse % 256, (c.pulse / 256) % 256])
  {
  }

  /** The tag alone tells which command a request came from. */
  lemma TagIdentifiesCommand(c1: Command, c2: Command)
    requires Encode(c1).tag == Encode(c2).tag
    ensures c1.Reset? == c2.Reset? && c1.Start? == c2.Start? && c1.UpdateClock? == c2.UpdateClock?
    ensures c1.UpdateTrigger? == c2.UpdateTrigger? && c1.UpdateSlot? == c2.UpdateSlot?
  {
  }

  lemma BytesOf(v: int, hi: int, lo: int)
    requires 0 <= hi < 256 && 0 <= lo < 256 && v == 256 * hi + lo
    ensures LoByte(v) == lo && HiByte(v) == hi
  {
    DivModUnique(v, 256, hi, lo);
    DivModUnique(hi, 256, 0, hi);
  }

  /** updateSlot(s, 0, 0) sends [s, 0, 0, 0, 0]. */
  lemma SlotExampleZero(s: int)
    ensures Encode(UpdateSlot(s, 0, 0)).args == [s, 0, 0, 0, 0]
  {
  }

  /** updateSlot(s, 0x1234, 0xABCD) sends [s, 0x34, 0x12, 0xCD, 0xAB]. */
  lemma SlotExampleMixed(s: int, delay: int, pulse: int)
    requires delay == 0x1234 && pulse == 0xABCD
    ensures Encode(UpdateSlot(s, delay, pulse)).args == [s, 0x34, 0x12, 0xCD, 0xAB]
  {
    BytesOf(delay, 0x12, 0x34);
    BytesOf(pulse, 0xAB, 0xCD);
  }

  /** Out-of-range values are sent wrapped: a delay of -1 becomes 0xFFFF, a pulse of 0x10000
      becomes 0. */
  lemma SlotExampleWrapped(s: int, delay: int, pulse: int)
    requires delay == -1 && pulse == 0x1_0000
    ensures Encode(UpdateSlot(s, delay, pulse)).args == [s, 0xFF, 0xFF, 0, 0]
  {
    DivModUnique(delay, 256, -1, 0xFF);
    DivModUnique(pulse, 256, 256, 0);
    DivModUnique(256, 256, 1, 0);
  }
}
