/** A reference model of the display side of the I2C link: an HD44780
    controller in 4-bit mode behind a PCF8574 expander. It gives every byte
    trace the driver writes a meaning, independent of how the driver builds
    it: the controller latches RS and D4..D7 on each falling edge of E,
    pairs the latched nibbles into instructions and data, and stores data
    in its display RAM. */
module Hd44780 {

  /** Expander wiring: P0 drives RS, P2 drives E, P3 the backlight and
      P4..P7 the data lines D4..D7. */
  const RsBit: bv8 := 0x01
  const EnBit: bv8 := 0x04
  const BacklightBit: bv8 := 0x08
  const DataMask: bv8 := 0xF0

  /** What one falling edge of E latches: RS and the four data lines. */
  datatype Nibble = Nibble(rs: bool, value: bv8)

  /** What the controller receives once two nibbles are joined. */
  datatype Transfer = Instr(cmd: bv8) | Data(value: bv8)

  predicate Falls(a: bv8, b: bv8) {
    a & EnBit != 0 && b & EnBit == 0
  }

  /** The nibbles latched while the expander outputs `t` in order: at every
      falling edge, the levels held while E was high. */
  function Latches(t: seq<bv8>): (r: seq<Nibble>)
    decreases |t|
  {
    if |t| < 2 then []
    else
      (if Falls(t[0], t[1]) then [Nibble(t[0] & RsBit != 0, t[0] >> 4)] else [])
      + Latches(t[1..])
  }

  /** A trace that ends with E low can be followed by anything without
      creating or losing a latch at the seam. */
  lemma {:induction false} LatchesAppend(a: seq<bv8>, b: seq<bv8>)
    requires |a| > 0 && a[|a| - 1] & EnBit == 0
    ensures Latches(a + b) == Latches(a) + Latches(b)
    decreases |a|
  {
    if |a| == 1 {
      if |b| > 0 {
        assert (a + b)[1..] == b;
      }
    } else {
      assert (a + b)[1..] == a[1..] + b;
      LatchesAppend(a[1..], b);
    }
  }

  /** Joins a high and a low nibble; the high nibble's RS decides between
      data and instruction. */
  function Combine(hi: Nibble, lo: Nibble): (r: Transfer) {
    var b := (hi.value << 4) | (lo.value & 0x0F);
    if hi.rs then Data(b) else Instr(b)
  }

  /** In 4-bit mode every two latched nibbles make one transfer. */
  function Join(ns: seq<Nibble>): (r: seq<Transfer>)
    decreases |ns|
  {
    if |ns| < 2 then [] else [Combine(ns[0], ns[1])] + Join(ns[2..])
  }

  lemma {:induction false} JoinAppend(a: seq<Nibble>, b: seq<Nibble>)
    requires |a| % 2 == 0
    ensures Join(a + b) == Join(a) + Join(b)
    decreases |a|
  {
    if |a| > 0 {
      assert (a + b)[2..] == a[2..] + b;
      JoinAppend(a[2..], b);
    } else {
      assert a + b == b;
    }
  }

  /** The transfers a controller already in 4-bit mode receives from a trace. */
  function Received(t: seq<bv8>): (r: seq<Transfer>) {
    Join(Latches(t))
  }

  /** The instruction set, as the controller decodes an instruction byte by
      its highest set bit. */
  datatype Instruction =
    | NoInstruction
    | ClearDisplay
    | ReturnHome
    | EntryModeSet(increment: bool, shift: bool)
    | DisplayControl(display: bool, cursor: bool, blink: bool)
    | CursorShift(displayMove: bool, right: bool)
    | FunctionSet(eightBit: bool, twoLines: bool, tallFont: bool)
    | SetCgramAddress(address: bv8)
    | SetDdramAddress(address: bv8)

  function Decode(cmd: bv8): (r: Instruction) {
    if cmd & 0x80 != 0 then SetDdramAddress(cmd & 0x7F)
    else if cmd & 0x40 != 0 then SetCgramAddress(cmd & 0x3F)
    else if cmd & 0x20 != 0 then FunctionSet(cmd & 0x10 != 0, cmd & 0x08 != 0, cmd & 0x04 != 0)
    else if cmd & 0x10 != 0 then CursorShift(cmd & 0x08 != 0, cmd & 0x04 != 0)
    else if cmd & 0x08 != 0 then DisplayControl(cmd & 0x04 != 0, cmd & 0x02 != 0, cmd & 0x01 != 0)
    else if cmd & 0x04 != 0 then EntryModeSet(cmd & 0x02 != 0, cmd & 0x01 != 0)
    else if cmd & 0x02 != 0 then ReturnHome
    else if cmd & 0x01 != 0 then ClearDisplay
    else NoInstruction
  }

  // ---------------------------------------------------------------------
  // Display RAM

  /** Display RAM (unwritten cells read as blanks) and the address counter.
      Entry mode is taken to be "increment, no shift", the mode the driver
      programs at start-up. */
  datatype Controller = Controller(ddram: map<int, bv8>, ac: int)

  const Blank: bv8 := 0x20

  function Cell(c: Controller, a: int): (r: bv8) {
    if a in c.ddram then c.ddram[a] else Blank
  }

  function Step(c: Controller, x: Transfer): (r: Controller) {
    match x
    case Data(v) => Controller(c.ddram[c.ac := v], c.ac + 1)
    case Instr(cmd) =>
      match Decode(cmd)
      case ClearDisplay => Controller(map[], 0)
      case ReturnHome => c.(ac := 0)
      case SetDdramAddress(a) => c.(ac := a as int)
      case _ => c
  }

  function Run(c: Controller, xs: seq<Transfer>): (r: Controller)
    decreases |xs|
  {
    if |xs| == 0 then c else Run(Step(c, xs[0]), xs[1..])
  }

  lemma {:induction false} RunAppend(c: Controller, xs: seq<Transfer>, ys: seq<Transfer>)
    ensures Run(c, xs + ys) == Run(Run(c, xs), ys)
    decreases |xs|
  {
    if |xs| == 0 {
      assert xs + ys == ys;
    } else {
      assert (xs + ys)[1..] == xs[1..] + ys;
      RunAppend(Step(c, xs[0]), xs[1..], ys);
    }
  }

  /** One data transfer per byte. */
  function Datas(bs: seq<bv8>): (r: seq<Transfer>)
    ensures |r| == |bs|
    ensures forall i :: 0 <= i < |bs| ==> r[i] == Data(bs[i])
  {
    seq(|bs|, i requires 0 <= i < |bs| => Data(bs[i]))
  }

  lemma DatasAppend(a: seq<bv8>, b: seq<bv8>)
    ensures Datas(a + b) == Datas(a) + Datas(b)
  {
  }

  /** Writing a run of data bytes stores them at consecutive addresses from
      the address counter on and leaves every other cell alone. */
  lemma {:induction false} WriteRun(c: Controller, bs: seq<bv8>)
    ensures Run(c, Datas(bs)).ac == c.ac + |bs|
    ensures forall a :: c.ac <= a < c.ac + |bs| ==> Cell(Run(c, Datas(bs)), a) == bs[a - c.ac]
    ensures forall a :: (a < c.ac || c.ac + |bs| <= a) ==> Cell(Run(c, Datas(bs)), a) == Cell(c, a)
    decreases |bs|
  {
    if |bs| > 0 {
      var c' := Step(c, Data(bs[0]));
      assert Datas(bs)[1..] == Datas(bs[1..]);
      WriteRun(c', bs[1..]);
    }
  }
}
