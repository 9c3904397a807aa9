/** The character-LCD driver: HD44780 commands and data serialised as
    nibbles over a PCF8574 I2C expander. The driver's globals become the
    `Lcd` record; every operation returns the record after it and the data
    bytes it writes to the expander, in order. */
module LcdI2c {
  import opened Base
  import H = Hd44780
  import Decimal

  /** The pause lcd_clear and lcd_home take after their command, in
      milliseconds, whether or not the command reached the display. */
  const ClearPauseMs := 2

  // Instruction codes and flags of the driver's header.
  const LcdClearDisplay: bv8 := 0x01
  const LcdReturnHome: bv8 := 0x02
  const LcdEntryMode: bv8 := 0x04
  const LcdDisplayOnOff: bv8 := 0x08
  const LcdCursorOnDisplayShift: bv8 := 0x10
  const LcdFunctionSet: bv8 := 0x20
  const LcdSetDdramAddress: bv8 := 0x80

  const Lcd4BitMode: bv8 := 0x00
  const Lcd2LineMode: bv8 := 0x08
  const Lcd5x8DotsMode: bv8 := 0x00

  const LcdEntryRight: bv8 := 0x00
  const LcdEntryLeft: bv8 := 0x02
  const LcdEntryShiftIncrement: bv8 := 0x01
  const LcdEntryShiftDecrement: bv8 := 0x00

  const LcdDisplayOn: bv8 := 0x04
  const LcdDisplayOff: bv8 := 0x00
  const LcdCursorOn: bv8 := 0x02
  const LcdCursorOff: bv8 := 0x00
  const LcdBlinkOn: bv8 := 0x01
  const LcdBlinkOff: bv8 := 0x00

  const LcdDisplayMove: bv8 := 0x08
  const LcdMoveRight: bv8 := 0x04
  const LcdMoveLeft: bv8 := 0x00

  const LcdBacklightOn: bv8 := 0x08
  const LcdBacklightOff: bv8 := 0x00

  const DefaultAddress: bv8 := 0x27
  /** The buffer lcd_printInt formats into, NUL included. */
  const IntBufferSize := 12

  /** The driver's state: I2C address, geometry, backlight bit and whether
      the I2C master is installed. */
  datatype Lcd = Lcd(addr: bv8, cols: bv8, rows: bv8, backlight: bv8, i2cReady: bool)

  /** The values the globals hold before any call. */
  const PowerOn: Lcd := Lcd(DefaultAddress, 16, 2, LcdBacklightOn, false)

  /** The bytes of a write sequence that reach the expander: each
      lcd_write_byte is its own I2C transaction, which fails while no I2C
      driver is installed, so then none of them does. */
  function Reaching(lcd: Lcd, t: seq<bv8>): (w: seq<bv8>) {
    if lcd.i2cReady then t else []
  }

  /** The state after an operation and the bytes it wrote, in order. */
  datatype Out = Out(lcd: Lcd, bytes: seq<bv8>)

  /** The two values the driver ever gives the backlight bit. */
  predicate BacklightState(bl: bv8) {
    bl == LcdBacklightOn || bl == LcdBacklightOff
  }

  // ---------------------------------------------------------------------
  // Serialisation

  /** lcd_pulse_enable: E high, then E low. The two bytes make one falling
      edge of E with every other line held at `data`'s level. */
  function PulseEnable(data: bv8): (r: seq<bv8>)
    ensures |r| == 2 && H.Falls(r[0], r[1])
    ensures r[0] & !H.EnBit == data & !H.EnBit && r[1] & !H.EnBit == data & !H.EnBit
  {
    [data | H.EnBit, data & !H.EnBit]
  }

  /** lcd_write_nibble: the nibble with the backlight bit, then an enable
      pulse around it. Only E changes between the three bytes. */
  function WriteNibble(bl: bv8, nibble: bv8): (t: seq<bv8>)
    ensures |t| == 3
  {
    var data := nibble | bl;
    [data] + PulseEnable(data)
  }

  /** Only E changes between the three bytes of a nibble, and it is high
      in the middle one; it is low around it whenever the nibble and the
      backlight bit leave it low. */
  lemma NibbleShape(bl: bv8, nibble: bv8)
    ensures var t, d := WriteNibble(bl, nibble), nibble | bl;
      && t[0] & !H.EnBit == d & !H.EnBit
      && t[1] & !H.EnBit == d & !H.EnBit
      && t[2] & !H.EnBit == d & !H.EnBit
      && t[1] & H.EnBit != 0
      && (d & H.EnBit == 0 ==> t[0] & H.EnBit == 0 && t[2] & H.EnBit == 0)
  {
  }

  /** The two halves of a byte, each placed on the data lines D4..D7. */
  function Split(b: bv8): (r: (bv8, bv8))
  {
    (b & 0xF0, (b << 4) & 0xF0)
  }

  /** Both halves leave the low four lines free, and they put back
      together the byte they came from. */
  lemma SplitJoins(b: bv8)
    ensures Split(b).0 & 0x0F == 0 && Split(b).1 & 0x0F == 0
    ensures Split(b).0 | (Split(b).1 >> 4) == b
  {
  }

  /** lcd_send_command: both halves with RS low. */
  function SendCommand(bl: bv8, cmd: bv8): (t: seq<bv8>)
    ensures |t| == 6
  {
    WriteNibble(bl, Split(cmd).0) + WriteNibble(bl, Split(cmd).1)
  }

  /** lcd_send_data: both halves with RS high. */
  function SendData(bl: bv8, d: bv8): (t: seq<bv8>)
    ensures |t| == 6
  {
    WriteNibble(bl, Split(d).0 | H.RsBit) + WriteNibble(bl, Split(d).1 | H.RsBit)
  }

  function Send(bl: bv8, x: H.Transfer): (t: seq<bv8>)
    ensures |t| == 6
  {
    match x
    case Instr(c) => SendCommand(bl, c)
    case Data(d) => SendData(bl, d)
  }

  /** The bytes for a sequence of transfers, one after the other. */
  function Encode(bl: bv8, xs: seq<H.Transfer>): (t: seq<bv8>)
    ensures |t| == 6 * |xs|
    decreases |xs|
  {
    if |xs| == 0 then [] else Send(bl, xs[0]) + Encode(bl, xs[1..])
  }

  lemma {:induction false} EncodeAppend(bl: bv8, xs: seq<H.Transfer>, ys: seq<H.Transfer>)
    ensures Encode(bl, xs + ys) == Encode(bl, xs) + Encode(bl, ys)
    decreases |xs|
  {
    if |xs| == 0 {
      assert xs + ys == ys;
    } else {
      assert (xs + ys)[1..] == xs[1..] + ys;
      EncodeAppend(bl, xs[1..], ys);
    }
  }

  /** One written nibble is exactly one latch of the controller: RS and the
      data lines as the driver set them, the backlight bit left out. */
  lemma LatchNibble(bl: bv8, nibble: bv8)
    requires BacklightState(bl) && nibble & 0x0E == 0
    ensures H.Latches(WriteNibble(bl, nibble)) == [H.Nibble(nibble & H.RsBit != 0, nibble >> 4)]
  {
    var d := nibble | bl;
    var t := WriteNibble(bl, nibble);
    assert d & H.EnBit == 0;
    assert t == [d, d | H.EnBit, d];
    assert !H.Falls(t[0], t[1]) && H.Falls(t[1], t[2]);
    assert (d | H.EnBit) & H.RsBit == nibble & H.RsBit;
    assert (d | H.EnBit) >> 4 == nibble >> 4;
    assert t[1..] == [t[1], t[2]];
    assert t[2..] == [t[2]];
    assert H.Latches(t[2..]) == [];
  }

  /** The three bytes of one nibble keep the backlight bit as given and RS
      as the nibble has it, and the last one leaves E low. */
  lemma NibbleBytes(bl: bv8, nibble: bv8)
    requires BacklightState(bl) && nibble & 0x0E == 0
    ensures forall k :: 0 <= k < 3 ==> WriteNibble(bl, nibble)[k] & H.BacklightBit == bl
    ensures forall k :: 0 <= k < 3 ==> WriteNibble(bl, nibble)[k] & H.RsBit == nibble & H.RsBit
    ensures WriteNibble(bl, nibble)[2] & H.EnBit == 0
  {
    var d := nibble | bl;
    assert WriteNibble(bl, nibble) == [d, d | H.EnBit, d & !H.EnBit];
  }

  /** The two halves of a byte with an RS level: each is a legal nibble
      carrying that level, and they join back into the byte. */
  lemma Halves(v: bv8, rs: bv8)
    requires rs == 0 || rs == H.RsBit
    ensures (Split(v).0 | rs) & 0x0E == 0 && (Split(v).1 | rs) & 0x0E == 0
    ensures (Split(v).0 | rs) & H.RsBit == rs && (Split(v).1 | rs) & H.RsBit == rs
    ensures (Split(v).0 | rs) >> 4 == v >> 4 && (Split(v).1 | rs) >> 4 == v & 0x0F
    ensures ((v >> 4) << 4) | ((v & 0x0F) & 0x0F) == v
  {
  }

  /** The two nibbles of one byte latch as its high and low half, both
      with the same RS level. */
  lemma {:induction false} BytePair(bl: bv8, v: bv8, rs: bv8)
    requires BacklightState(bl) && (rs == 0 || rs == H.RsBit)
    ensures var t := WriteNibble(bl, Split(v).0 | rs) + WriteNibble(bl, Split(v).1 | rs);
      H.Latches(t) == [H.Nibble(rs != 0, v >> 4), H.Nibble(rs != 0, v & 0x0F)]
  {
    var hi, lo := Split(v).0 | rs, Split(v).1 | rs;
    Halves(v, rs);
    var a, b := WriteNibble(bl, hi), WriteNibble(bl, lo);
    LatchNibble(bl, hi);
    LatchNibble(bl, lo);
    NibbleBytes(bl, hi);
    H.LatchesAppend(a, b);
  }

  /** The value and RS level a transfer is sent with. */
  function Payload(x: H.Transfer): (r: bv8) {
    if x.Data? then x.value else x.cmd
  }

  function RsLevel(x: H.Transfer): (r: bv8) {
    if x.Data? then H.RsBit else 0
  }

  lemma SendSplit(bl: bv8, x: H.Transfer)
    ensures Send(bl, x) == WriteNibble(bl, Split(Payload(x)).0 | RsLevel(x)) + WriteNibble(bl, Split(Payload(x)).1 | RsLevel(x))
  {
    if x.Instr? {
      assert Split(x.cmd).0 | 0 == Split(x.cmd).0 && Split(x.cmd).1 | 0 == Split(x.cmd).1;
    }
  }

  /** The two latched halves of a transfer join back into it. */
  lemma JoinHalves(x: H.Transfer)
    ensures H.Join([H.Nibble(RsLevel(x) != 0, Payload(x) >> 4), H.Nibble(RsLevel(x) != 0, Payload(x) & 0x0F)]) == [x]
  {
    var v := Payload(x);
    assert ((v >> 4) << 4) | ((v & 0x0F) & 0x0F) == v;
  }

  /** Each byte sent reaches the controller as one transfer of the same
      kind and value, and the last byte written leaves E low. */
  lemma {:induction false} SendReceived(bl: bv8, x: H.Transfer)
    requires BacklightState(bl)
    ensures |H.Latches(Send(bl, x))| == 2
    ensures H.Join(H.Latches(Send(bl, x))) == [x]
    ensures Send(bl, x)[5] & H.EnBit == 0
  {
    SendSplit(bl, x);
    BytePair(bl, Payload(x), RsLevel(x));
    JoinHalves(x);
    SendLast(bl, x);
  }

  lemma SendLast(bl: bv8, x: H.Transfer)
    requires BacklightState(bl)
    ensures Send(bl, x)[5] & H.EnBit == 0
  {
    var lo := Split(Payload(x)).1 | RsLevel(x);
    SendSplit(bl, x);
    Halves(Payload(x), RsLevel(x));
    NibbleBytes(bl, lo);
    assert Send(bl, x)[5] == WriteNibble(bl, lo)[2];
  }

  /** Every byte of t carries the backlight bit bl and the RS level rs. */
  predicate Levels(t: seq<bv8>, bl: bv8, rs: bv8) {
    forall k :: 0 <= k < |t| ==> t[k] & H.BacklightBit == bl && t[k] & H.RsBit == rs
  }

  lemma LevelsAppend(a: seq<bv8>, b: seq<bv8>, bl: bv8, rs: bv8)
    requires Levels(a, bl, rs) && Levels(b, bl, rs)
    ensures Levels(a + b, bl, rs)
  {
    forall k | 0 <= k < |a + b|
      ensures (a + b)[k] & H.BacklightBit == bl && (a + b)[k] & H.RsBit == rs
    {
      if k < |a| { assert (a + b)[k] == a[k]; } else { assert (a + b)[k] == b[k - |a|]; }
    }
  }

  /** The three bytes of a nibble keep the backlight bit and the nibble's
      RS level. */
  lemma NibbleLevels(bl: bv8, nibble: bv8)
    requires BacklightState(bl) && nibble & 0x0E == 0
    ensures Levels(WriteNibble(bl, nibble), bl, nibble & H.RsBit)
  {
    NibbleBytes(bl, nibble);
  }

  /** Every byte sent keeps the backlight bit as given and RS at the
      transfer's level. */
  lemma SendBytes(bl: bv8, x: H.Transfer)
    requires BacklightState(bl)
    ensures Levels(Send(bl, x), bl, RsLevel(x))
  {
    match x
    case Instr(c) => PairLevels(bl, Split(c).0, Split(c).1, 0);
    case Data(d) => PairLevels(bl, Split(d).0 | H.RsBit, Split(d).1 | H.RsBit, H.RsBit);
  }

  /** Two nibbles with the same RS level and free low lines. */
  lemma PairLevels(bl: bv8, hi: bv8, lo: bv8, rs: bv8)
    requires BacklightState(bl) && (rs == 0 || rs == H.RsBit)
    requires hi & 0x0E == 0 && lo & 0x0E == 0 && hi & H.RsBit == rs && lo & H.RsBit == rs
    ensures Levels(WriteNibble(bl, hi) + WriteNibble(bl, lo), bl, rs)
  {
    NibbleLevels(bl, hi);
    NibbleLevels(bl, lo);
    LevelsAppend(WriteNibble(bl, hi), WriteNibble(bl, lo), bl, rs);
  }

  /** The controller receives exactly the transfers the driver encodes. */
  lemma {:induction false} EncodeReceived(bl: bv8, xs: seq<H.Transfer>)
    requires BacklightState(bl)
    ensures H.Received(Encode(bl, xs)) == xs
    ensures |xs| > 0 ==> Encode(bl, xs)[6 * |xs| - 1] & H.EnBit == 0
    decreases |xs|
  {
    if |xs| > 0 {
      var head, tail := Send(bl, xs[0]), Encode(bl, xs[1..]);
      SendReceived(bl, xs[0]);
      EncodeReceived(bl, xs[1..]);
      H.LatchesAppend(head, tail);
      H.JoinAppend(H.Latches(head), H.Latches(tail));
      assert xs == [xs[0]] + xs[1..];
    }
  }

  /** Every byte of an encoded sequence carries the backlight bit as given. */
  lemma {:induction false} EncodeKeepsBacklight(bl: bv8, xs: seq<H.Transfer>)
    requires BacklightState(bl)
    ensures forall k :: 0 <= k < |Encode(bl, xs)| ==> Encode(bl, xs)[k] & H.BacklightBit == bl
    decreases |xs|
  {
    if |xs| > 0 {
      var head, tail := Send(bl, xs[0]), Encode(bl, xs[1..]);
      SendBytes(bl, xs[0]);
      EncodeKeepsBacklight(bl, xs[1..]);
      forall k | 0 <= k < |head + tail| ensures (head + tail)[k] & H.BacklightBit == bl {
        if k < |head| { assert (head + tail)[k] == head[k]; } else { assert (head + tail)[k] == tail[k - |head|]; }
      }
    }
  }

  /** EncodeReceived and EncodeKeepsBacklight together, for any backlight
      value, so that functions can use them without a case split. */
  lemma Delivered(bl: bv8, xs: seq<H.Transfer>)
    ensures BacklightState(bl) ==> H.Received(Encode(bl, xs)) == xs
    ensures BacklightState(bl) ==>
              forall k :: 0 <= k < |Encode(bl, xs)| ==> Encode(bl, xs)[k] & H.BacklightBit == bl
  {
    if BacklightState(bl) {
      EncodeReceived(bl, xs);
      EncodeKeepsBacklight(bl, xs);
    }
  }

  // ---------------------------------------------------------------------
  // Initialisation

  /** i2c_master_init, with the results of the two platform calls as
      parameters: installs the master once and reports success ever after. */
  function I2cMasterInit(lcd: Lcd, paramConfig: EspErr, driverInstall: EspErr): (r: (EspErr, Lcd))
    ensures r.0 == EspOk <==> r.1.i2cReady
    ensures r.1 == lcd.(i2cReady := r.1.i2cReady)
    ensures lcd.i2cReady ==> r == (EspOk, lcd)
    ensures !lcd.i2cReady && r.0 != EspOk ==>
              r.0 == (if paramConfig != EspOk then paramConfig else driverInstall)
  {
    if lcd.i2cReady then (EspOk, lcd)
    else if paramConfig != EspOk then (paramConfig, lcd)
    else if driverInstall != EspOk then (driverInstall, lcd)
    else (EspOk, lcd.(i2cReady := true))
  }

  /** Once the master is installed, initialising again changes nothing
      whatever the platform would answer. */
  lemma I2cInitIdempotent(lcd: Lcd, p1: EspErr, d1: EspErr, p2: EspErr, d2: EspErr)
    requires I2cMasterInit(lcd, p1, d1).0 == EspOk
    ensures I2cMasterInit(I2cMasterInit(lcd, p1, d1).1, p2, d2) == (EspOk, I2cMasterInit(lcd, p1, d1).1)
  {
  }

  /** The five commands sent after the switch to 4-bit mode. */
  const InitCommands: seq<H.Transfer> := [
    H.Instr(LcdFunctionSet | Lcd4BitMode | Lcd2LineMode | Lcd5x8DotsMode),
    H.Instr(LcdDisplayOnOff | LcdDisplayOff),
    H.Instr(LcdClearDisplay),
    H.Instr(LcdEntryMode | LcdEntryLeft | LcdEntryShiftDecrement),
    H.Instr(LcdDisplayOnOff | LcdDisplayOn | LcdCursorOff | LcdBlinkOff)]

  /** The four single nibbles that put the controller into 4-bit mode. */
  function ModeNibbles(bl: bv8): (r: seq<bv8>) {
    WriteNibble(bl, 0x30) + WriteNibble(bl, 0x30) + WriteNibble(bl, 0x30) + WriteNibble(bl, 0x20)
  }

  /** LiquidCrystal_I2C_Init. The address and geometry are stored before
      the I2C master is set up, so they change even when that fails; on
      failure nothing is written. */
  function Init(lcd: Lcd, addr: bv8, cols: bv8, rows: bv8, paramConfig: EspErr, driverInstall: EspErr): (r: (EspErr, Out))
    ensures r.1.lcd.addr == addr && r.1.lcd.cols == cols && r.1.lcd.rows == rows
    ensures r.0 == EspOk <==> r.1.lcd.i2cReady
    ensures r.0 != EspOk ==> r.1.bytes == [] && r.1.lcd.backlight == lcd.backlight
    ensures r.0 == EspOk ==> r.1.lcd.backlight == LcdBacklightOn
    ensures lcd.i2cReady ==> r.0 == EspOk
  {
    var stored := lcd.(addr := addr, cols := cols, rows := rows);
    var (err, l) := I2cMasterInit(stored, paramConfig, driverInstall);
    if err != EspOk then (err, Out(l, []))
    else
      var light := Backlight(l);
      (EspOk, Out(light.lcd, ModeNibbles(l.backlight) + Encode(l.backlight, InitCommands) + light.bytes))
  }

  /** The mode switch latches 3, 3, 3, 2 with RS low, each as a single
      nibble, and leaves E low. */
  lemma {:induction false} ModeLatches(bl: bv8)
    requires BacklightState(bl)
    ensures H.Latches(ModeNibbles(bl)) ==
              [H.Nibble(false, 0x03), H.Nibble(false, 0x03), H.Nibble(false, 0x03), H.Nibble(false, 0x02)]
    ensures ModeNibbles(bl)[11] & H.EnBit == 0
  {
    var n3, n2 := WriteNibble(bl, 0x30), WriteNibble(bl, 0x20);
    assert ModeNibbles(bl) == n3 + (n3 + (n3 + n2));
    LatchNibble(bl, 0x30);
    LatchNibble(bl, 0x20);
    NibbleBytes(bl, 0x30);
    NibbleBytes(bl, 0x20);
    H.LatchesAppend(n3, n2);
    H.LatchesAppend(n3, n3 + n2);
    H.LatchesAppend(n3, n3 + (n3 + n2));
  }

  /** The start-up commands as instruction bytes and as the controller
      decodes them: 4-bit interface, two lines, 5x8 dots; display off;
      clear; cursor moving right without display shift; display on with
      neither cursor nor blink. */
  lemma InitCommandMeaning()
    ensures InitCommands == [H.Instr(0x28), H.Instr(0x08), H.Instr(0x01), H.Instr(0x06), H.Instr(0x0C)]
    ensures H.Decode(0x28) == H.FunctionSet(false, true, false)
    ensures H.Decode(0x08) == H.DisplayControl(false, false, false)
    ensures H.Decode(0x01) == H.ClearDisplay
    ensures H.Decode(0x06) == H.EntryModeSet(true, false)
    ensures H.Decode(0x0C) == H.DisplayControl(true, false, false)
  {
  }

  /** A successful initialisation latches the mode switch as single
      nibbles, then delivers the start-up commands, and ends by writing the
      backlight bit alone, which latches nothing. */
  lemma {:induction false} InitSequence(lcd: Lcd, addr: bv8, cols: bv8, rows: bv8, paramConfig: EspErr, driverInstall: EspErr)
    requires BacklightState(lcd.backlight)
    requires Init(lcd, addr, cols, rows, paramConfig, driverInstall).0 == EspOk
    ensures var t := Init(lcd, addr, cols, rows, paramConfig, driverInstall).1.bytes;
      && H.Latches(t) == H.Latches(ModeNibbles(lcd.backlight)) + H.Latches(Encode(lcd.backlight, InitCommands))
      && |H.Latches(t)| >= 4
      && H.Join(H.Latches(t)[4..]) == InitCommands
      && t[|t| - 1] == LcdBacklightOn
  {
    var bl := lcd.backlight;
    assert Init(lcd, addr, cols, rows, paramConfig, driverInstall).1.bytes
      == ModeNibbles(bl) + Encode(bl, InitCommands) + [LcdBacklightOn];
    InitTrace(bl);
  }

  /** The bytes of a successful start-up: the mode nibbles, the encoded
      set-up instructions and the backlight byte. */
  lemma {:induction false} InitTrace(bl: bv8)
    requires BacklightState(bl)
    ensures var t := ModeNibbles(bl) + Encode(bl, InitCommands) + [LcdBacklightOn];
      && H.Latches(t) == H.Latches(ModeNibbles(bl)) + H.Latches(Encode(bl, InitCommands))
      && |H.Latches(t)| >= 4
      && H.Join(H.Latches(t)[4..]) == InitCommands
      && t[|t| - 1] == LcdBacklightOn
  {
    var mode, cmds := ModeNibbles(bl), Encode(bl, InitCommands);
    var t := mode + cmds + [LcdBacklightOn];
    assert t == mode + (cmds + [LcdBacklightOn]);
    ModeLatches(bl);
    EncodeReceived(bl, InitCommands);
    H.LatchesAppend(cmds, [LcdBacklightOn]);
    H.LatchesAppend(mode, cmds + [LcdBacklightOn]);
    assert H.Latches([LcdBacklightOn]) == [];
    assert H.Latches(cmds + [LcdBacklightOn]) == H.Latches(cmds);
    assert H.Latches(t)[4..] == H.Latches(cmds);
  }

  // ---------------------------------------------------------------------
  // Cursor and text

  const RowOffsets: seq<bv8> := [0x00, 0x40, 0x14, 0x54]

  /** Row clamping in uint8 arithmetic: with no rows at all, rows - 1
      wraps to 255. */
  function ClampRow(lcd: Lcd, row: bv8): (r: bv8) {
    if row >= lcd.rows then lcd.rows - 1 else row
  }

  /** Column clamping in uint8 arithmetic. */
  function ClampCol(lcd: Lcd, col: bv8): (r: bv8) {
    if col >= lcd.cols then lcd.cols - 1 else col
  }

  /** lcd_setCursor: clamp, then set the display RAM address to the column
      plus the row's offset (a uint8 sum). The offset table has four rows;
      a clamped row past it is outside what the driver defines. */
  function SetCursor(lcd: Lcd, col: bv8, row: bv8): (r: Out)
    requires ClampRow(lcd, row) < 4
    ensures r.lcd == lcd
    ensures r.bytes == Encode(lcd.backlight, [H.Instr(LcdSetDdramAddress | (ClampCol(lcd, col) + RowOffsets[ClampRow(lcd, row)]))])
    ensures BacklightState(lcd.backlight) ==>
              H.Received(r.bytes) == [H.Instr(LcdSetDdramAddress | (ClampCol(lcd, col) + RowOffsets[ClampRow(lcd, row)]))]
  {
    var address := ClampCol(lcd, col) + RowOffsets[ClampRow(lcd, row)];
    Delivered(lcd.backlight, [H.Instr(LcdSetDdramAddress | address)]);
    Out(lcd, SendCommand(lcd.backlight, LcdSetDdramAddress | address))
  }

  /** On a display of one to four rows and one to twenty columns, the
      cursor lands inside the display, and distinct positions get distinct
      display RAM addresses. */
  lemma CursorPlacement(lcd: Lcd, col: bv8, row: bv8)
    requires 1 <= lcd.rows <= 4 && 1 <= lcd.cols <= 20
    ensures ClampRow(lcd, row) < lcd.rows && ClampCol(lcd, col) < lcd.cols
    ensures ClampRow(lcd, row) == (if row < lcd.rows then row else lcd.rows - 1)
    ensures ClampCol(lcd, col) == (if col < lcd.cols then col else lcd.cols - 1)
    ensures H.Decode(LcdSetDdramAddress | (ClampCol(lcd, col) + RowOffsets[ClampRow(lcd, row)]))
            == H.SetDdramAddress(ClampCol(lcd, col) + RowOffsets[ClampRow(lcd, row)])
  {
  }

  lemma {:induction false} AddressesDistinct(c1: bv8, r1: bv8, c2: bv8, r2: bv8)
    requires c1 < 20 && c2 < 20 && r1 < 4 && r2 < 4
    requires c1 + RowOffsets[r1] == c2 + RowOffsets[r2]
    ensures c1 == c2 && r1 == r2
  {
    assert (c1 + RowOffsets[r1]) as int == c1 as int + RowOffsets[r1] as int;
    assert (c2 + RowOffsets[r2]) as int == c2 as int + RowOffsets[r2] as int;
  }

  /** The characters of a C string before its terminating NUL. */
  function CString(buf: seq<bv8>): (r: seq<bv8>)
    requires 0 in buf
    ensures 0 !in r && r + [0] <= buf
    decreases |buf|
  {
    if buf[0] == 0 then [] else [buf[0]] + CString(buf[1..])
  }

  /** lcd_print: one data byte per character up to the NUL; nothing for a
      NULL pointer. */
  function Print(lcd: Lcd, s: Option<seq<bv8>>): (r: Out)
    requires s.Some? ==> 0 in s.value
    ensures r.lcd == lcd
    ensures s.None? ==> r.bytes == []
    ensures s.Some? ==> r.bytes == Encode(lcd.backlight, H.Datas(CString(s.value)))
    ensures s.Some? && BacklightState(lcd.backlight) ==> H.Received(r.bytes) == H.Datas(CString(s.value))
  {
    match s
    case None => Out(lcd, [])
    case Some(buf) =>
      Delivered(lcd.backlight, H.Datas(CString(buf)));
      Out(lcd, Encode(lcd.backlight, H.Datas(CString(buf))))
  }

  /** lcd_printChar: one data byte. */
  function PrintChar(lcd: Lcd, c: bv8): (r: Out)
    ensures r.lcd == lcd
    ensures BacklightState(lcd.backlight) ==> H.Received(r.bytes) == [H.Data(c)]
  {
    Delivered(lcd.backlight, [H.Data(c)]);
    Out(lcd, SendData(lcd.backlight, c))
  }

  /** A C char as the byte the driver sends. */
  function CharByte(c: char): (b: bv8)
    requires c as int < 256
    ensures b as int == c as int
  {
    ByteOf(c as int)
  }

  /** The byte holding the value n, counted up from zero. */
  function ByteOf(n: nat): (b: bv8)
    requires n < 256
    ensures b as int == n
  {
    if n == 0 then 0 else ByteOf(n - 1) + 1
  }

  /** The bytes of a string whose characters are all C chars. */
  function Ascii(s: string): (r: seq<bv8>)
    requires forall i :: 0 <= i < |s| ==> s[i] as int < 256
    ensures |r| == |s|
    ensures forall i :: 0 <= i < |s| ==> r[i] as int == s[i] as int
  {
    seq(|s|, i requires 0 <= i < |s| => CharByte(s[i]))
  }

  /** A NUL-terminated copy of a string, as a C literal is stored. */
  function Literal(s: string): (r: seq<bv8>)
    requires forall i :: 0 <= i < |s| ==> 0 < s[i] as int < 256
  {
    Ascii(s) + [0]
  }

  /** snprintf into a buffer of `size` bytes: as much of the text as fits
      before the NUL that always ends it. */
  function FormatInto(size: nat, text: seq<bv8>): (r: seq<bv8>)
    requires size >= 1
    ensures 0 in r && |r| <= size
  {
    (if |text| < size then text else text[..size - 1]) + [0]
  }

  /** The "%d" rendering of an int as C chars. */
  function IntText(n: int): (r: seq<bv8>)
    ensures 0 !in r
  {
    Decimal.FormatChars(n);
    Ascii(Decimal.Format(n))
  }

  /** lcd_printInt: the decimal rendering, which for any 32-bit int fits
      the 12-byte buffer without being cut. */
  function PrintInt(lcd: Lcd, n: int): (r: Out)
    requires IsInt32(n)
    ensures r.lcd == lcd
    ensures r.bytes == Encode(lcd.backlight, H.Datas(IntText(n)))
    ensures BacklightState(lcd.backlight) ==> H.Received(r.bytes) == H.Datas(IntText(n))
  {
    var buf := FormatInto(IntBufferSize, IntText(n));
    IntFitsBuffer(n);
    CStringOf(IntText(n));
    Print(lcd, Some(buf))
  }

  /** snprintf never cuts a 32-bit int short: the whole rendering and its
      NUL fit the buffer. */
  lemma IntFitsBuffer(n: int)
    requires IsInt32(n)
    ensures FormatInto(IntBufferSize, IntText(n)) == IntText(n) + [0]
  {
    Decimal.FormatFitsInt32(n);
  }

  lemma {:induction false} CStringOf(s: seq<bv8>)
    requires 0 !in s
    ensures CString(s + [0]) == s
    decreases |s|
  {
    if |s| > 0 {
      assert (s + [0])[1..] == s[1..] + [0];
      CStringOf(s[1..]);
      assert s == [s[0]] + s[1..];
    }
  }

  /** begin: only the geometry changes; the character size is ignored. */
  function Begin(lcd: Lcd, cols: bv8, rows: bv8, charsize: bv8): (r: Lcd)
    ensures r.cols == cols && r.rows == rows
    ensures r.addr == lcd.addr && r.backlight == lcd.backlight && r.i2cReady == lcd.i2cReady
  {
    lcd.(cols := cols, rows := rows)
  }

  // ---------------------------------------------------------------------
  // Fixed commands

  /** The driver's argument-free command functions, legacy names included. */
  datatype Op =
    | LcdClear | LcdHome | Home
    | NoDisplay | Display | NoBlink | Blink | NoCursor | Cursor
    | ScrollDisplayLeft | ScrollDisplayRight
    | LeftToRight | RightToLeft | Autoscroll | NoAutoscroll
    | PrintLeft | PrintRight | ShiftIncrement | ShiftDecrement

  /** The legacy names call straight through to their targets. */
  function Canonical(op: Op): (r: Op) {
    match op
    case Home => LcdHome
    case PrintLeft => LeftToRight
    case PrintRight => RightToLeft
    case ShiftIncrement => Autoscroll
    case ShiftDecrement => NoAutoscroll
    case _ => op
  }

  /** The instruction byte each command function sends, built from the
      header's flags. */
  function Command(op: Op): (r: bv8)
    ensures op == LcdClear ==> r == 0x01
    ensures op in {LcdHome, Home} ==> r == 0x02
    ensures op == NoDisplay ==> r == 0x08
    ensures op in {Display, NoCursor, NoBlink} ==> r == 0x0C
    ensures op == Cursor ==> r == 0x0E
    ensures op == Blink ==> r == 0x0F
    ensures op == ScrollDisplayLeft ==> r == 0x18
    ensures op == ScrollDisplayRight ==> r == 0x1C
    ensures op in {LeftToRight, NoAutoscroll, PrintLeft, ShiftDecrement} ==> r == 0x06
    ensures op in {RightToLeft, PrintRight} ==> r == 0x04
    ensures op in {Autoscroll, ShiftIncrement} ==> r == 0x07
  {
    match Canonical(op)
    case LcdClear => LcdClearDisplay
    case LcdHome => LcdReturnHome
    case NoDisplay => LcdDisplayOnOff | LcdDisplayOff | LcdCursorOff | LcdBlinkOff
    case Display => LcdDisplayOnOff | LcdDisplayOn | LcdCursorOff | LcdBlinkOff
    case NoBlink => LcdDisplayOnOff | LcdDisplayOn | LcdCursorOff | LcdBlinkOff
    case Blink => LcdDisplayOnOff | LcdDisplayOn | LcdCursorOn | LcdBlinkOn
    case NoCursor => LcdDisplayOnOff | LcdDisplayOn | LcdCursorOff | LcdBlinkOff
    case Cursor => LcdDisplayOnOff | LcdDisplayOn | LcdCursorOn | LcdBlinkOff
    case ScrollDisplayLeft => LcdCursorOnDisplayShift | LcdDisplayMove | LcdMoveLeft
    case ScrollDisplayRight => LcdCursorOnDisplayShift | LcdDisplayMove | LcdMoveRight
    case LeftToRight => LcdEntryMode | LcdEntryLeft | LcdEntryShiftDecrement
    case RightToLeft => LcdEntryMode | LcdEntryRight | LcdEntryShiftDecrement
    case Autoscroll => LcdEntryMode | LcdEntryLeft | LcdEntryShiftIncrement
    case NoAutoscroll => LcdEntryMode | LcdEntryLeft | LcdEntryShiftDecrement
    case _ => 0
  }

  /** What the controller makes of each command byte. Note that the
      driver keeps no display-control state: blink turns the cursor on,
      and cursor, no_cursor and no_blink each reset the other two bits. */
  lemma CommandMeaning(op: Op)
    ensures op == LcdClear ==> H.Decode(Command(op)) == H.ClearDisplay
    ensures op in {LcdHome, Home} ==> H.Decode(Command(op)) == H.ReturnHome
    ensures op == NoDisplay ==> H.Decode(Command(op)) == H.DisplayControl(false, false, false)
    ensures op in {Display, NoCursor, NoBlink} ==> H.Decode(Command(op)) == H.DisplayControl(true, false, false)
    ensures op == Cursor ==> H.Decode(Command(op)) == H.DisplayControl(true, true, false)
    ensures op == Blink ==> H.Decode(Command(op)) == H.DisplayControl(true, true, true)
    ensures op == ScrollDisplayLeft ==> H.Decode(Command(op)) == H.CursorShift(true, false)
    ensures op == ScrollDisplayRight ==> H.Decode(Command(op)) == H.CursorShift(true, true)
    ensures op in {LeftToRight, NoAutoscroll, PrintLeft, ShiftDecrement} ==> H.Decode(Command(op)) == H.EntryModeSet(true, false)
    ensures op in {RightToLeft, PrintRight} ==> H.Decode(Command(op)) == H.EntryModeSet(false, false)
    ensures op in {Autoscroll, ShiftIncrement} ==> H.Decode(Command(op)) == H.EntryModeSet(true, true)
  {
  }

  /** Runs one of the command functions. */
  function RunOp(lcd: Lcd, op: Op): (r: Out)
    ensures r.lcd == lcd
    ensures r.bytes == Encode(lcd.backlight, [H.Instr(Command(op))])
    ensures BacklightState(lcd.backlight) ==> H.Received(r.bytes) == [H.Instr(Command(op))]
    ensures BacklightState(lcd.backlight) ==> forall k :: 0 <= k < |r.bytes| ==> r.bytes[k] & H.BacklightBit == lcd.backlight
  {
    Delivered(lcd.backlight, [H.Instr(Command(op))]);
    Out(lcd, SendCommand(lcd.backlight, Command(op)))
  }

  /** The legacy names write exactly what their targets write. */
  lemma AliasesAgree(lcd: Lcd)
    ensures RunOp(lcd, Home) == RunOp(lcd, LcdHome)
    ensures RunOp(lcd, PrintLeft) == RunOp(lcd, LeftToRight)
    ensures RunOp(lcd, PrintRight) == RunOp(lcd, RightToLeft)
    ensures RunOp(lcd, ShiftIncrement) == RunOp(lcd, Autoscroll)
    ensures RunOp(lcd, ShiftDecrement) == RunOp(lcd, NoAutoscroll)
  {
  }

  // ---------------------------------------------------------------------
  // Backlight

  /** backlight: remember the bit and write it alone. */
  function Backlight(lcd: Lcd): (r: Out)
    ensures r.lcd == lcd.(backlight := LcdBacklightOn)
    ensures r.bytes == [LcdBacklightOn] && H.Received(r.bytes) == []
  {
    Out(lcd.(backlight := LcdBacklightOn), [LcdBacklightOn])
  }

  /** no_backlight: clear the bit and write an all-zero byte. */
  function NoBacklight(lcd: Lcd): (r: Out)
    ensures r.lcd == lcd.(backlight := LcdBacklightOff)
    ensures r.bytes == [0x00] && H.Received(r.bytes) == []
  {
    Out(lcd.(backlight := LcdBacklightOff), [0x00])
  }

  /** After backlight every byte of a later command carries the backlight
      bit; after no_backlight none does. */
  lemma BacklightPersists(lcd: Lcd, op: Op)
    ensures forall k :: 0 <= k < 6 ==> RunOp(Backlight(lcd).lcd, op).bytes[k] & H.BacklightBit != 0
    ensures forall k :: 0 <= k < 6 ==> RunOp(NoBacklight(lcd).lcd, op).bytes[k] & H.BacklightBit == 0
  {
  }
}
