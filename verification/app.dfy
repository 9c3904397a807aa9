/** The application: the NVS recovery rule at start-up, the start-up
    screens, one pass of the endless measure-and-display loop and runs of
    it. Logging is left out and time is counted as the sum of the pauses;
    what a pass produces is the new device state, the bytes that reach the
    display, and the time to the next read. */
module App {
  import opened Base
  import RgbLed
  import Dht11
  import LcdI2c
  import H = Hd44780
  import Decimal

  const LcdAddress: bv8 := 0x27
  const LcdCols: bv8 := 16
  const LcdRows: bv8 := 2
  const SensorGpio := 4
  /** The two pauses between the sensor's initialisation and the first
      read, on either side of the ready screen, and the pause after every
      cycle. */
  const StartupDelayMs := 2000
  const CycleDelayMs := 60000

  /** The temperature unit toggle is fixed to Fahrenheit. */
  const UseFahrenheit := true

  function UnitText(fahrenheit: bool): (r: string) {
    if fahrenheit then "F" else "C"
  }

  // ---------------------------------------------------------------------
  // NVS start-up

  datatype Boot = Continue(erased: bool) | Halt(err: EspErr)

  /** The two results that call for erasing the NVS partition. */
  predicate Recoverable(e: EspErr) {
    e == ErrNvsNoFreePages || e == ErrNvsNewVersionFound
  }

  /** Initialise NVS; erase and initialise again only when the first result
      asks for it. A failed erase or a final non-OK result aborts start-up.
      The three platform results are parameters. */
  function NvsStartup(first: EspErr, erase: EspErr, second: EspErr): (r: Boot)
    ensures r.Continue? ==> (r.erased <==> Recoverable(first))
    ensures !Recoverable(first) ==> (r.Continue? <==> first == EspOk)
    ensures !Recoverable(first) && r.Halt? ==> r.err == first
    ensures Recoverable(first) ==> (r.Continue? <==> erase == EspOk && second == EspOk)
    ensures Recoverable(first) && r.Halt? ==> r.err in {erase, second}
    ensures r.Halt? ==> r.err != EspOk
  {
    if Recoverable(first) then
      if erase != EspOk then Halt(erase)
      else if second != EspOk then Halt(second)
      else Continue(true)
    else if first != EspOk then Halt(first)
    else Continue(false)
  }

  /** Without a recoverable first result, the erase and the second
      initialisation never happen: their results cannot matter. */
  lemma NvsEraseOnlyWhenAsked(first: EspErr, e1: EspErr, s1: EspErr, e2: EspErr, s2: EspErr)
    requires !Recoverable(first)
    ensures NvsStartup(first, e1, s1) == NvsStartup(first, e2, s2)
  {
  }

  // ---------------------------------------------------------------------
  // Display scripts

  /** A call main.c makes into the display driver. */
  datatype LcdCall = Clear | MoveTo(col: bv8, row: bv8) | Text(s: string) | Number(n: int)

  predicate IsText(s: string) {
    forall i :: 0 <= i < |s| ==> 0 < s[i] as int < 256
  }

  /** What the driver needs for a call to be defined: a row the offset
      table covers, a NUL-free C string, a 32-bit int. */
  predicate Allowed(lcd: LcdI2c.Lcd, c: LcdCall) {
    match c
    case Clear => true
    case MoveTo(col, row) => LcdI2c.ClampRow(lcd, row) < 4
    case Text(s) => IsText(s)
    case Number(n) => IsInt32(n)
  }

  predicate AllAllowed(lcd: LcdI2c.Lcd, cs: seq<LcdCall>) {
    forall i :: 0 <= i < |cs| ==> Allowed(lcd, cs[i])
  }

  /** The characters a printing call shows. */
  function Shown(c: LcdCall): (r: seq<bv8>)
    requires c.Text? ==> IsText(c.s)
  {
    match c
    case Text(s) => LcdI2c.Ascii(s)
    case Number(n) => LcdI2c.IntText(n)
    case _ => []
  }

  /** The transfers a call is meant to deliver to the controller. */
  function Meaning(lcd: LcdI2c.Lcd, c: LcdCall): (r: seq<H.Transfer>)
    requires Allowed(lcd, c)
  {
    match c
    case Clear => [H.Instr(LcdI2c.LcdClearDisplay)]
    case MoveTo(col, row) =>
      [H.Instr(LcdI2c.LcdSetDdramAddress | (LcdI2c.ClampCol(lcd, col) + LcdI2c.RowOffsets[LcdI2c.ClampRow(lcd, row)]))]
    case _ => H.Datas(Shown(c))
  }

  function Meanings(lcd: LcdI2c.Lcd, cs: seq<LcdCall>): (r: seq<seq<H.Transfer>>)
    requires AllAllowed(lcd, cs)
  {
    seq(|cs|, i requires 0 <= i < |cs| && Allowed(lcd, cs[i]) => Meaning(lcd, cs[i]))
  }

  function Flatten<T>(xss: seq<seq<T>>): (r: seq<T>)
    decreases |xss|
  {
    if |xss| == 0 then [] else xss[0] + Flatten(xss[1..])
  }

  lemma {:induction false} FlattenAppend<T>(xs: seq<seq<T>>, ys: seq<seq<T>>)
    ensures Flatten(xs + ys) == Flatten(xs) + Flatten(ys)
    decreases |xs|
  {
    if |xs| == 0 {
      assert xs + ys == ys;
    } else {
      assert (xs + ys)[1..] == xs[1..] + ys;
      FlattenAppend(xs[1..], ys);
    }
  }

  function Transfers(lcd: LcdI2c.Lcd, cs: seq<LcdCall>): (r: seq<H.Transfer>)
    requires AllAllowed(lcd, cs)
  {
    Flatten(Meanings(lcd, cs))
  }

  /** The characters a run of printing calls shows. */
  function ShownAll(cs: seq<LcdCall>): (r: seq<bv8>)
    requires forall i :: 0 <= i < |cs| ==> cs[i].Text? ==> IsText(cs[i].s)
    decreases |cs|
  {
    if |cs| == 0 then [] else Shown(cs[0]) + ShownAll(cs[1..])
  }

  /** One driver call, on a state none of these calls changes. */
  function Call(lcd: LcdI2c.Lcd, c: LcdCall): (t: seq<bv8>)
    requires Allowed(lcd, c)
    ensures t == LcdI2c.Encode(lcd.backlight, Meaning(lcd, c))
  {
    match c
    case Clear => LcdI2c.RunOp(lcd, LcdI2c.LcdClear).bytes
    case MoveTo(col, row) => LcdI2c.SetCursor(lcd, col, row).bytes
    case Text(s) =>
      LcdI2c.CStringOf(LcdI2c.Ascii(s));
      LcdI2c.Print(lcd, Some(LcdI2c.Literal(s))).bytes
    case Number(n) => LcdI2c.PrintInt(lcd, n).bytes
  }

  /** A script of calls, one after the other: its bytes encode exactly the
      transfers the calls mean, in order. */
  function Perform(lcd: LcdI2c.Lcd, cs: seq<LcdCall>): (t: seq<bv8>)
    requires AllAllowed(lcd, cs)
    ensures t == LcdI2c.Encode(lcd.backlight, Transfers(lcd, cs))
    decreases |cs|
  {
    if |cs| == 0 then []
    else
      TransfersCons(lcd, cs);
      LcdI2c.EncodeAppend(lcd.backlight, Meaning(lcd, cs[0]), Transfers(lcd, cs[1..]));
      Call(lcd, cs[0]) + Perform(lcd, cs[1..])
  }

  lemma TransfersAppend(lcd: LcdI2c.Lcd, a: seq<LcdCall>, b: seq<LcdCall>)
    requires AllAllowed(lcd, a) && AllAllowed(lcd, b)
    ensures AllAllowed(lcd, a + b)
    ensures Transfers(lcd, a + b) == Transfers(lcd, a) + Transfers(lcd, b)
  {
    AllowedAppend(lcd, a, b);
    assert Meanings(lcd, a + b) == Meanings(lcd, a) + Meanings(lcd, b);
    FlattenAppend(Meanings(lcd, a), Meanings(lcd, b));
  }

  /** A script's first call comes first. */
  lemma TransfersCons(lcd: LcdI2c.Lcd, cs: seq<LcdCall>)
    requires AllAllowed(lcd, cs) && |cs| > 0
    ensures Transfers(lcd, cs) == Meaning(lcd, cs[0]) + Transfers(lcd, cs[1..])
  {
    assert Meanings(lcd, cs)[1..] == Meanings(lcd, cs[1..]);
  }

  lemma AllowedAppend(lcd: LcdI2c.Lcd, a: seq<LcdCall>, b: seq<LcdCall>)
    requires AllAllowed(lcd, a) && AllAllowed(lcd, b)
    ensures AllAllowed(lcd, a + b)
  {
    forall i | 0 <= i < |a + b| ensures Allowed(lcd, (a + b)[i]) {
      if i >= |a| { assert (a + b)[i] == b[i - |a|]; }
    }
  }

  /** A run of printing calls delivers its characters as data. */
  lemma {:induction false} PrintingTransfers(lcd: LcdI2c.Lcd, cs: seq<LcdCall>)
    requires AllAllowed(lcd, cs)
    requires forall i :: 0 <= i < |cs| ==> cs[i].Text? || cs[i].Number?
    ensures Transfers(lcd, cs) == H.Datas(ShownAll(cs))
    decreases |cs|
  {
    if |cs| > 0 {
      var c := cs[0];
      TransfersCons(lcd, cs);
      PrintingTransfers(lcd, cs[1..]);
      assert Meaning(lcd, c) == H.Datas(Shown(c));
      assert ShownAll(cs) == Shown(c) + ShownAll(cs[1..]);
      H.DatasAppend(Shown(c), ShownAll(cs[1..]));
    }
  }

  /** Clear, then each line from its row's first column. */
  function TwoLines(top: seq<LcdCall>, bottom: seq<LcdCall>): (r: seq<LcdCall>) {
    [Clear, MoveTo(0, 0)] + top + [MoveTo(0, 1)] + bottom
  }

  /** The transfers that clear the display and write two lines, the first
      from display RAM address 0x00, the second from 0x40. */
  function Screen(top: seq<bv8>, bottom: seq<bv8>): (r: seq<H.Transfer>) {
    [H.Instr(0x01), H.Instr(0x80)] + H.Datas(top) + [H.Instr(0xC0)] + H.Datas(bottom)
  }

  predicate Printing(cs: seq<LcdCall>) {
    forall i :: 0 <= i < |cs| ==> (cs[i].Text? && IsText(cs[i].s)) || (cs[i].Number? && IsInt32(cs[i].n))
  }

  /** On a display with two to four rows, a two-line script delivers
      exactly a clear, the first line at the start of row 0 and the second
      at the start of row 1. */
  lemma {:induction false} TwoLinesScreen(lcd: LcdI2c.Lcd, top: seq<LcdCall>, bottom: seq<LcdCall>)
    requires 2 <= lcd.rows <= 4 && 1 <= lcd.cols
    requires Printing(top) && Printing(bottom)
    ensures AllAllowed(lcd, TwoLines(top, bottom))
    ensures Transfers(lcd, TwoLines(top, bottom)) == Screen(ShownAll(top), ShownAll(bottom))
  {
    var head: seq<LcdCall> := [Clear, MoveTo(0, 0)];
    var mid: seq<LcdCall> := [MoveTo(0, 1)];
    assert AllAllowed(lcd, head) && AllAllowed(lcd, mid);
    assert AllAllowed(lcd, top) && AllAllowed(lcd, bottom);
    assert Transfers(lcd, head) == [H.Instr(0x01), H.Instr(0x80)] by {
      TransfersCons(lcd, head);
      TransfersCons(lcd, head[1..]);
      assert head[1..][1..] == [];
    }
    assert Transfers(lcd, mid) == [H.Instr(0xC0)] by {
      TransfersCons(lcd, mid);
      assert mid[1..] == [];
    }
    PrintingTransfers(lcd, top);
    PrintingTransfers(lcd, bottom);
    TransfersAppend(lcd, head, top);
    TransfersAppend(lcd, head + top, mid);
    TransfersAppend(lcd, head + top + mid, bottom);
  }

  /** What the controller shows after a screen: from any state, the first
      line from address 0x00 and the second from 0x40, every other cell
      blank. */
  lemma {:induction false} ScreenShows(c: H.Controller, top: seq<bv8>, bottom: seq<bv8>)
    requires |top| <= 0x40
    ensures var d := H.Run(c, Screen(top, bottom));
      && (forall a :: 0 <= a < |top| ==> H.Cell(d, a) == top[a])
      && (forall a :: 0x40 <= a < 0x40 + |bottom| ==> H.Cell(d, a) == bottom[a - 0x40])
      && (forall a :: !(0 <= a < |top|) && !(0x40 <= a < 0x40 + |bottom|) ==> H.Cell(d, a) == H.Blank)
  {
    var head: seq<H.Transfer> := [H.Instr(0x01), H.Instr(0x80)];
    var c0 := H.Run(c, head);
    assert c0 == H.Controller(map[], 0) by {
      assert head[1..] == [H.Instr(0x80)];
      assert head[1..][1..] == [];
    }
    H.RunAppend(c, head, H.Datas(top));
    H.WriteRun(c0, top);
    var c1 := H.Run(c0, H.Datas(top));
    var c2 := H.Run(c1, [H.Instr(0xC0)]);
    assert c2 == c1.(ac := 0x40) by {
      assert [H.Instr(0xC0)][1..] == [];
    }
    H.RunAppend(c, head + H.Datas(top), [H.Instr(0xC0)]);
    H.WriteRun(c2, bottom);
    H.RunAppend(c, head + H.Datas(top) + [H.Instr(0xC0)], H.Datas(bottom));
    var d := H.Run(c2, H.Datas(bottom));
    assert d == H.Run(c, Screen(top, bottom));
    forall a | 0 <= a < |top| ensures H.Cell(d, a) == top[a] {
      assert H.Cell(d, a) == H.Cell(c2, a) == H.Cell(c1, a);
    }
    forall a | !(0 <= a < |top|) && !(0x40 <= a < 0x40 + |bottom|) ensures H.Cell(d, a) == H.Blank {
      assert H.Cell(d, a) == H.Cell(c2, a) == H.Cell(c1, a) == H.Cell(c0, a);
    }
  }

  lemma {:induction false} AsciiAppend(a: string, b: string)
    requires IsText(a) && IsText(b)
    ensures IsText(a + b) && LcdI2c.Ascii(a + b) == LcdI2c.Ascii(a) + LcdI2c.Ascii(b)
  {
    assert IsText(a + b) by {
      forall i | 0 <= i < |a + b| ensures 0 < (a + b)[i] as int < 256 {
        if i >= |a| { assert (a + b)[i] == b[i - |a|]; }
      }
    }
  }

  /** A two-line screen as the driver writes it. */
  function Show(lcd: LcdI2c.Lcd, top: seq<LcdCall>, bottom: seq<LcdCall>): (t: seq<bv8>)
    requires 2 <= lcd.rows <= 4 && 1 <= lcd.cols && LcdI2c.BacklightState(lcd.backlight)
    requires Printing(top) && Printing(bottom)
    ensures H.Received(t) == Screen(ShownAll(top), ShownAll(bottom))
  {
    TwoLinesScreen(lcd, top, bottom);
    LcdI2c.EncodeReceived(lcd.backlight, Transfers(lcd, TwoLines(top, bottom)));
    Perform(lcd, TwoLines(top, bottom))
  }

  lemma {:induction false} ShownThree(a: LcdCall, b: LcdCall, c: LcdCall)
    requires a.Text? ==> IsText(a.s)
    requires b.Text? ==> IsText(b.s)
    requires c.Text? ==> IsText(c.s)
    ensures ShownAll([a, b, c]) == Shown(a) + Shown(b) + Shown(c)
  {
    assert [b, c][1..] == [c];
    assert [c][1..] == [];
    assert ShownAll([c]) == Shown(c) + [];
    assert ShownAll([b, c]) == Shown(b) + ShownAll([c]);
    assert [a, b, c][1..] == [b, c];
    assert ShownAll([a, b, c]) == Shown(a) + ShownAll([b, c]);
    Regroup(Shown(a), Shown(b), Shown(c));
  }

  /** Three pieces joined right to left are the same pieces joined left to right. */
  lemma Regroup(x: seq<bv8>, y: seq<bv8>, z: seq<bv8>)
    ensures x + (y + (z + [])) == x + y + z
  {
  }

  // ---------------------------------------------------------------------
  // Device

  /** Everything the loop carries from one cycle to the next. */
  datatype Device = Device(sensor: Dht11.Sensor, lcd: LcdI2c.Lcd, led: RgbLed.Led)

  /** What holds of the device between cycles. */
  predicate Running(dev: Device) {
    && Dht11.Cached(dev.sensor)
    && RgbLed.Valid(dev.led)
    && 2 <= dev.lcd.rows <= 4 && 1 <= dev.lcd.cols
    && LcdI2c.BacklightState(dev.lcd.backlight)
  }

  /** The two lines of a good reading. */
  function ReadingLines(temperature: int, humidity: int): (r: (seq<LcdCall>, seq<LcdCall>)) {
    ([Text("Temp: "), Number(temperature), Text(UnitText(UseFahrenheit))],
     [Text("Humidity: "), Number(humidity), Text("%")])
  }

  const ErrorTop: seq<LcdCall> := [Text("Sensor Error!")]
  const ErrorBottom: seq<LcdCall> := [Text("Check DHT11")]

  /** What a pass of the loop does apart from the display: the read's
      error, the device after the pass, and the time from this pass's read
      to the next one's, counting the pauses only: the read's retry pauses,
      the display clear's pause and the cycle pause. */
  datatype Pass = Pass(err: EspErr, dev: Device, waitedMs: nat)

  /** A pass of the main loop without its display output: read the sensor
      (up to three attempts, their bus behaviour given), raise the error
      indicator once more when the read failed, on top of the raise inside
      the read, then pause. */
  function Measure(dev: Device, buses: seq<Dht11.BusTrace>): (r: Pass)
    requires Running(dev) && |buses| == Dht11.MaxAttempts
    ensures Running(r.dev) && r.dev.lcd == dev.lcd
    ensures r.err == Dht11.Read(dev.sensor, dev.led, buses).err
    ensures r.err == EspOk ==>
              && r.dev.led.blinkTasks == dev.led.blinkTasks
              && RgbLed.Ready(r.dev.led)
              && RgbLed.ColorOf(r.dev.led) == RgbLed.StatusColor(RgbLed.Dht11Read)
    ensures r.err != EspOk ==>
              && r.dev.sensor == dev.sensor
              && r.dev.led.blinkTasks == dev.led.blinkTasks + 2
    ensures r.dev.sensor == Dht11.Read(dev.sensor, dev.led, buses).sensor
    ensures r.err == EspOk ==> r.dev.led == Dht11.Read(dev.sensor, dev.led, buses).led
    ensures r.err != EspOk ==> r.dev.led == RgbLed.Error(Dht11.Read(dev.sensor, dev.led, buses).led)
    ensures r.waitedMs == Dht11.Read(dev.sensor, dev.led, buses).waitedMs + LcdI2c.ClearPauseMs + CycleDelayMs
    ensures r.waitedMs >= Dht11.MinReadIntervalMs
  {
    var rd := Dht11.Read(dev.sensor, dev.led, buses);
    var led := if rd.err == EspOk then rd.led else RgbLed.Error(rd.led);
    Pass(rd.err, Device(rd.sensor, dev.lcd, led), rd.waitedMs + LcdI2c.ClearPauseMs + CycleDelayMs)
  }

  /** One pass of the main loop: `Measure`, and on the display either the
      reading in Fahrenheit or the error screen. Without an installed I2C
      driver no byte reaches the display. */
  function Iterate(dev: Device, buses: seq<Dht11.BusTrace>): (r: (Pass, seq<bv8>))
    requires Running(dev) && |buses| == Dht11.MaxAttempts
    ensures r.0 == Measure(dev, buses)
    ensures dev.lcd.i2cReady && r.0.err == EspOk ==> H.Received(r.1) == ReadingPicture(r.0.dev.sensor)
    ensures dev.lcd.i2cReady && r.0.err != EspOk ==> H.Received(r.1) == ErrorPicture
    ensures !dev.lcd.i2cReady ==> r.1 == []
  {
    var p := Measure(dev, buses);
    (p, CycleScreen(dev.lcd, p.err == EspOk, p.dev.sensor))
  }

  /** What a cycle writes to the display, as far as it reaches it: the
      reading after a good read, the error screen otherwise. */
  function CycleScreen(lcd: LcdI2c.Lcd, good: bool, s: Dht11.Sensor): (t: seq<bv8>)
    requires 2 <= lcd.rows <= 4 && 1 <= lcd.cols && LcdI2c.BacklightState(lcd.backlight)
    requires good ==> Dht11.Cached(s)
    ensures lcd.i2cReady && good ==> H.Received(t) == ReadingPicture(s)
    ensures lcd.i2cReady && !good ==> H.Received(t) == ErrorPicture
    ensures !lcd.i2cReady ==> t == []
  {
    LcdI2c.Reaching(lcd, if good then ReadingScreen(lcd, s) else ErrorScreen(lcd))
  }

  /** What a good reading puts on the display: "Temp: ", the Fahrenheit
      value in decimal and "F" on the first line; "Humidity: ", the
      humidity in decimal and "%" on the second. */
  function ReadingPicture(s: Dht11.Sensor): (r: seq<H.Transfer>) {
    Screen(ReadingTop(s), ReadingBottom(s))
  }

  function ReadingTop(s: Dht11.Sensor): (r: seq<bv8>) {
    LcdI2c.Ascii("Temp: ") + LcdI2c.IntText(32 + 9 * s.temperature / 5) + LcdI2c.Ascii("F")
  }

  function ReadingBottom(s: Dht11.Sensor): (r: seq<bv8>) {
    LcdI2c.Ascii("Humidity: ") + LcdI2c.IntText(s.humidity) + LcdI2c.Ascii("%")
  }

  /** What a failed read puts on the display. */
  const ErrorPicture: seq<H.Transfer> := Screen(LcdI2c.Ascii("Sensor Error!"), LcdI2c.Ascii("Check DHT11"))

  /** The screen for a good reading, temperature in Fahrenheit. */
  function ReadingScreen(lcd: LcdI2c.Lcd, s: Dht11.Sensor): (t: seq<bv8>)
    requires 2 <= lcd.rows <= 4 && 1 <= lcd.cols && LcdI2c.BacklightState(lcd.backlight)
    requires Dht11.Cached(s)
    ensures H.Received(t) == ReadingPicture(s)
  {
    var lines := ReadingLines(Dht11.GetTemperature(s, UseFahrenheit), Dht11.GetHumidity(s));
    ReadingLinesShown(s);
    Show(lcd, lines.0, lines.1)
  }

  /** The lines of a good reading spell out the reading picture. */
  lemma ReadingLinesShown(s: Dht11.Sensor)
    requires Dht11.Cached(s)
    ensures var lines := ReadingLines(Dht11.GetTemperature(s, UseFahrenheit), Dht11.GetHumidity(s));
      && Printing(lines.0) && Printing(lines.1)
      && ShownAll(lines.0) == ReadingTop(s)
      && ShownAll(lines.1) == ReadingBottom(s)
  {
    var t := Dht11.GetTemperature(s, UseFahrenheit);
    assert t == 32 + 9 * s.temperature / 5 && IsInt32(t);
    ReadingShown(t, s.humidity);
  }

  /** The screen for a failed read. */
  function ErrorScreen(lcd: LcdI2c.Lcd): (t: seq<bv8>)
    requires 2 <= lcd.rows <= 4 && 1 <= lcd.cols && LcdI2c.BacklightState(lcd.backlight)
    ensures H.Received(t) == ErrorPicture
  {
    ErrorShown();
    Show(lcd, ErrorTop, ErrorBottom)
  }

  /** The reading lines show "Temp: ", the decimal temperature and the
      unit, and "Humidity: ", the decimal humidity and a percent sign. */
  lemma ReadingShown(t: int, h: int)
    requires IsInt32(t) && IsInt32(h)
    ensures Printing(ReadingLines(t, h).0) && Printing(ReadingLines(t, h).1)
    ensures ShownAll(ReadingLines(t, h).0) == LcdI2c.Ascii("Temp: ") + LcdI2c.IntText(t) + LcdI2c.Ascii("F")
    ensures ShownAll(ReadingLines(t, h).1) == LcdI2c.Ascii("Humidity: ") + LcdI2c.IntText(h) + LcdI2c.Ascii("%")
  {
    Literals();
    ShownThree(Text("Temp: "), Number(t), Text("F"));
    ShownThree(Text("Humidity: "), Number(h), Text("%"));
  }

  /** The fixed texts main.c prints are C strings without NULs. */
  lemma Literals()
    ensures IsText("Temp: ") && IsText("F") && IsText("Humidity: ") && IsText("%")
    ensures IsText("Sensor Error!") && IsText("Check DHT11")
    ensures IsText("Weather Station") && IsText("Initializing...") && IsText("Ready!")
  {
  }

  lemma ErrorShown()
    ensures Printing(ErrorTop) && Printing(ErrorBottom)
    ensures ShownAll(ErrorTop) == LcdI2c.Ascii("Sensor Error!")
    ensures ShownAll(ErrorBottom) == LcdI2c.Ascii("Check DHT11")
  {
    assert ErrorTop[1..] == [];
    assert ErrorBottom[1..] == [];
  }

  /** Both reading lines fit a 16-column row: the temperature is at most
      491 F and the humidity at most 255, three digits each. */
  lemma ReadingFits(s: Dht11.Sensor)
    requires Dht11.Cached(s)
    ensures |"Temp: " + Decimal.Format(32 + 9 * s.temperature / 5) + "F"| <= LcdCols as int
    ensures |"Humidity: " + Decimal.Format(s.humidity) + "%"| <= LcdCols as int
  {
    assert Decimal.Pow10(3) == 1000;
    assert Dht11.GetTemperature(s, true) == 32 + 9 * s.temperature / 5 <= 491;
    Decimal.DigitsLength(32 + 9 * s.temperature / 5, 3);
    Decimal.DigitsLength(s.humidity, 3);
  }

  /** What the controller shows after a good reading's screen, from any
      state: the two lines of text from the start of rows 0 and 1, and
      both fit the 16 columns. */
  lemma ReadingDisplayed(c: H.Controller, s: Dht11.Sensor)
    requires Dht11.Cached(s)
    ensures var top := "Temp: " + Decimal.Format(32 + 9 * s.temperature / 5) + "F";
      var bottom := "Humidity: " + Decimal.Format(s.humidity) + "%";
      var d := H.Run(c, ReadingPicture(s));
      && |top| <= LcdCols as int && |bottom| <= LcdCols as int
      && (forall a :: 0 <= a < |top| ==> H.Cell(d, a) as int == top[a] as int)
      && (forall a :: 0 <= a < |bottom| ==> H.Cell(d, 0x40 + a) as int == bottom[a] as int)
  {
    var t := 32 + 9 * s.temperature / 5;
    var top := "Temp: " + Decimal.Format(t) + "F";
    var bottom := "Humidity: " + Decimal.Format(s.humidity) + "%";
    ReadingFits(s);
    ReadingText(s);
    TextShown(c, top, bottom);
  }

  /** The reading lines are the bytes of their text. */
  lemma ReadingText(s: Dht11.Sensor)
    ensures var t := 32 + 9 * s.temperature / 5;
      && IsText("Temp: " + Decimal.Format(t) + "F")
      && IsText("Humidity: " + Decimal.Format(s.humidity) + "%")
      && ReadingTop(s) == LcdI2c.Ascii("Temp: " + Decimal.Format(t) + "F")
      && ReadingBottom(s) == LcdI2c.Ascii("Humidity: " + Decimal.Format(s.humidity) + "%")
  {
    var t := 32 + 9 * s.temperature / 5;
    Literals();
    Decimal.FormatChars(t);
    Decimal.FormatChars(s.humidity);
    AsciiAppend("Temp: ", Decimal.Format(t));
    AsciiAppend("Temp: " + Decimal.Format(t), "F");
    AsciiAppend("Humidity: ", Decimal.Format(s.humidity));
    AsciiAppend("Humidity: " + Decimal.Format(s.humidity), "%");
  }

  /** A screen of two texts shows their characters from the start of rows
      0 and 1. */
  lemma TextShown(c: H.Controller, top: string, bottom: string)
    requires IsText(top) && IsText(bottom) && |top| <= 0x40
    ensures var d := H.Run(c, Screen(LcdI2c.Ascii(top), LcdI2c.Ascii(bottom)));
      && (forall a :: 0 <= a < |top| ==> H.Cell(d, a) as int == top[a] as int)
      && (forall a :: 0 <= a < |bottom| ==> H.Cell(d, 0x40 + a) as int == bottom[a] as int)
  {
    ScreenShows(c, LcdI2c.Ascii(top), LcdI2c.Ascii(bottom));
  }

  lemma ErrorDisplayed(c: H.Controller)
    ensures var d := H.Run(c, ErrorPicture);
      && (forall a :: 0 <= a < |"Sensor Error!"| ==> H.Cell(d, a) as int == "Sensor Error!"[a] as int)
      && (forall a :: 0 <= a < |"Check DHT11"| ==> H.Cell(d, 0x40 + a) as int == "Check DHT11"[a] as int)
  {
    Literals();
    TextShown(c, "Sensor Error!", "Check DHT11");
  }

  // ---------------------------------------------------------------------
  // Start-up and many cycles

  /** Either start-up aborted on NVS, or the device is set up: `init` is
      the LCD initialisation and `splash` its "Initializing..." screen,
      `ready` the "Ready!" screen, each as far as it reaches the display
      (nothing when the LCD failed to initialise); `settleMs` is the time
      between the sensor's initialisation and the first read, counting the
      pauses only: the two start-up pauses and the ready screen's clear. */
  datatype Start =
    | Halted(err: EspErr)
    | Started(dev: Device, lcdOk: bool, init: seq<bv8>, splash: seq<bv8>, ready: seq<bv8>, settleMs: nat)

  const Banner: seq<LcdCall> := [Text("Weather Station")]
  const Initializing: seq<LcdCall> := [Text("Initializing...")]
  const ReadyLine: seq<LcdCall> := [Text("Ready!")]

  /** app_main up to the loop. The platform results (three for NVS, two
      for the I2C master) are parameters, and so are the status-light calls
      the network component makes after it is started. */
  function Startup(nvsFirst: EspErr, nvsErase: EspErr, nvsSecond: EspErr,
                   network: seq<RgbLed.Call>, i2cParam: EspErr, i2cInstall: EspErr): (r: Start)
    ensures r.Halted? <==> NvsStartup(nvsFirst, nvsErase, nvsSecond).Halt?
    ensures r.Halted? ==> r.err != EspOk
    ensures r.Started? ==> r == StartDevices(network, i2cParam, i2cInstall)
  {
    match NvsStartup(nvsFirst, nvsErase, nvsSecond)
    case Halt(e) => Halted(e)
    case Continue(_) => StartDevices(network, i2cParam, i2cInstall)
  }

  /** app_main after NVS: the network component has made its status-light
      calls, the display, the sensor and the status light are brought up,
      and the start-up screens are written to the display. */
  function StartDevices(network: seq<RgbLed.Call>, i2cParam: EspErr, i2cInstall: EspErr): (r: Start)
    ensures r.Started?
    ensures Running(r.dev)
    ensures r.dev.sensor == Dht11.Sensor(SensorGpio, 0, 0)
    ensures RgbLed.Ready(r.dev.led) && r.dev.led.pwmInits == 1
    ensures RgbLed.ColorOf(r.dev.led) == RgbLed.StatusColor(RgbLed.Dht11Started)
    ensures r.dev.led.blinkTasks == RgbLed.Raises(network)
    ensures r.settleMs == 2 * StartupDelayMs + LcdI2c.ClearPauseMs
    ensures r.settleMs >= Dht11.MinReadIntervalMs
    ensures var d := StartDisplay(i2cParam, i2cInstall);
      r.dev.lcd == d.lcd && r.lcdOk == d.lcdOk && r.init == d.init && r.splash == d.splash && r.ready == d.ready
  {
    var display := StartDisplay(i2cParam, i2cInstall);
    var (sensor, led) := StartSensor(network);
    Started(Device(sensor, display.lcd, led), display.lcdOk, display.init, display.splash, display.ready,
            StartupDelayMs + LcdI2c.ClearPauseMs + StartupDelayMs)
  }

  /** The status light after the network component's calls, then the
      sensor's initialisation on its pin. */
  function StartSensor(network: seq<RgbLed.Call>): (r: (Dht11.Sensor, RgbLed.Led))
    ensures r.0 == Dht11.Sensor(SensorGpio, 0, 0) && Dht11.Cached(r.0)
    ensures RgbLed.Valid(r.1) && RgbLed.Ready(r.1) && r.1.pwmInits == 1
    ensures RgbLed.ColorOf(r.1) == RgbLed.StatusColor(RgbLed.Dht11Started)
    ensures r.1.blinkTasks == RgbLed.Raises(network)
  {
    Dht11.Init(SensorGpio, RgbLed.Replay(RgbLed.Initial, network))
  }

  /** The display's part of start-up: its state and the bytes that reach it. */
  datatype DisplayStart = DisplayStart(lcdOk: bool, lcd: LcdI2c.Lcd, init: seq<bv8>, splash: seq<bv8>, ready: seq<bv8>)

  /** The display's start-up: initialise it and, only if that worked, show
      the splash; then the ready screen, which reaches the display only if
      the I2C driver is installed. */
  function StartDisplay(i2cParam: EspErr, i2cInstall: EspErr): (r: DisplayStart)
    ensures 2 <= r.lcd.rows <= 4 && 1 <= r.lcd.cols && LcdI2c.BacklightState(r.lcd.backlight)
    ensures r.lcd.addr == LcdAddress && r.lcd.cols == LcdCols && r.lcd.rows == LcdRows
    ensures r.lcdOk <==> r.lcd.i2cReady
    ensures r.lcdOk <==> i2cParam == EspOk && i2cInstall == EspOk
    ensures !r.lcdOk ==> r.init == [] && r.splash == [] && r.ready == []
    ensures r.lcdOk ==> r.init == LcdI2c.Init(LcdI2c.PowerOn, LcdAddress, LcdCols, LcdRows, i2cParam, i2cInstall).1.bytes
    ensures r.lcdOk ==> H.Received(r.splash) == StartingPicture
    ensures r.lcdOk ==> H.Received(r.ready) == ReadyPicture
  {
    var (err, out) := LcdI2c.Init(LcdI2c.PowerOn, LcdAddress, LcdCols, LcdRows, i2cParam, i2cInstall);
    var lcd := out.lcd;
    if err == EspOk then DisplayStart(true, lcd, out.bytes, StartingScreen(lcd), LcdI2c.Reaching(lcd, ReadyScreen(lcd)))
    else DisplayStart(false, lcd, [], [], LcdI2c.Reaching(lcd, ReadyScreen(lcd)))
  }

  const StartingPicture: seq<H.Transfer> := Screen(LcdI2c.Ascii("Weather Station"), LcdI2c.Ascii("Initializing..."))
  const ReadyPicture: seq<H.Transfer> := Screen(LcdI2c.Ascii("Weather Station"), LcdI2c.Ascii("Ready!"))

  function StartingScreen(lcd: LcdI2c.Lcd): (t: seq<bv8>)
    requires 2 <= lcd.rows <= 4 && 1 <= lcd.cols && LcdI2c.BacklightState(lcd.backlight)
    ensures H.Received(t) == StartingPicture
  {
    StartScreens();
    Show(lcd, Banner, Initializing)
  }

  function ReadyScreen(lcd: LcdI2c.Lcd): (t: seq<bv8>)
    requires 2 <= lcd.rows <= 4 && 1 <= lcd.cols && LcdI2c.BacklightState(lcd.backlight)
    ensures H.Received(t) == ReadyPicture
  {
    StartScreens();
    Show(lcd, Banner, ReadyLine)
  }

  lemma StartScreens()
    ensures Printing(Banner) && Printing(Initializing) && Printing(ReadyLine)
    ensures ShownAll(Banner) == LcdI2c.Ascii("Weather Station")
    ensures ShownAll(Initializing) == LcdI2c.Ascii("Initializing...")
    ensures ShownAll(ReadyLine) == LcdI2c.Ascii("Ready!")
  {
    assert Banner[1..] == [] && Initializing[1..] == [] && ReadyLine[1..] == [];
  }

  /** The bus behaviour of one pass: one trace for each attempt dht11_read may make. */
  type Round = b: seq<Dht11.BusTrace> | |b| == Dht11.MaxAttempts
    witness [Dht11.BusTrace(false, false, false, []), Dht11.BusTrace(false, false, false, []), Dht11.BusTrace(false, false, false, [])]

  /** A run of the loop: the device after it and every pass's result. */
  datatype Run = Run(dev: Device, passes: seq<Pass>)

  /** How many passes of a run had a failed read. */
  function Failures(passes: seq<Pass>): (n: nat)
    decreases |passes|
  {
    if |passes| == 0 then 0
    else Failures(passes[..|passes| - 1]) + (if passes[|passes| - 1].err == EspOk then 0 else 1)
  }

  /** Passes in a row, each with its own bus behaviour. The loop can
      always go on, every failed read adds exactly two blink tasks, and
      reads start at least the sensor's minimum interval apart. */
  function Loop(dev: Device, rounds: seq<Round>): (r: Run)
    requires Running(dev)
    ensures |r.passes| == |rounds|
    ensures Running(r.dev) && r.dev.lcd == dev.lcd
    ensures r.dev.led.blinkTasks == dev.led.blinkTasks + 2 * Failures(r.passes)
    ensures forall k :: 0 <= k < |rounds| ==> r.passes[k].waitedMs >= Dht11.MinReadIntervalMs
    decreases |rounds|
  {
    if |rounds| == 0 then Run(dev, [])
    else
      var n := |rounds| - 1;
      var rest := Loop(dev, rounds[..n]);
      var p := Measure(rest.dev, rounds[n]);
      var passes := rest.passes + [p];
      assert passes[..n] == rest.passes;
      Run(p.dev, passes)
  }

  /** Pass k of a run is `Measure`, with round k's bus behaviour, on the
      device the first k rounds left; its error is that pass's dht11_read
      result, which is what `Failures` counts. */
  lemma LoopPass(dev: Device, rounds: seq<Round>, k: nat)
    requires Running(dev)
    requires k < |rounds|
    ensures Loop(dev, rounds).passes[k] == Measure(Loop(dev, rounds[..k]).dev, rounds[k])
  {
    var upTo := rounds[..k + 1];
    LoopPrefix(dev, rounds, k + 1);
    LoopLast(dev, upTo);
    assert upTo[..k] == rounds[..k] && upTo[k] == rounds[k];
  }

  /** The first n passes of a run are the run of the first n rounds. */
  lemma {:induction false} LoopPrefix(dev: Device, rounds: seq<Round>, n: nat)
    requires Running(dev)
    requires n <= |rounds|
    ensures Loop(dev, rounds).passes[..n] == Loop(dev, rounds[..n]).passes
    decreases |rounds|
  {
    if n < |rounds| {
      var init := rounds[..|rounds| - 1];
      LoopInitPrefix(dev, rounds, n);
      LoopPrefix(dev, init, n);
      assert init[..n] == rounds[..n];
    } else {
      assert rounds[..n] == rounds;
    }
  }

  /** Cutting a run to n passes can first drop its last pass. */
  lemma LoopInitPrefix(dev: Device, rounds: seq<Round>, n: nat)
    requires Running(dev)
    requires n < |rounds|
    ensures Loop(dev, rounds).passes[..n] == Loop(dev, rounds[..|rounds| - 1]).passes[..n]
  {
    LoopLast(dev, rounds);
    var rest := Loop(dev, rounds[..|rounds| - 1]);
    PrefixOfAppend(rest.passes, [Measure(rest.dev, rounds[|rounds| - 1])], n);
  }

  lemma PrefixOfAppend(a: seq<Pass>, b: seq<Pass>, n: nat)
    requires n <= |a|
    ensures (a + b)[..n] == a[..n]
  {
  }

  /** A run's passes are those of all rounds but the last, then the last. */
  lemma LoopLast(dev: Device, rounds: seq<Round>)
    requires Running(dev)
    requires |rounds| > 0
    ensures var rest := Loop(dev, rounds[..|rounds| - 1]);
      Loop(dev, rounds).passes == rest.passes + [Measure(rest.dev, rounds[|rounds| - 1])]
  {
  }
}
