/** The tri-colour status indicator. The LEDC peripheral is reduced to what
    it shows: the duty of each configured channel. Task creation is reduced
    to a count of spawned blink tasks, and one on/off cycle of a blink task
    is modelled as two functions. */
module RgbLed {
  import opened Base

  const RedGpio := 21
  const GreenGpio := 22
  const BlueGpio := 23
  const ChannelCount := 3

  /** Timer 0 runs with 8-bit duty resolution, so a duty is a `Byte`. */
  const BlinkOnDuty: Byte := 255
  const BlinkOffDuty: Byte := 0

  datatype SpeedMode = HighSpeedMode | LowSpeedMode

  /** One row of the channel table: the LEDC channel, the GPIO it drives,
      its speed mode and its timer. */
  datatype ChannelInfo = ChannelInfo(channel: nat, gpio: nat, mode: SpeedMode, timer: nat)

  datatype Color = Color(red: Byte, green: Byte, blue: Byte)

  /** The indicator's state.
      - configured: the lazily set "PWM initialised" flag
      - table: the channel table, empty until the PWM set-up fills it
      - duty: the current duty of every configured LEDC channel, by channel number
      - pwmInits: how often the PWM peripheral has been set up
      - blinkTasks: how many blink tasks have been spawned */
  datatype Led = Led(configured: bool, table: seq<ChannelInfo>, duty: map<nat, Byte>, pwmInits: nat, blinkTasks: nat)

  const Initial: Led := Led(false, [], map[], 0, 0)

  /** Red, green and blue on LEDC channels 0, 1, 2, all high speed on timer 0. */
  const Table: seq<ChannelInfo> := [
    ChannelInfo(0, RedGpio, HighSpeedMode, 0),
    ChannelInfo(1, GreenGpio, HighSpeedMode, 0),
    ChannelInfo(2, BlueGpio, HighSpeedMode, 0)]

  /** The peripheral is set up and every table row's channel has a duty. */
  predicate Ready(led: Led) {
    && led.configured
    && led.table == Table
    && 0 in led.duty && 1 in led.duty && 2 in led.duty
  }

  /** The states a sequence of calls from power-up can reach: the flag is set
      exactly when the peripheral has been set up, and then only once. */
  predicate Valid(led: Led) {
    && led.pwmInits == (if led.configured then 1 else 0)
    && (led.configured ==> Ready(led))
  }

  /** The colour the LED shows, read from the three channels. */
  function ColorOf(led: Led): (r: Color)
    requires Ready(led)
  {
    Color(led.duty[0], led.duty[1], led.duty[2])
  }

  /** Fills the channel table, configures timer 0 and every channel with
      duty 0, and raises the flag. */
  function PwmInit(led: Led): (r: Led)
    ensures Ready(r)
    ensures forall i :: 0 <= i < ChannelCount ==>
              && r.table[i].channel == i
              && r.table[i].gpio == RedGpio + i
              && r.table[i].mode == HighSpeedMode
              && r.table[i].timer == 0
    ensures ColorOf(r) == Color(0, 0, 0)
    ensures r.pwmInits == led.pwmInits + 1 && r.blinkTasks == led.blinkTasks
  {
    var duty := led.duty[Table[0].channel := 0][Table[1].channel := 0][Table[2].channel := 0];
    Led(true, Table, duty, led.pwmInits + 1, led.blinkTasks)
  }

  /** The guard every public entry point runs first: set up the peripheral
      only while the flag is still clear. */
  function EnsureInit(led: Led): (r: Led)
    requires Valid(led)
    ensures Valid(r) && Ready(r)
    ensures r.pwmInits == 1 && r.blinkTasks == led.blinkTasks
    ensures led.configured ==> r == led
  {
    if led.configured then led else PwmInit(led)
  }

  /** Writes duty `v` to the LEDC channel that table row `i` names. */
  function SetDuty(led: Led, i: nat, v: Byte): (r: Led)
    requires Ready(led) && i < ChannelCount
  {
    led.(duty := led.duty[led.table[i].channel := v])
  }

  /** Red to channel 0, green to channel 1, blue to channel 2; every other
      channel and every other part of the state stays as it was. */
  function SetColor(led: Led, c: Color): (r: Led)
    requires Ready(led)
    ensures Ready(r) && ColorOf(r) == c
    ensures r.duty.Keys == led.duty.Keys
    ensures forall ch :: ch in led.duty && ch >= ChannelCount ==> r.duty[ch] == led.duty[ch]
    ensures r.(duty := led.duty) == led
  {
    SetDuty(SetDuty(SetDuty(led, 0, c.red), 1, c.green), 2, c.blue)
  }

  /** The status events that show a steady colour. */
  datatype Status = WifiAppStarted | HttpServerStarted | WifiConnected | Dht11Started | Dht11Read

  function StatusColor(s: Status): (r: Color) {
    match s
    case WifiAppStarted => Color(255, 102, 255)
    case HttpServerStarted => Color(204, 102, 51)
    case WifiConnected => Color(0, 255, 153)
    case Dht11Started => Color(32, 66, 63)
    case Dht11Read => Color(147, 251, 255)
  }

  /** One of the five colour-status functions: make sure the peripheral is
      set up, then show the status's colour. */
  function Signal(led: Led, s: Status): (r: Led)
    requires Valid(led)
    ensures Valid(r) && Ready(r)
    ensures ColorOf(r) == StatusColor(s)
    ensures r.pwmInits == led.pwmInits + (if led.configured then 0 else 1)
    ensures r.blinkTasks == led.blinkTasks
  {
    SetColor(EnsureInit(led), StatusColor(s))
  }

  /** rgb_led_error: make sure the peripheral is set up and spawn one more
      blink task. It sets no colour itself and does not look at how many
      blink tasks already run. */
  function Error(led: Led): (r: Led)
    requires Valid(led)
    ensures Valid(r) && Ready(r)
    ensures r.blinkTasks == led.blinkTasks + 1
    ensures led.configured ==> r.duty == led.duty
    ensures !led.configured ==> ColorOf(r) == Color(0, 0, 0)
  {
    var l := EnsureInit(led);
    l.(blinkTasks := l.blinkTasks + 1)
  }

  /** The "on" half of a blink task's cycle: full red, green and blue off.
      Only channel duties change. */
  function BlinkOn(led: Led): (r: Led)
    requires Ready(led)
    ensures Ready(r) && ColorOf(r) == Color(BlinkOnDuty, 0, 0)
    ensures r.duty.Keys == led.duty.Keys
    ensures r.(duty := led.duty) == led
  {
    SetDuty(SetDuty(SetDuty(led, 0, BlinkOnDuty), 1, 0), 2, 0)
  }

  /** The "off" half: only red is switched off, green and blue keep their
      duty, and nothing but the duties changes. */
  function BlinkOff(led: Led): (r: Led)
    requires Ready(led)
    ensures Ready(r)
    ensures ColorOf(r) == ColorOf(led).(red := BlinkOffDuty)
    ensures r.duty.Keys == led.duty.Keys
    ensures r.(duty := led.duty) == led
  {
    SetDuty(led, 0, BlinkOffDuty)
  }

  /** A call from another component into the indicator. */
  datatype Call = Show(status: Status) | Raise

  function Raises(calls: seq<Call>): (r: nat) {
    if |calls| == 0 then 0
    else Raises(calls[..|calls| - 1]) + (if calls[|calls| - 1] == Raise then 1 else 0)
  }

  /** Runs the calls in order. */
  function Replay(led: Led, calls: seq<Call>): (r: Led)
    requires Valid(led)
    ensures Valid(r)
    ensures r.blinkTasks == led.blinkTasks + Raises(calls)
    ensures |calls| > 0 ==> r.configured
    decreases |calls|
  {
    if |calls| == 0 then led
    else
      var l := Replay(led, calls[..|calls| - 1]);
      match calls[|calls| - 1]
      case Show(s) => Signal(l, s)
      case Raise => Error(l)
  }

  /** From power-up, any sequence of calls sets the peripheral up at most
      once, and exactly once if there was a call at all. */
  lemma InitAtMostOnce(calls: seq<Call>)
    ensures Replay(Initial, calls).pwmInits == (if |calls| == 0 then 0 else 1)
  {
  }

  /** A full blink cycle leaves the LED dark whatever it showed before. */
  lemma BlinkCycleEndsDark(led: Led)
    requires Ready(led)
    ensures ColorOf(BlinkOff(BlinkOn(led))) == Color(0, 0, 0)
  {
  }
}
