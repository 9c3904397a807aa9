# Weather home station firmware: a Dafny model of its core

This project models the device-side core of an ESP32 weather station in Dafny:

- the DHT11 single-wire sensor driver:
  - the handshake;
  - forty pulse widths packed into five bytes;
  - the additive checksum;
  - the commit of the integer bytes;
  - the three-attempt retry;
  - the cached getters, including the Fahrenheit conversion.
- the character-LCD driver. It sends HD44780 instructions and data as 4-bit nibbles through a PCF8574 I2C expander. The model covers:
  - nibble serialisation with the backlight, RS and E bits;
  - the initialisation sequence;
  - cursor addressing with clamping;
  - printing strings and `%d` integers;
  - the fixed command functions and their legacy aliases;
  - the backlight state.
- the RGB status LED:
  - the lazily initialised PWM channel table;
  - the five status colours;
  - the error indicator that spawns a blink task;
  - one on/off cycle of that blink task.
- the application:
  - the NVS recovery rule at start-up;
  - the start-up screens;
  - one pass of the endless measure-and-display loop, and any number of them in a row, with the time between reads.

Every driver's globals become an immutable record. Each operation is a pure function that returns the new record and, for the display, the bytes written to the expander in order. Each byte is its own I2C transaction, which fails while no I2C driver is installed. The application therefore counts a screen's bytes only when the driver is installed (`LcdI2c.Reaching`). What the hardware or the platform answers becomes a parameter:

- the line behaviour of the sensor bus, as a `BusTrace` per attempt;
- the results of the I2C and NVS platform calls.

The display side is checked against an independent reference, module `Hd44780`. It models an HD44780 in 4-bit mode behind the expander:

- it latches RS and D4..D7 on every falling edge of E;
- it pairs the latched nibbles into instructions and data;
- it applies them to display RAM.

The main lemmas state that the controller receives exactly the transfers the driver means to send. The application lemmas state what the display shows after each screen.

Modules:

| module | file | models |
|---|---|---|
| `Base` | base.dfy | `esp_err_t` values, `Option`, bytes, the 32-bit int range |
| `Decimal` | decimal.dfy | the `%d` rendering and reading it back |
| `RgbLed` | rgb_led.dfy | src/rgb_led.c |
| `Dht11` | dht11.dfy | src/DHT11.c |
| `Hd44780` | hd44780.dfy | the controller the display driver talks to (reference model) |
| `LcdI2c` | lcd_i2c.dfy | src/LiquidCrystal_I2C.c |
| `App` | app.dfy | src/main.c |

`main.c` calls `liquid_crystal_i2c_init`, `lcd_set_cursor` and `lcd_print_int`, the names the driver's header declares. The bodies are defined as `LiquidCrystal_I2C_Init`, `lcd_setCursor` and `lcd_printInt`. Each is modelled once: `LcdI2c.Init`, `LcdI2c.SetCursor` and `LcdI2c.PrintInt`.

Where the driver's documentation and its code disagree, the model follows the code:

- `dht11_read` is documented to return `ESP_FAIL` on failure. After three failed attempts it actually returns the last attempt's error: `ESP_ERR_TIMEOUT` or `ESP_ERR_INVALID_CRC`. `ESP_FAIL` is only its initial value, and the loop always overwrites it.
- A pulse is a 1 bit only when strictly longer than 40 microseconds. A 40-microsecond pulse is a 0.
- The Fahrenheit value is the float result converted to `int`, which truncates it.
- A failed cycle raises the error indicator twice: once inside `dht11_read` and once more in the main loop. Each raise spawns another blink task.
- `dht11_read` pauses 100 ms after every failed attempt, including the third. Its retries are therefore far closer together than the 2 s minimum interval the main loop's comment asks for. The 2 s spacing holds only between passes of the main loop, which pause 60 s each.
- `src/DHT11.h` declares `dht11_get_temperature` with one argument. `DHT11.c` defines it with a second `fahrenheit` flag, and `main.c` calls it with two arguments. The model follows the definition. The header is not part of this model.

## Model

| member | source | states |
|---|---|---|
| `RgbLed.PwmInit` | src/rgb_led.c:82-129 | the channel table maps rows 0, 1, 2 to LEDC channels 0, 1, 2 on GPIO 21, 22, 23, high speed, timer 0; every channel starts at duty 0; the PWM set-up count goes up by one and the blink tasks are untouched |
| `RgbLed.EnsureInit` | src/rgb_led.c:151-154 | the guard sets the peripheral up only while the flag is clear; an already configured LED is returned unchanged, and afterwards it has been set up exactly once |
| `RgbLed.SetColor` | src/rgb_led.c:135-146 | the LED shows exactly the requested (red, green, blue); no other channel's duty and no other part of the state changes |
| `RgbLed.Signal` | src/rgb_led.c:149-209 | each of the five status functions shows its status's colour, sets the peripheral up only if it was not yet set up, and spawns no task |
| `RgbLed.Error` | src/rgb_led.c:191-199 | `rgb_led_error` sets no colour: it keeps all duties when already configured (dark after a first set-up) and spawns exactly one more blink task |
| `RgbLed.BlinkOn` | src/rgb_led.c:40-61 | the on phase shows full red with green and blue off; only channel duties change, so the set-up count and the blink tasks stay as they were |
| `RgbLed.BlinkOff` | src/rgb_led.c:66-72 | the off phase clears red only; green and blue keep their duty, and nothing but the duties changes |
| `RgbLed.BlinkCycleEndsDark` | src/rgb_led.c:36-76 | one on/off cycle leaves the LED dark whatever it showed before |
| `RgbLed.Replay` | src/rgb_led.c:149-209 | any sequence of status and error calls keeps the flag consistent with the set-up count, and spawns one blink task per error call |
| `RgbLed.InitAtMostOnce` | src/rgb_led.c:149-209 | from power-up, any call sequence sets the peripheral up at most once, and exactly once if there was a call |
| `Dht11.Init` | src/DHT11.c:33-47 | the sensor record holds the pin and zero readings; the LED shows the "sensor started" colour |
| `Dht11.PackToBits` | src/DHT11.c:133-137 | shifting in the 8-bit binary expansion of a byte, most significant bit first, gives the byte back |
| `Dht11.ToBitsPack` | src/DHT11.c:133-137 | conversely, any n bits shifted in give a value below 2^n whose n-bit expansion is those bits |
| `Dht11.ShiftedBits` | src/DHT11.c:133-137 | the driver's shift register after a run of pulses holds the pulses' bits packed most significant first |
| `Dht11.BitMargins` | src/DHT11.c:132-137 | a pulse is a 0 up to 40 microseconds and a 1 above; that leaves 10 microseconds of slack above a nominal 0 (30) and 29 below a nominal 1 (70), and no more |
| `Dht11.ReadBits` | src/DHT11.c:110-147 | the data loop succeeds exactly when all forty bits arrive, and then byte k holds pulses 8k..8k+7, most significant first; otherwise it reports a timeout |
| `Dht11.FrameLayout` | src/DHT11.c:110-147 | every frame byte lies in 0..255, and bit i of the stream is bit i % 8 of byte i / 8, counted from the top |
| `Dht11.ChecksumDetects` | src/DHT11.c:149-151 | two frames that differ in exactly one of the four data bytes have different checksums, so a single corrupted data byte is always rejected |
| `Dht11.IntegerBytes` | src/DHT11.c:157-159 | bytes 0 and 2 of a frame are bytes whose bits are pulses 0..7 and 16..23 |
| `Dht11.ReadOnce` | src/DHT11.c:61-162 | an attempt times out exactly when a handshake wait or a bit fails to arrive; every failure leaves the record as it was; a success stores byte-sized readings and keeps the pin |
| `Dht11.ReadOnceCommitsBits` | src/DHT11.c:157-159 | a successful attempt stores as humidity the byte of pulses 0..7 and as temperature the byte of pulses 16..23 |
| `Dht11.DecodeTransmitted` | src/DHT11.c:110-147 | decoding the pulses a sensor sends for any five bytes gives those bytes back |
| `Dht11.FrameOfBytes` | src/DHT11.c:110-147 | forty bits whose octets are the expansions of five bytes decode to those bytes |
| `Dht11.TransmittedByte` | src/DHT11.c:132-137 | the pulses a sensor sends for byte k decode to byte k's bits, most significant first |
| `Dht11.ReadTransmitted` | src/DHT11.c:149-161 | for any five bytes, the attempt succeeds exactly when byte 4 is the sum of bytes 0..3 modulo 256, storing bytes 0 and 2; otherwise it is a checksum error that leaves the record alone |
| `Dht11.ReadFrame` | src/DHT11.c:149-161 | an attempt whose frame decodes to d succeeds exactly when d's checksum holds, committing bytes 0 and 2 |
| `Dht11.RetryFrom` | src/DHT11.c:164-184 | the retry loop succeeds exactly when some remaining attempt succeeds, and stops at the first; when all fail it returns the last attempt's error with the record unchanged |
| `Dht11.RetryInOrder` | src/DHT11.c:169-178 | `Dht11.Retry`, the loop as the driver runs it (the attempts in turn, each on the record the previous one left, stopping at the first success), gives the same result as the retry rule over the outcomes every attempt would have from the starting record |
| `Dht11.Read` | src/DHT11.c:164-184 | at most three attempts; success exactly when one of them succeeds, and then no later attempt is made, the "read" colour shows and no task is spawned; total failure takes three attempts, returns the third attempt's error (never `ESP_FAIL`), keeps the readings and spawns one blink task; the retry pauses total 100 ms per failed attempt |
| `Dht11.GettersReadBack` | src/DHT11.c:186-198 | after a successful read the getters return the bytes of the successful attempt's pulses 0..7 (humidity) and 16..23 (Celsius temperature); after a failed read they return what they returned before |
| `Dht11.CelsiusToFahrenheit` | src/DHT11.c:200-204 | the conversion is undone by (f - 32) * 5 / 9, and a non-negative Celsius value gives at least 32 F |
| `Dht11.Trunc` | src/DHT11.c:190 | the float-to-int conversion truncates toward zero |
| `Dht11.GetTemperature` | src/DHT11.c:186-192 | without the flag it returns the cached Celsius value; with it, for a byte c, it returns 32 + floor(9c/5), which lies in 32..491 |
| `Dht11.FahrenheitOfByte` | src/DHT11.c:200-204 | for Celsius values 0..255, 9c/5 + 32 truncated is 32 + floor(9c/5) |
| `Dht11.FahrenheitExamples` | src/DHT11.c:186-204 | 0 C reads as 32 F, 25 C as 77 F, 100 C as 212 F |
| `Decimal.ParseFormat` | src/LiquidCrystal_I2C.c:242 | reading back the `%d` rendering of any integer gives the integer |
| `Decimal.FormatChars` | src/LiquidCrystal_I2C.c:242 | the rendering is digits, after a leading minus sign for a negative number, so every character is a non-NUL C char |
| `Decimal.FormatFitsInt32` | src/LiquidCrystal_I2C.c:241-242 | any 32-bit int renders in at most 11 characters |
| `LcdI2c.WriteNibble` | src/LiquidCrystal_I2C.c:98-103 | a nibble is written as three bytes |
| `LcdI2c.PulseEnable` | src/LiquidCrystal_I2C.c:106-112 | two bytes that make one falling edge of E, with every other line held at the given byte's level |
| `LcdI2c.NibbleShape` | src/LiquidCrystal_I2C.c:98-112 | the three bytes are the nibble with the backlight bit, then the same with E high, then with E low; only E differs between them |
| `LcdI2c.SplitJoins` | src/LiquidCrystal_I2C.c:117-118 | both halves leave the low four bits free, and they join back into the byte |
| `LcdI2c.Halves` | src/LiquidCrystal_I2C.c:131-137 | adding an RS level to either half keeps the data lines and the free bits, and the halves latch as the byte's high and low half |
| `LcdI2c.SendCommand` | src/LiquidCrystal_I2C.c:115-126 | a command takes six bytes |
| `LcdI2c.SendData` | src/LiquidCrystal_I2C.c:129-140 | a data byte takes six bytes |
| `LcdI2c.Send` | src/LiquidCrystal_I2C.c:115-140 | any transfer takes six bytes |
| `LcdI2c.Encode` | src/LiquidCrystal_I2C.c:115-140 | a run of transfers takes six bytes each |
| `LcdI2c.EncodeAppend` | src/LiquidCrystal_I2C.c:115-140 | encoding two runs is encoding each in turn |
| `LcdI2c.LatchNibble` | src/LiquidCrystal_I2C.c:98-112 | one written nibble is exactly one controller latch, with the nibble's RS level and data lines |
| `LcdI2c.NibbleBytes` | src/LiquidCrystal_I2C.c:98-112 | all three bytes of a nibble carry the backlight bit and the nibble's RS level, and the last leaves E low |
| `LcdI2c.NibbleLevels` | src/LiquidCrystal_I2C.c:98-103 | the same, as one predicate over the three bytes |
| `LcdI2c.BytePair` | src/LiquidCrystal_I2C.c:115-140 | the two nibbles of a byte latch as its high and low halves with one RS level |
| `LcdI2c.SendSplit` | src/LiquidCrystal_I2C.c:115-140 | commands and data are sent the same way, with RS low for commands and high for data |
| `LcdI2c.JoinHalves` | src/LiquidCrystal_I2C.c:115-140 | the two latched halves of a transfer join back into that transfer |
| `LcdI2c.SendReceived` | src/LiquidCrystal_I2C.c:115-140 | a sent command or data byte reaches the controller as exactly that transfer, and leaves E low |
| `LcdI2c.SendLast` | src/LiquidCrystal_I2C.c:106-112 | the last byte of a send has E low |
| `LcdI2c.SendBytes` | src/LiquidCrystal_I2C.c:115-140 | every byte of a send carries the backlight bit, with RS clear for a command and set for data |
| `LcdI2c.PairLevels` | src/LiquidCrystal_I2C.c:129-140 | two nibbles of one RS level keep that level and the backlight bit on all six bytes |
| `LcdI2c.EncodeReceived` | src/LiquidCrystal_I2C.c:115-140 | the controller receives exactly the transfers encoded, in order |
| `LcdI2c.EncodeKeepsBacklight` | src/LiquidCrystal_I2C.c:100 | every byte of an encoded run carries the current backlight bit |
| `LcdI2c.Delivered` | src/LiquidCrystal_I2C.c:98-140 | both facts above, for any backlight state the driver can hold |
| `LcdI2c.I2cMasterInit` | src/LiquidCrystal_I2C.c:46-80 | success exactly when the master ends up installed; an installed master answers OK at once; otherwise the first failing platform call's error is returned; nothing else in the record changes |
| `LcdI2c.I2cInitIdempotent` | src/LiquidCrystal_I2C.c:48-51 | once installed, initialising again changes nothing, whatever the platform would answer |
| `LcdI2c.Init` | src/LiquidCrystal_I2C.c:143-189 | address and geometry are stored even when the I2C set-up fails; failure writes nothing and keeps the backlight bit; success installs the master and turns the backlight on |
| `LcdI2c.ModeLatches` | src/LiquidCrystal_I2C.c:164-172 | the mode switch latches 3, 3, 3, 2 with RS low, one nibble each |
| `LcdI2c.InitCommandMeaning` | src/LiquidCrystal_I2C.c:174-182 | the set-up commands are 0x28, 0x08, 0x01, 0x06, 0x0C: 4-bit, two lines, 5x8 dots; display off; clear; increment without shift; display on with neither cursor nor blink |
| `LcdI2c.InitSequence` | src/LiquidCrystal_I2C.c:161-186 | a successful initialisation latches the mode nibbles, then delivers exactly the set-up commands, and ends with the lone backlight byte |
| `LcdI2c.InitTrace` | src/LiquidCrystal_I2C.c:161-186 | the same, for the bytes of the mode switch, the encoded commands and the backlight byte |
| `LcdI2c.SetCursor` | src/LiquidCrystal_I2C.c:206-220 | one "set DDRAM address" instruction carrying the clamped column plus the clamped row's offset reaches the controller; the record is unchanged |
| `LcdI2c.CursorPlacement` | src/LiquidCrystal_I2C.c:208-218 | on one to four rows and one to twenty columns the clamped position lies inside the display, and the controller decodes the instruction as that address |
| `LcdI2c.AddressesDistinct` | src/LiquidCrystal_I2C.c:209 | distinct positions on a 20x4 display have distinct addresses |
| `LcdI2c.CString` | src/LiquidCrystal_I2C.c:227-229 | the characters sent are a NUL-free prefix of the buffer, followed there by its NUL |
| `LcdI2c.CStringOf` | src/LiquidCrystal_I2C.c:227-229 | a NUL-terminated copy of a NUL-free text prints exactly that text |
| `LcdI2c.Print` | src/LiquidCrystal_I2C.c:223-230 | a NULL string sends nothing; otherwise each character before the NUL reaches the controller as one data transfer, in order |
| `LcdI2c.PrintChar` | src/LiquidCrystal_I2C.c:233-236 | one character reaches the controller as one data transfer |
| `LcdI2c.CharByte` | src/LiquidCrystal_I2C.c:228 | a C char is sent as the byte of the same value |
| `LcdI2c.FormatInto` | src/LiquidCrystal_I2C.c:242 | snprintf's result is NUL-terminated and fits the buffer |
| `LcdI2c.IntText` | src/LiquidCrystal_I2C.c:242 | the `%d` text of an int contains no NUL |
| `LcdI2c.IntFitsBuffer` | src/LiquidCrystal_I2C.c:241-242 | the 12-byte buffer holds the whole rendering of any 32-bit int and its NUL |
| `LcdI2c.PrintInt` | src/LiquidCrystal_I2C.c:239-244 | the controller receives the `%d` rendering in full, one data transfer per character |
| `LcdI2c.Begin` | src/LiquidCrystal_I2C.c:259-264 | only columns and rows change; the character size is ignored |
| `LcdI2c.Command` | src/LiquidCrystal_I2C.c:191-342 | clear sends 0x01 and home 0x02; no_display 0x08; display, no_cursor and no_blink 0x0C; cursor 0x0E; blink 0x0F; scrolling 0x18 and 0x1C; left_to_right and no_autoscroll 0x06; right_to_left 0x04; autoscroll 0x07 |
| `LcdI2c.CommandMeaning` | src/LiquidCrystal_I2C.c:272-342 | what the controller makes of each command byte |
| `LcdI2c.RunOp` | src/LiquidCrystal_I2C.c:191-362 | each command function delivers exactly its one instruction, on bytes carrying the backlight bit; the record is unchanged |
| `LcdI2c.AliasesAgree` | src/LiquidCrystal_I2C.c:358-362 | the legacy names write exactly what their targets write |
| `LcdI2c.Backlight` | src/LiquidCrystal_I2C.c:351-356 | the bit becomes 0x08 and the lone byte 0x08, which latches nothing |
| `LcdI2c.NoBacklight` | src/LiquidCrystal_I2C.c:344-349 | the bit becomes 0x00 and the lone byte 0x00, which latches nothing |
| `LcdI2c.BacklightPersists` | src/LiquidCrystal_I2C.c:344-356 | after backlight every byte of a later command has the backlight bit set; after no_backlight none does |
| `App.NvsStartup` | src/main.c:28-34 | NVS is erased only for "no free pages" or "new version found"; start-up goes on exactly when the final result is OK; a halt reports a non-OK error |
| `App.NvsEraseOnlyWhenAsked` | src/main.c:29-33 | for any other first result, the erase and the second initialisation have no effect |
| `App.Call` | src/main.c:42-46 | each driver call main.c makes encodes exactly the transfers it means |
| `App.Perform` | src/main.c:89-98 | a script of calls encodes the transfers of its calls, one after the other |
| `App.PrintingTransfers` | src/LiquidCrystal_I2C.c:223-244 | a run of print calls delivers its characters as data, in order |
| `App.TwoLinesScreen` | src/main.c:68-72 | clear, cursor (0,0), first line, cursor (0,1), second line delivers a clear, the first line from address 0x00 and the second from 0x40 |
| `App.ScreenShows` | src/main.c:68-72 | after such a screen the display shows the first line from address 0x00, the second from 0x40, and blanks everywhere else, from any prior state |
| `App.Show` | src/main.c:68-72 | the bytes of a two-line screen reach the controller as exactly that screen |
| `App.StartingScreen` | src/main.c:42-46 | the splash shows "Weather Station" over "Initializing..." |
| `App.ReadyScreen` | src/main.c:67-72 | the ready screen shows "Weather Station" over "Ready!" |
| `App.StartDisplay` | src/main.c:39-52 | the display is at 0x27, 16x2; it works exactly when both I2C platform calls succeed; only then is it initialised and shown the splash, and only then does the ready screen reach it; otherwise no byte reaches it |
| `App.StartSensor` | src/main.c:37-56 | after the network component's status-light calls, the sensor is on GPIO 4 with zero readings and the LED is set up once, shows the "sensor started" colour and has one blink task per error call the network component made |
| `App.StartDevices` | src/main.c:36-73 | after NVS: the display and the sensor as above; the time from the sensor's initialisation to the first read is the two 2 s pauses plus the ready screen's 2 ms clear pause, at least the sensor's 2 s minimum interval |
| `App.Startup` | src/main.c:25-73 | start-up halts exactly when the NVS rule halts, with a non-OK error, and otherwise brings the device up |
| `App.ReadingShown` | src/main.c:89-98 | a good reading prints "Temp: ", the temperature, "F" on one line and "Humidity: ", the humidity, "%" on the other |
| `App.ReadingLinesShown` | src/main.c:81-98 | with the Fahrenheit flag fixed on, those lines show the reading picture |
| `App.ReadingScreen` | src/main.c:89-98 | the reading's screen reaches the controller as the reading picture |
| `App.ErrorShown` | src/main.c:107-111 | the error lines are "Sensor Error!" and "Check DHT11" |
| `App.ErrorScreen` | src/main.c:107-111 | the error screen reaches the controller as that picture |
| `App.ReadingFits` | src/main.c:89-98 | both reading lines fit 16 columns: at most 491 F and 255 %, three digits each |
| `App.ReadingDisplayed` | src/main.c:89-98 | after a good reading the display shows "Temp: <F>F" from row 0 and "Humidity: <h>%" from row 1, and both fit the row |
| `App.ErrorDisplayed` | src/main.c:107-111 | after a failed read the display shows "Sensor Error!" on row 0 and "Check DHT11" on row 1 |
| `App.Measure` | src/main.c:76-119 | one pass without the display: the device holds the readings `dht11_read` left, which the getters then return; on success the LED is the one `dht11_read` left, with the "read" colour on and no task spawned; on failure the readings are kept and the LED is raised once more after `dht11_read`'s own raise, two blink tasks in all; the error is the one `dht11_read` returns; the time to the next read is the retry pauses, the 2 ms pause of `lcd_clear` and 60 s, at least the sensor's 2 s minimum; the device stays in its running state |
| `App.CycleScreen` | src/main.c:88-111 | after a good read the display receives the reading picture, after a failed one the error picture; without an installed I2C driver nothing reaches it |
| `App.Iterate` | src/main.c:76-120 | one pass: `Measure`, and the display receives the reading in Fahrenheit or the error screen, or nothing when the I2C driver is not installed |
| `App.Loop` | src/main.c:76-120 | any number of passes keep the device running with the same display, spawn exactly two blink tasks per failed read, and start every read at least the sensor's 2 s minimum interval after the previous one |
| `App.LoopPass` | src/main.c:76-120 | pass k of a run is `Measure` with round k's bus behaviour on the device the first k passes left, so the failed reads the blink count counts are the failed `dht11_read` calls |
| `App.LoopPrefix` | src/main.c:76-120 | the first n passes of a run are the run of the first n rounds |
| `Base.CodeInjective` | src/main.c:29 | two error values are equal exactly when their numeric codes are, so testing codes as `main.c` does is testing the values |

## Left out

- Timing: the busy-waits and their clock, `esp_rom_delay_us` and the GPIO direction switches. `vTaskDelay` is counted only as the length of its pause. The sensor bus is given as a `BusTrace` per attempt: the outcome of each handshake wait, and each bit's arrival and measured width. A line stuck high yields a long width, not an error.
- `Dht11.Read` requires exactly three bus behaviours, one per possible attempt. The behaviours of attempts that never happen are ignored.
- The I2C transport (`lcd_write_byte`, the command links, the address byte). The trace holds the data bytes written to the expander. The driver ignores their return codes. The model lets a byte fail only for a missing I2C driver; bus errors on an installed driver are left out.
- The platform calls `i2c_param_config`, `i2c_driver_install`, `nvs_flash_init` and `nvs_flash_erase` are not modelled. Their results are parameters.
- Halting start-up is modelled as `Halted`: `ESP_ERROR_CHECK`'s abort and restart are left out.
- `wifi_app_start`, the HTTP server and the network and update state machines. Their code is not part of this model, only their headers. Their status-light calls before the sensor's initialisation are a parameter of `App.StartDevices`.
- The network component's later status-light calls run in other tasks, concurrently with the main loop. They are not interleaved with the loop's passes.
- Time is the sum of the pauses (`vTaskDelay`), including the 2 ms pause inside `lcd_clear`. Each pause is counted as the milliseconds requested; the rounding of `pdMS_TO_TICKS` to the FreeRTOS tick rate is not modelled (the tick rate is a build setting). The time the read attempts and the display writes take is not counted, so the read spacing stated is a lower bound.
- Logging (`ESP_LOGI`, `ESP_LOGE`).
- The LEDC and timer configuration calls, the timer frequency, and FreeRTOS task creation. A blink task is counted, and one cycle of its endless loop is modelled as `BlinkOn` then `BlinkOff`. The tasks' interleaving is concurrency and is left out.
- `lcd_printFloat` and floating point in general. The Fahrenheit conversion is done in exact arithmetic, then truncated to an int. For the byte-sized values the driver stores, this gives the same result as the float computation.
- The `Hd44780` reference model assumes entry mode "increment, no shift", the mode the driver programs. It treats display RAM as an unbounded map, without line wrap. The display-control, entry-mode, shift and CGRAM instructions do not change the modelled display RAM or the address counter. A real HD44780 moves the cursor on a cursor shift and sends later data to CGRAM after a CGRAM address; the application's screens use neither.
- `LcdI2c.SetCursor` requires the clamped row to be below 4. Beyond that, the driver indexes past its four-entry offset table, which C leaves undefined. A zero column count is modelled: the uint8 subtraction wraps.
- `LcdI2c.WriteNibble`, `LcdI2c.SendCommand`, `LcdI2c.SendData`, `LcdI2c.Send` and `LcdI2c.Encode` state only the trace length in their own contracts. Their contents are stated by `NibbleShape`, `NibbleBytes`, `SendBytes`, `SendReceived` and `EncodeReceived`.
- `App.Measure` states its error code as the one `Dht11.Read` returns. The properties of that code are stated there.
- `App.StartDisplay` assumes the fixed 16x2 geometry and address 0x27 that `main.c` passes. Other geometries are covered by the driver's own lemmas.
- `Dht11.GetTemperature` states its Fahrenheit result only for byte-sized Celsius values, the only ones the driver can store.
