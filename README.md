# Soil-moisture sensor firmware (ESP32-C3, version 3.0j) and its SSD1306 72x40 driver

A Dafny model of the decision core of a battery-powered soil-moisture sensor.
The firmware wakes from deep sleep and measures the capacitive sensor. It
classifies the reading into one of seven moisture zones and shows a 40x40
status icon on a 72x40 OLED. It publishes a telemetry record over MQTT,
polls a button, saves its measurement counter in the RTC's retained memory
and sleeps again. The display is driven by a small SSD1306 driver. That
driver keeps a MONO_VLSB page buffer and talks to the panel over I2C. Its
two calibrated vertical offsets (52 normal, 12 flipped) must follow the
scan direction that `flip()` programs.

Modules, one per concern of the source:

- `Zones` (zones.dfy): the `MOISTURE_ZONES` table, `get_moisture_zone` and
  `determine_moisture_status`. Both are first-match scans over the table.
  They differ on readings outside 0..9999: the first falls back to a
  very-dry or very-wet zone, the second answers "ERR". The file also gives
  the threshold description from the firmware's header and proves it agrees
  with the table.
- `RetainedCounter` (counter.dfy): `load_counter` and `save_counter`. The
  counter is four little-endian bytes in RTC memory. `Rtc` is a class whose
  `memory` field `save_counter` replaces.
- `MonoVlsb` (monovlsb.dfy): the 360-byte page buffer layout the driver
  hands to the frame buffer, and its pixel and fill operations.
- `Ssd1306` (ssd1306.dfy): class `SSD1306` with the driver's fields and
  methods. The I2C bus is an `I2C` object whose `log` holds every
  `writeto` transfer in order. A ghost `panel` field holds the panel
  registers as the driver's own command writes have set them. A small
  decoder, `Command`, follows the SSD1306 datasheet's one-byte and two-byte
  commands, and every driver method's contract steps `panel` through the
  command bytes it writes. So "the offset in use matches the orientation"
  (`Aligned`) is stated about the commands the driver's methods sent. The
  ghost state is not derived from the bus log: a transfer written to the
  bus by other code does not change it.
- `Screens` (screens.dfy): `get_icon_for_adc`, `draw_large_icon`,
  `show_icon_screen`, the firmware's `init_display` and the display part of
  the sleep path.
- `DutyCycle` (dutycycle.dfy): `calc_sensor_percent`,
  `check_button_before_sleep` and the counter and decision logic of `main`.
  `main` is run over a finite list of per-pass inputs and produces a trace
  of events: measured, published, measure-again, counter saved, deep sleep,
  continuous. Deep sleep ends the trace.

The firmware imports the driver as `ssd1306_7240_drv`. The driver file
modelled here is `ssd1306_7240_drv_final.py`.

## Model

| member | source | states |
|---|---|---|
| Zones.GetMoistureZone | esp32c3_moisture_sensor_v3_0j_clean.py:219-228 | for every reading, fallbacks included, the answer is one of the header's seven zones (name, icon id and text together), and its icon id is in 1..6 |
| Zones.RowIsZone | esp32c3_moisture_sensor_v3_0j_clean.py:114-123 | each table row describes the header zone of its position |
| Zones.FirstMatch | esp32c3_moisture_sensor_v3_0j_clean.py:221-223 | a row the scan reports lies at or after the start index and its inclusive range contains the reading |
| Zones.FirstMatchIsFirst | esp32c3_moisture_sensor_v3_0j_clean.py:546-548 | the scan reports the first containing row: no earlier row contains the reading, and it reports nothing only when no row does |
| Zones.DetermineMoistureStatus | esp32c3_moisture_sensor_v3_0j_clean.py:541-543 | a missing reading (`None`) gives "ERR" |
| Zones.MoistureZonesShape | esp32c3_moisture_sensor_v3_0j_clean.py:114-123 | the table's ranges are descending and adjacent with no gap or overlap, from 9999 down to 0 |
| Zones.ZonesPartition | esp32c3_moisture_sensor_v3_0j_clean.py:114-123 | a reading lies in some row exactly when it is within 0..9999, and it never lies in two rows |
| Zones.ScanFindsContainingRow | esp32c3_moisture_sensor_v3_0j_clean.py:219-228 | for a reading in row i, get_moisture_zone returns row i's name, icon id and text, and determine_moisture_status returns row i's text |
| Zones.ClassifierMatchesThresholds | esp32c3_moisture_sensor_v3_0j_clean.py:21-28 | on 0..9999 both scans agree with the header's thresholds: OL above 850, sDRY 767-850, DRY 684-766, OK 587-683, WET 504-586, sWET 420-503, UL below 420 |
| Zones.OutOfTable | esp32c3_moisture_sensor_v3_0j_clean.py:224-228 | outside 0..9999 the status is "ERR"; get_moisture_zone falls back to the very-dry zone above 850 and the very-wet zone otherwise, although the header calls such readings overload or underload |
| Zones.StatusMatchesZone | esp32c3_moisture_sensor_v3_0j_clean.py:536-552 | the status is get_moisture_zone's text for every present reading in 0..9999, and "ERR" for every other reading |
| Zones.Boundaries | esp32c3_moisture_sensor_v3_0j_clean.py:116-122 | the values on both sides of each threshold land in the zones the table gives (419 UL, 420 sWET, 586 WET, 587 OK, 683 OK, 684 DRY, 850 sDRY, 851 OL) |
| Zones.IconIdsInRange | esp32c3_moisture_sensor_v3_0j_clean.py:219-228 | every icon id get_moisture_zone can return, fallbacks included, is in 1..6; overload and underload share icon 6 |
| RetainedCounter.ToLittle | esp32c3_moisture_sensor_v3_0j_clean.py:304 | the little-endian encoding of a value that fits in k bytes has exactly k bytes |
| RetainedCounter.FromLittle | esp32c3_moisture_sensor_v3_0j_clean.py:292 | the little-endian value of n bytes is below 256^n |
| RetainedCounter.CounterLimitIsPow | esp32c3_moisture_sensor_v3_0j_clean.py:304 | four bytes hold exactly the values below 2^32 |
| RetainedCounter.FromToLittle | esp32c3_moisture_sensor_v3_0j_clean.py:285-310 | decoding an encoding gives the value back |
| RetainedCounter.ToFromLittle | esp32c3_moisture_sensor_v3_0j_clean.py:285-310 | encoding a decoded byte string gives the bytes back |
| RetainedCounter.EncodeCounter | esp32c3_moisture_sensor_v3_0j_clean.py:304 | save_counter's `to_bytes(4, 'little')` succeeds exactly for 0 <= count < 2^32 and then gives four bytes |
| RetainedCounter.DecodeCounter | esp32c3_moisture_sensor_v3_0j_clean.py:290-297 | the loaded count is below 2^32, and 0 when memory holds fewer than four bytes |
| RetainedCounter.CounterRoundTrip | esp32c3_moisture_sensor_v3_0j_clean.py:285-310 | every count save_counter accepts is loaded back unchanged |
| RetainedCounter.CounterRestoresBytes | esp32c3_moisture_sensor_v3_0j_clean.py:285-310 | saving the count loaded from a memory of four or more bytes writes back exactly its first four bytes |
| RetainedCounter.LoadCounter | esp32c3_moisture_sensor_v3_0j_clean.py:285-297 | without an RTC the count is 0; otherwise it is the decoding of the retained memory |
| RetainedCounter.SaveCounter | esp32c3_moisture_sensor_v3_0j_clean.py:299-310 | returns true exactly when there is an RTC and the count fits in four bytes; then memory is its encoding and loads back as the count; on false, memory is unchanged |
| MonoVlsb.ByteIndex | ssd1306_7240_drv_final.py:21-23 | every on-screen pixel lives in one of the 360 buffer bytes |
| MonoVlsb.ByteIndexShared | ssd1306_7240_drv_final.py:21-23 | two on-screen pixels share a byte exactly when they share the column and the 8-row page |
| MonoVlsb.WithBitEffect | ssd1306_7240_drv_final.py:83-84 | setting one bit of a byte gives it the colour and keeps every other bit |
| MonoVlsb.SetPixel | ssd1306_7240_drv_final.py:83-84 | setting a pixel keeps the buffer at 360 bytes |
| MonoVlsb.PixelEffect | ssd1306_7240_drv_final.py:83-84 | setting a pixel gives that pixel the colour and leaves every other pixel as it was; off-screen coordinates change nothing |
| MonoVlsb.Filled | ssd1306_7240_drv_final.py:101-102 | a filled buffer has 360 bytes |
| MonoVlsb.FilledPixels | ssd1306_7240_drv_final.py:101-102 | after a fill every pixel has the fill colour |
| Ssd1306.I2C.WriteTo | ssd1306_7240_drv_final.py:27-28 | a transfer is appended to the bus log and nothing before it changes |
| Ssd1306.AddressingInert | ssd1306_7240_drv_final.py:56-58 | page selects and the column-window commands leave the orientation, offset, contrast, power and inversion registers alone |
| Ssd1306.InitWritesSplit | ssd1306_7240_drv_final.py:30-48 | the writes of `InitCommands`, init_display's 25 command bytes, are its four runs in order |
| Ssd1306.InitTimingWrites | ssd1306_7240_drv_final.py:31-36 | the first run is the transfers of 0xAE, 0xD5 0x80, 0xA8 0x27, 0xD3 52 |
| Ssd1306.InitScanWrites | ssd1306_7240_drv_final.py:38-42 | the second run is the transfers of 0x40, 0x8D 0x14, 0x20 0x00, 0xA0, 0xC0 |
| Ssd1306.InitAnalogWrites | ssd1306_7240_drv_final.py:43-46 | the third run is the transfers of 0xDA 0x12, 0x81 0xCF, 0xD9 0xF1, 0xDB 0x40 |
| Ssd1306.InitTimingRegisters | ssd1306_7240_drv_final.py:31-36 | the first run switches the panel off and sets the normal offset 52 |
| Ssd1306.InitScanRegisters | ssd1306_7240_drv_final.py:38-42 | the second run sets plain column order and COM scan from COM0 |
| Ssd1306.InitAnalogRegisters | ssd1306_7240_drv_final.py:43-46 | the third run sets contrast 0xCF |
| Ssd1306.InitEnableRegisters | ssd1306_7240_drv_final.py:47-48 | the last run sets non-inverted pixels and switches the panel on |
| Ssd1306.PageWrites | ssd1306_7240_drv_final.py:56-61 | one page of show() is four transfers |
| Ssd1306.ShowPagesLength | ssd1306_7240_drv_final.py:52-61 | n pages of show() are 4n transfers |
| Ssd1306.ShowPagesPage | ssd1306_7240_drv_final.py:52-61 | transfers 4p to 4p+3 of show() are page p's select, column window and data |
| Ssd1306.ShowSendsBuffer | ssd1306_7240_drv_final.py:52-61 | `ShowWrites`, what show() sends, is 20 transfers, and buffer byte i travels in page i / 72's data transfer at position i % 72 after the control byte |
| Ssd1306.FlipOrients | ssd1306_7240_drv_final.py:63-78 | `FlipCommands`, flip()'s four commands, leave the panel oriented for the other orientation (mirrored columns, reversed COM scan, offset 12 when flipping; plain scan, offset 52 when unflipping), every other register unchanged |
| Ssd1306.FlipTwiceRestores | ssd1306_7240_drv_final.py:63-78 | flipping twice gives an oriented panel back exactly |
| Ssd1306.SSD1306.constructor | ssd1306_7240_drv_final.py:11-25 | a fresh 360-byte buffer, not flipped, address as given (0x3C by default), then init_display: the 25 commands and a blank show(); the panel ends up initialised and aligned |
| Ssd1306.SSD1306.WriteCmd | ssd1306_7240_drv_final.py:27-28 | one transfer [0x00, c] to the driver's address; the panel decodes c |
| Ssd1306.SSD1306.InitDisplay | ssd1306_7240_drv_final.py:30-50 | the 25 commands, then a cleared buffer and a full show(); the panel ends up on, not inverted, plain scan, offset 52, contrast 0xCF whatever it was before; aligned exactly when not flipped |
| Ssd1306.SSD1306.SendInitCommands | ssd1306_7240_drv_final.py:31-48 | the 25 command writes in order, leaving the initialised registers |
| Ssd1306.SSD1306.InitTiming | ssd1306_7240_drv_final.py:31-36 | writes the first run; the panel is off with offset 52 |
| Ssd1306.SSD1306.InitScan | ssd1306_7240_drv_final.py:38-42 | writes the second run; plain column order and COM scan |
| Ssd1306.SSD1306.InitAnalog | ssd1306_7240_drv_final.py:43-46 | writes the third run; contrast 0xCF |
| Ssd1306.SSD1306.InitEnable | ssd1306_7240_drv_final.py:47-48 | writes the last run; non-inverted and on |
| Ssd1306.SSD1306.Show | ssd1306_7240_drv_final.py:52-61 | the bus receives exactly the five pages of the current buffer; registers unchanged |
| Ssd1306.SSD1306.ShowPage | ssd1306_7240_drv_final.py:56-61 | one page: select 0xB0 + page, column window 0x0E/0x11 for window_x 30, and the page's 72 bytes after 0x40 |
| Ssd1306.SSD1306.Flip | ssd1306_7240_drv_final.py:63-78 | toggles `flipped`, sends the scan pair and offset for the new orientation and then the buffer; the panel is aligned afterwards from any idle state |
| Ssd1306.SSD1306.SendFlipCommands | ssd1306_7240_drv_final.py:64-75 | the four commands for the orientation being left, and their register effect |
| Ssd1306.SSD1306.Clear | ssd1306_7240_drv_final.py:80-81 | the buffer is all clear |
| Ssd1306.SSD1306.Fill | ssd1306_7240_drv_final.py:101-102 | every pixel takes the colour (non-zero is lit) |
| Ssd1306.SSD1306.SetPixel | ssd1306_7240_drv_final.py:83-84 | the one on-screen pixel takes the colour, every other pixel is unchanged, off-screen is ignored |
| Ssd1306.SSD1306.Invert | ssd1306_7240_drv_final.py:113-114 | sends 0xA7 or 0xA6; only the inversion register changes, alignment kept |
| Ssd1306.SSD1306.Power | ssd1306_7240_drv_final.py:116-117 | sends 0xAF or 0xAE; only the power register changes, alignment kept |
| Ssd1306.SSD1306.Contrast | ssd1306_7240_drv_final.py:119-121 | sends 0x81 then the level; only the contrast register changes |
| Screens.IconFor | esp32c3_moisture_sensor_v3_0j_clean.py:233-241 | the icon dictionary has exactly the keys 1..6, key 6 is the warning icon, and each bitmap is a whole icon |
| Screens.GetIconForAdc | esp32c3_moisture_sensor_v3_0j_clean.py:230-241 | the lookup succeeds exactly when the zone's icon id is a key, and then returns the zone's status text; IconMatchesZone states which bitmap |
| Screens.IconMatchesZone | esp32c3_moisture_sensor_v3_0j_clean.py:230-241 | the bitmap is the one the symbol table pairs with the reading's zone: on 0..9999 waves 420-503, left-leaf flower 504-586, two-leaf flower 587-683, right-leaf flower 684-766, watering can 767-850, warning above 850 and below 420, each with its status text; the watering can above 9999 and the waves below 0 |
| Screens.IconLookupTotal | esp32c3_moisture_sensor_v3_0j_clean.py:230-241 | the lookup never raises, for any reading, and hands out a 200-byte icon |
| Screens.OutOfRangeSharesIcon | esp32c3_moisture_sensor_v3_0j_clean.py:230-241 | overload and underload in 0..9999 show the warning icon with "OL" or "UL"; readings beyond the table show the watering can or the waves |
| Screens.ZoneIcon | esp32c3_moisture_sensor_v3_0j_clean.py:230-241 | the icon shown for a reading is a 200-byte bitmap, together with the zone's status text |
| Screens.DrawLargeIcon | esp32c3_moisture_sensor_v3_0j_clean.py:256-263 | after drawing, each on-screen pixel is lit exactly when it was lit before or a set bit of the 40x40 bitmap lands on it; nothing is cleared |
| Screens.CoversReadsIconOnly | esp32c3_moisture_sensor_v3_0j_clean.py:256-263 | only the first 200 bytes of the bitmap decide what is drawn |
| Screens.IconPlacementOnScreen | esp32c3_moisture_sensor_v3_0j_clean.py:269 | an icon drawn at (16, 0) lies within x 16..55, y 0..39, wholly on the 72x40 screen |
| Screens.ShowIconScreen | esp32c3_moisture_sensor_v3_0j_clean.py:265-271 | the lit pixels are exactly the zone icon's set bits at (16, 0), every icon pixel is visible, and the bus receives that buffer |
| Screens.InitDisplay | esp32c3_moisture_sensor_v3_0j_clean.py:407-438 | no display without an I2C bus; otherwise a new driver (its bring-up and a blank flush), switched on with power(True) because poweron() is missing, then the splash screen (a parameter) sent; exact bus writes and the resulting register state |
| Screens.DrawSplash | esp32c3_moisture_sensor_v3_0j_clean.py:425-428 | the cleared buffer becomes the rendering of the four splash lines, given as a parameter |
| Screens.BlankBeforeSleepAsWritten | esp32c3_moisture_sensor_v3_0j_clean.py:758-764 | fill(0) and show() reach the panel, and the call to the missing poweroff() sends nothing: the registers, power included, are unchanged |
| Screens.SleepLeavesPanelOn | esp32c3_moisture_sensor_v3_0j_clean.py:754-766 | after start-up and both blanking blocks (main's, then enter_deep_sleep's), the panel is still on and the last transfer is not 0xAE |
| Screens.BlankBeforeSleep | esp32c3_moisture_sensor_v3_0j_clean.py:758-764 | the intended block: blank buffer sent, then 0xAE; the panel is off, every other register unchanged |
| Screens.SleepSwitchesPanelOff | esp32c3_moisture_sensor_v3_0j_clean.py:754-766 | with the intended block the panel is off at deep sleep and 0xAE is the last transfer |
| DutyCycle.TruncDiv | esp32c3_moisture_sensor_v3_0j_clean.py:320 | `int()` of a quotient truncates toward zero (floor for non-negative, ceiling for negative numerators) |
| DutyCycle.CalcSensorPercent | esp32c3_moisture_sensor_v3_0j_clean.py:316-320 | the percentage is within 0..100, 0 at or above the dry point 850, 100 at or below the wet point 420 |
| DutyCycle.SensorPercentScale | esp32c3_moisture_sensor_v3_0j_clean.py:316-320 | between the calibration points it is the whole number of percent, rounded down, that the reading lies below 850 on the 430-wide scale |
| DutyCycle.SensorPercentMonotone | esp32c3_moisture_sensor_v3_0j_clean.py:316-320 | a wetter (lower) reading never gives a lower percentage |
| DutyCycle.CheckButtonBeforeSleep | esp32c3_moisture_sensor_v3_0j_clean.py:558-577 | true exactly when some read of the poll gives level 0; reads that raise are ignored |
| DutyCycle.Measure | esp32c3_moisture_sensor_v3_0j_clean.py:701-707 | a pass's measurement keeps its inputs and has a percentage within 0..100 |
| DutyCycle.Measurements | esp32c3_moisture_sensor_v3_0j_clean.py:688-707 | one measurement per pass input |
| DutyCycle.MeasurementsAt | esp32c3_moisture_sensor_v3_0j_clean.py:701-707 | measurement k is input k classified and scaled as main does it |
| DutyCycle.StartCount | esp32c3_moisture_sensor_v3_0j_clean.py:678-684 | whatever the retained memory holds, the start count is below 2^32, a count four bytes can hold; MeasurementLoop and ResumeAfterSleep state what it is |
| DutyCycle.Passes | esp32c3_moisture_sensor_v3_0j_clean.py:748-766 | the loop makes at most one pass per input and at least one when there is any |
| DutyCycle.PassesStop | esp32c3_moisture_sensor_v3_0j_clean.py:748-766 | no pass before the last one sleeps, and the loop stops early only after a pass that sleeps |
| DutyCycle.SleepsSomewhere | esp32c3_moisture_sensor_v3_0j_clean.py:748-766 | the run ends in deep sleep exactly when some pass finds the button unpressed with a sleep time configured |
| DutyCycle.MeasurementLoop | esp32c3_moisture_sensor_v3_0j_clean.py:670-769 | main's events are the run from the start count; the counter ends at start plus the number of passes; RTC memory changes only when the run ends in sleep, and then holds that counter's encoding when it fits |
| DutyCycle.MeasurePasses | esp32c3_moisture_sensor_v3_0j_clean.py:688-769 | the `while True` loop: the same trace, counter and memory, from a given start count |
| DutyCycle.NextPass | esp32c3_moisture_sensor_v3_0j_clean.py:688-769 | one turn of the loop extends the trace by exactly one pass and reports whether it sleeps |
| DutyCycle.MeasurePass | esp32c3_moisture_sensor_v3_0j_clean.py:701-769 | a pass's events in order (measured; published when WLAN connected; then measure again, or save and sleep, or continue), whether it sleeps, and RTC memory changed only by a successful save before sleep |
| DutyCycle.PassShape | esp32c3_moisture_sensor_v3_0j_clean.py:701-769 | `Pass`, the events of one pass of main's loop: it opens with its Measured event, publishes its record exactly when the WLAN connected, and contains deep sleep exactly when it sleeps |
| DutyCycle.FirmwareSleepsUnlessPressed | esp32c3_moisture_sensor_v3_0j_clean.py:80 | with SLEEP_TIME 60 a pass sleeps exactly when the poll sees no press, and the continuous branch never occurs |
| DutyCycle.PassCounts | esp32c3_moisture_sensor_v3_0j_clean.py:689-692 | every pass has exactly one measured event, with its own counter |
| DutyCycle.TraceCounts | esp32c3_moisture_sensor_v3_0j_clean.py:688-689 | in `Trace`, the first k passes are numbered start+1 to start+k, in order |
| DutyCycle.CounterRisesByOne | esp32c3_moisture_sensor_v3_0j_clean.py:688-689 | over a whole `Run` the counter rises by exactly one per pass, with no gap and no repeat |
| DutyCycle.PublishedRecordsMatch | esp32c3_moisture_sensor_v3_0j_clean.py:724-745 | every published record (`Record`, the integer and text fields of mqtt_data) directly follows its pass's measured event with the same counter and status, and is the record of one of the run's passes: that pass's counter, its two ADC values, the zone status and the percentage of its sensor reading |
| DutyCycle.PassEnd | esp32c3_moisture_sensor_v3_0j_clean.py:748-769 | a sleeping pass ends with the save of its own counter and then deep sleep, with neither earlier; any other pass has neither |
| DutyCycle.SaveOnlyBeforeSleep | esp32c3_moisture_sensor_v3_0j_clean.py:754-766 | over a whole run the counter is saved only directly before deep sleep, which is the last event, and only the last pass's counter; a run without sleep saves nothing |
| DutyCycle.ResumeAfterSleep | esp32c3_moisture_sensor_v3_0j_clean.py:678-684 | after deep sleep the next boot resumes from exactly the counter the last pass saved, whenever it fitted in four bytes |

## Left out

- WLAN and MQTT (`connect_wifi`, `publish_mqtt`): a pass's `wifi` input says whether the connection succeeded. The published event records the record handed to `publish_mqtt`, whatever the broker does with it.
- ADC sampling and averaging, and the float voltage conversions (`read_battery_voltage`, `read_sensor_voltage`): the averaged ADC values are pass inputs, and voltages are not modelled.
- `calc_battery_percent`, the timestamp, device name and software version, and the voltage fields of the MQTT record: these are floats or clock and constant values. The record keeps its integer and text fields.
- DutyCycle.CalcSensorPercent: computed on exact rationals with truncation toward zero. Python computes `(850 - adc) / 430 * 100` in floating point, and its rounding can differ by one percent where the exact value is a whole number.
- DutyCycle.CheckButtonBeforeSleep: the poll's timing is not modelled. The 0.1 s countdown from five seconds becomes a sequence of button reads, as many as the poll makes. The LED blink on a press is not modelled.
- `time.sleep` delays, the LED (`led_blink`, `led_off`, `init_hardware`), `gc.collect`, switching off the sensor power and the WLAN before sleep, and `print_moisture_zones`: these have no effect on the modelled state.
- Screens.InitDisplay: the splash text is not rendered. The buffer the four `text` calls leave is a `splash` parameter, sent as it is.
- `display_values` and the status text drawn by `show_icon_screen`: they are frame-buffer text rendering, which is not part of this model. The driver's `text`, `rect`, `line`, `hline`, `vline`, `fill_rect`, `scroll` and `blit` pass straight through to the frame buffer and are left out for the same reason.
- The MicroPython `framebuf` module is not part of this model. Its MONO_VLSB layout and clipping are stated as an assumption in `MonoVlsb`.
- The icon bitmaps' contents are not modelled. They are an `IconAtlas` parameter of six 200-byte bitmaps.
- Each pass's display work (`init_display` again, `show_icon_screen`, blanking before sleep) is modelled by the `Screens` methods, but is not part of `DutyCycle`'s event trace. The trace covers the counter, the record, the button and sleep.
- The paths where `display` is `None` or `False`, and the `ImportError` of a missing driver, are left out. `Screens.InitDisplay` covers only the no-bus case and a driver that constructs.
- Bus faults, exceptions from `rtc.memory()` and the fatal-error handler around `main` are left out. Every I2C write is delivered, and RTC memory reads and writes succeed.
- Deep sleep never returns. It ends the event trace. `main`'s `while True` runs over a finite list of pass inputs.
- `SLEEP_TIME` is a parameter of the loop so that both branches are modelled. The firmware's value is 60 (`DutyCycle.SleepTime`), for which FirmwareSleepsUnlessPressed states the behaviour.
- Ssd1306.SSD1306.Contrast: the level is a byte. Python raises `ValueError` when building the transfer for a level outside 0..255, and that path is not modelled.
- The ghost `panel` is stepped by the driver's methods, not derived from the bus log. Transfers that other code writes to the same bus are not reflected in it.
- The ghost `panel` tracks only the registers this driver programs: power, inversion, column remap, COM scan direction, vertical offset and contrast. The other commands are decoded only so that their parameter bytes are consumed.

## Findings

| source | as written | input that shows it | evidently intended | confidence | as-written member | corrected member |
|---|---|---|---|---|---|---|
| esp32c3_moisture_sensor_v3_0j_clean.py:758-764 | the sleep path (here and in enter_deep_sleep, line 650) calls `display.poweroff()`, which the driver does not define; the bare `except` swallows the AttributeError, so the panel is never sent 0xAE and stays on through deep sleep | any pass that ends in deep sleep (button not pressed, SLEEP_TIME 60) | switch the panel off with the driver's `power(False)`, as `init_display` already falls back to `power(True)` for the missing `poweron()` | high (not executed) | Screens.SleepLeavesPanelOn | Screens.SleepSwitchesPanelOff |
