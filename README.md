# Lumen colour animation, modelled in Dafny

The lumen example application drives an addressable RGB LED strip. Its main loop repeatedly
fills a global buffer of `STRIP_NUM_PIXELS` colours with a rainbow, hands the buffer to the
strip driver, advances a phase counter `j` that wraps at 256 * 5, and sleeps. Each pixel's
colour comes from `color_wheel`, a three-segment piecewise-linear hue wheel that maps an 8-bit
position to a colour running red, then green, then blue, then back to red.

This project models that core of `app/src/main.c`:

- `wheel.dfy` (module `Wheel`): the `uint8_t` channel type, the colour triple, the C conversion
  of an `int` to `uint8_t`, `color_wheel` as the function `ColorWheel`, and an independent
  statement of the same wheel over unbounded integers (`HueWheel`). The lemmas show that no
  step of `color_wheel` wraps, so the two agree. They also show that the channels always sum
  to 255, that one channel is always dark, where the primaries sit, and that 0 and 255 are the
  only two positions with the same colour.
- `animation.dfy` (module `Animation`): the per-pixel wheel position
  `((i * 256 / N) + j) & 255`, the frame a tick writes (`Frame`), the phase update
  (`NextPhase`) and its iteration (`PhaseAfter`). The loop state is the class `LedStrip`. It
  holds the buffer as an array and `j` as a field. `FillFrame` is the in-place `for` loop.
  `Tick` is one pass of the `while (1)` body, and `Run` runs a sequence of ticks. `Start` is
  `main` from its initial state.

Two modelling choices:

- `& 255` is written as `% 256`. For a two's-complement `int` the two agree, and the operand
  here is never negative.
- Every assignment to a `uint8_t` in `color_wheel` goes through `U8`, which reduces modulo
  256 as C does. `ColorWheelNoWrap` and `ColorWheelIsHueWheel` then show that this reduction
  never changes a value.

The strip update `led_strip_update_rgb` is outside the model. Its return code enters as a
parameter, and its only modelled effect is whether the error line is printed, which the
tick returns as a boolean. The contracts of `Tick` and `Run` state that a failed update
still fills the frame and advances the phase.

## Model

| member | source | states |
|---|---|---|
| `Wheel.ColorWheelNoWrap` | app/src/main.c:28-46 | the reversed position, the reduced position (at most 85), `pos * 3` and `255 - pos * 3` all lie in [0, 255] in the segment taken |
| `Wheel.HueWheel` | app/src/main.c:28-48 | the linear reference wheel has channels summing to 255, and its dark channel is blue on 0..85, red on 86..170 and green on 171..255 |
| `Wheel.ColorWheelIsHueWheel` | app/src/main.c:26-49 | `color_wheel` equals the unbounded linear wheel: red to green on 0..85, green to blue on 86..170, blue to red on 171..255 |
| `Wheel.ColorWheelChannelSum` | app/src/main.c:28-48 | every wheel colour has r + g + b = 255 and at least one channel equal to 0 |
| `Wheel.ColorWheelZeroChannel` | app/src/main.c:29-48 | the dark channel is blue on positions 0..85, red on 86..170 and green on 171..255 |
| `Wheel.ColorWheelPrimaries` | app/src/main.c:23-48 | position 0 is pure red, 85 pure green and 170 pure blue, as the "red - green - blue" comment says |
| `Wheel.ColorWheelDistinct` | app/src/main.c:28-48 | positions 0 and 255 both give red; any other two distinct positions give distinct colours |
| `Animation.Offset` | app/src/main.c:69 | for 0 <= i < N the per-pixel offset `i * 256 / N` lies in [0, 256) |
| `Animation.OffsetMonotone` | app/src/main.c:69 | the offset is 0 for the first pixel and never decreases along the strip |
| `Animation.FrameDependsOnPhaseMod256` | app/src/main.c:66-72 | two phases equal modulo 256 produce the same frame |
| `Animation.FramePhasePeriod` | app/src/main.c:69 | phases `j` and `j + 256` produce identical frames |
| `Animation.FramePixelsOnWheel` | app/src/main.c:66-72 | every pixel of every frame has channels summing to 255 with one channel dark |
| `Animation.NextPhase` | app/src/main.c:80-83 | from a phase in [0, 1280) the update stays in [0, 1280) and equals `(j + 1) % 1280` |
| `Animation.PhaseAfterIsModularSum` | app/src/main.c:80-83 | after k ticks from phase j0 in [0, 1280) the phase is `(j0 + k) % 1280` |
| `Animation.PhaseAfterCompose` | app/src/main.c:80-83 | running a ticks and then b more ticks gives the same phase as running a + b ticks |
| `Animation.FrameTickPeriod` | app/src/main.c:64-83 | counted from phase 0, tick k and tick k + 256 fill the same frame, and the phase counter repeats after 1280 ticks |
| `Animation.LedStrip.constructor` | app/src/main.c:21 | the buffer starts with N all-zero pixels and the phase `j` (line 54) starts at 0 |
| `Animation.LedStrip.FillFrame` | app/src/main.c:66-72 | afterwards pixel i holds `color_wheel(((i * 256 / N) + j) & 255)` for every 0 <= i < N; only the buffer entries change, not `j` |
| `Animation.LedStrip.Tick` | app/src/main.c:64-83 | one tick leaves the frame of the old phase in the buffer, sets `j` to the wrapped increment, keeps `j` in [0, 1280), and reports an error exactly when the strip update returned a negative code |
| `Animation.LedStrip.Run` | app/src/main.c:64-93 | after t ticks, `j` is the phase t updates on from the start, the buffer holds the frame of the last tick's phase, and tick s reports an error exactly when its update failed; failures never stop progress |
| `Animation.Start` | app/src/main.c:51-96 | when the strip is not ready, `main` returns with the buffer zero and `j = 0`; otherwise after t ticks `j = t % 1280` and the buffer holds the frame of phase `(t - 1) % 1280` |

## Left out

- The strip update `led_strip_update_rgb` (app/src/main.c:74) is a driver call whose code is not part of this model. It enters as a parameter carrying its return code and is treated as not touching the buffer or `j`. Only the buffer contents that `Tick`, `Run` and `Start` promise after a tick rest on that assumption. The buffer `FillFrame` promises, which is the frame handed to the strip, does not, because no strip call happens inside it.
- The heartbeat (`sys_timepoint_*`, `k_uptime_get`, `printk`, app/src/main.c:55,85-90), the start-up banner and the 20 ms `k_sleep` are timing and logging. They do not touch the buffer or `j`. The printed strip error line is modelled only as the boolean a tick returns.
- `device_is_ready` is a driver query. It enters `Start` as the boolean `stripReady`.
- The unbounded `while (1)` loop is modelled as a run of finitely many ticks, one per given strip update result.
- The width of the C `int` is not modelled. `i * 256` and `j` are far below 2^31 for any realistic strip length, so the model uses unbounded integers.
- The definition of `struct led_rgb` is not part of this model. A pixel is modelled as its three colour channels, so an optional scratch byte, if the driver configures one, is not represented.
- `drivers/ws2812/rgbw.c` (RGB to RGBW conversion) is written in single-precision floating point, and `app/src/main.c` does not call it. `drivers/ws2812/rgbw.h` only declares it, and `boards/arm/lumen/board.c` is hardware register bring-up. None of them is modelled.
