# Independent watchdog (IWDG) driver — Dafny model

This project models the independent-watchdog driver of the STM32WLxx HAL
(`hal/src/watchdog.rs`). The model, in module `Watchdog` of `watchdog.dfy`,
has three parts:

- **Division table.** Prescaler index `p` selects a division ratio of
  `1 << (2 + p)`, from `DivideBy4` (index 0) to `DivideBy256` (index 6,
  `MAX_PRESCALER`).
- **Timeout quantization.** `setup` turns a requested period into a
  (prescaler, reload) pair.
  - It starts from `millis * lsi / 4`, the cycle count at the smallest
    division ratio.
  - It walks the prescaler up, halving the reload with truncating
    division, until the reload fits the 12-bit field (`MAX_RELOAD = 0x0FFF`).
  - At the widest prescaler it clamps the reload to `0x0FFF`.
  - `QuantizeLoop` is that loop, written imperatively and proved equal to the
    reference function `Quantize`.
  - `Quantize` is in turn proved to be the only pair that meets the
    declarative description `IsQuantization`: the least prescaler at which
    the exact quotient fits, or saturation.
- **The peripheral.** `IndependentWatchdog` is a class with:
  - the prescaler field `pr` (3 bits) and the reload field `rl` (12 bits);
  - `log`, every write to the register block in program order. It holds
    key-register writes (`Enable`, `Reset`, `Start`) and field writes.
  - Its invariant `Valid` says that every field write happened while the
    fields were unlocked (the last key written was `Enable`), and that the
    fields are locked between operations.
  - `LockFree`, `Setup`, `Start` and `Feed` state their whole new state.
  - `UsPerCycle` and `IntervalMs` decode the current `pr`/`rl` fields back
    into microseconds per tick and milliseconds. They read only those two
    fields, and compute through the pure functions `CycleUs` and `DecodeMs`.

The driver's `u32` arithmetic is written on unbounded integers. The model
requires that no `u32` operation overflows and that no divisor is zero:
- `millis * lsi` at line 99;
- `lsi * 1000` at line 75;
- a non-zero tick rate `lsi * 1000 / division` at line 81;
- `rl * us_per_cycle` at line 70.

The LSI frequency, which the driver reads from the clock tree, is a parameter
(`lsi`, in Hz).

Units, reproduced as written:
- `setup` documents its argument as milliseconds, but line 99 multiplies it
  by the frequency in Hz without dividing by 1000.
- So, short of saturation, a request reads back roughly 1000 times larger.
  `StartOneAt32kHz` shows a request of 1 reading back as 1000 ms. Only the
  upper bound below is proved in general.
- Once the quantization saturates, the decoded interval is the largest one
  representable, whatever the request. At 32 kHz that is every request
  above 32.
- A request of 4000 meant as four seconds at 32 kHz would need a reload near
  500 at `DivideBy256`. The code instead saturates at (6, 0x0FFF) and reads
  back 32760 ms (`StartFourThousandAt32kHz`).
- The decode rounds the tick rate down before dividing by it, so it can
  over-report. It is guaranteed to read at most the true interval when the
  division ratio divides `lsi * 1000` (`DecodeMs`); without that it may
  over-report (see the 867 Hz example below).
- With that divisibility, the decoded interval of the stored pair is at most
  `1000 * millis` (`DecodeWithinThousandfold`). Without it this bound can
  fail: at 867 Hz a request of 1118 reads back 1118130 ms
  (`DecodeOvershootExample`).
- No "decoded interval is at most the request" property is stated, because
  the code does not deliver one. What holds in cycles at the smallest ratio
  is in `QuantizeError`: the pair never asks for more cycles than requested
  and, short of saturation, is within one prescaled step of it.

## Model

| member | source | states |
|---|---|---|
| `Watchdog.DivisionValue` | hal/src/watchdog.rs:15-17 | the ratio `1 << (2 + p)` of prescaler index `p` equals `4 * 2^p`, for every index |
| `Watchdog.DivisionValueRange` | hal/src/watchdog.rs:12-17 | over indices 0..=6 the ratio lies in 4..256, with 4 at `DivideBy4` and 256 at `MAX_PRESCALER` (`DivideBy256`) |
| `Watchdog.DivisionValueDoubles` | hal/src/watchdog.rs:15-17 | each step of the prescaler index exactly doubles the ratio |
| `Watchdog.HalveStep` | hal/src/watchdog.rs:118-121 | halving `n / 2^k` with truncation gives `n / 2^(k+1)`, so repeated halving is one division by `2^psc` |
| `Watchdog.FitsUpward` | hal/src/watchdog.rs:115-121 | once the reload fits the 12-bit field at some prescaler, it fits at every larger one |
| `Watchdog.FirstFit` | hal/src/watchdog.rs:107-118 | the search stops at the least index at which the reload fits, or at index 6, and no earlier index fits |
| `Watchdog.Quantize` | hal/src/watchdog.rs:106-122 | the quantized pair has `psc <= 6` and `reload <= 0x0FFF`, so the 3-bit and 12-bit field writes lose nothing |
| `Watchdog.QuantizeCharacterized` | hal/src/watchdog.rs:106-122 | a pair is a correct quantization (least fitting prescaler with the exact quotient, or saturation at (6, 0x0FFF)) if and only if it is `Quantize`'s |
| `Watchdog.QuantizeSmall` | hal/src/watchdog.rs:99-116 | an initial value already `<= 0x0FFF` gives prescaler 0 with the reload unchanged |
| `Watchdog.QuantizeSaturates` | hal/src/watchdog.rs:108-113 | if `initial / 64 > 0x0FFF` the result is exactly (6, 0x0FFF) |
| `Watchdog.QuantizeClamps` | hal/src/watchdog.rs:108-121 | the reload differs from `initial / 2^psc` if and only if `initial / 64 > 0x0FFF`, the saturation case |
| `Watchdog.QuantizeError` | hal/src/watchdog.rs:101-121 | `reload * 2^psc <= initial`, so the timeout in cycles is never longer than requested; short of saturation `initial < (reload + 1) * 2^psc` |
| `Watchdog.QuantizePrecision` | hal/src/watchdog.rs:101-121 | whenever a prescaler above 0 is chosen the reload exceeds `0x0FFF / 2`, so the upper half of the field is used |
| `Watchdog.QuantizeLoop` | hal/src/watchdog.rs:106-122 | the `setup` loop with invariant `reload == initial / 2^psc` returns exactly `Quantize(initial)`; `psc` rises by one per halving and stops at 6, so at most six halvings run |
| `Watchdog.Applied` | hal/src/watchdog.rs:125-126 | field writes leave values within the 3-bit and 12-bit widths; a field not written keeps its value |
| `Watchdog.WritePair` | hal/src/watchdog.rs:124-127 | writing the prescaler then the reload stores both, each truncated to its field width |
| `Watchdog.GuardedSnoc` | hal/src/watchdog.rs:131-139 | appending one write keeps every field write guarded if and only if a field write finds the fields unlocked |
| `Watchdog.GuardedFieldRun` | hal/src/watchdog.rs:134 | the closure's field writes, made after the unlock key, are all guarded and leave the fields unlocked |
| `Watchdog.BracketKeepsProtocol` | hal/src/watchdog.rs:131-139 | the bracket `Enable`, field writes, `Reset` keeps every field write guarded and leaves the fields locked |
| `Watchdog.KeysOfBracket` | hal/src/watchdog.rs:131-139 | the bracket adds exactly the keys `[Enable, Reset]` to the key sequence |
| `Watchdog.KeyKeepsProtocol` | hal/src/watchdog.rs:154-160 | writing `Start` or `Reset` keeps the log guarded and locks the fields |
| `Watchdog.IndependentWatchdog.constructor` | hal/src/watchdog.rs:40-44 | taking ownership records the current fields, has an empty write log, and satisfies the invariant |
| `Watchdog.IndependentWatchdog.LockFree` | hal/src/watchdog.rs:131-139 | writes `Enable`, applies the closure's field writes, writes `Reset`, and returns the closure's result; keeps the invariant |
| `Watchdog.IndependentWatchdog.Setup` | hal/src/watchdog.rs:96-128 | leaves `pr`/`rl` equal to `Quantize(millis * lsi / 4)`; logs `Enable`, the prescaler write, the reload write, `Reset`, in that order; the keys gain exactly `[Enable, Reset]` |
| `Watchdog.IndependentWatchdog.Start` | hal/src/watchdog.rs:145-155 | `Setup` with the period, then the `Start` key; the keys gain exactly `[Enable, Reset, Start]` |
| `Watchdog.IndependentWatchdog.Feed` | hal/src/watchdog.rs:159-161 | appends exactly one `Reset` key; `pr` and `rl` are unchanged |
| `Watchdog.TickPeriodBounds` | hal/src/watchdog.rs:75-81 | `1_000_000_000 / (lsi*1000 / d)` is at least the exact tick period `1_000_000 * d / lsi` (truncated), and equals it when `d` divides `lsi*1000` |
| `Watchdog.CycleUs` | hal/src/watchdog.rs:73-82 | microseconds per tick at prescaler `p` fit a `u32`, are never below the true tick period `1_000_000 * division / lsi` truncated, and equal it when the division divides `lsi*1000` |
| `Watchdog.DecodeMs` | hal/src/watchdog.rs:64-71 | the decoded milliseconds are never below `r` true tick periods (truncated); when the division divides `lsi*1000`, `ms * lsi <= r * division * 1000`, i.e. never above the true interval of `r` ticks |
| `Watchdog.DecodeWithinThousandfold` | hal/src/watchdog.rs:96-122 | round trip: when the chosen division divides `lsi*1000`, the pair stored for `millis` decodes to at most `1000 * millis` ms |
| `Watchdog.DecodeOvershootExample` | hal/src/watchdog.rs:64-82 | at 867 Hz a request of 1118 stores (6, 3786) and decodes to 1118130 ms, above `1000 * 1118`: without divisibility the round-trip bound fails |
| `Watchdog.IndependentWatchdog.UsPerCycle` | hal/src/watchdog.rs:73-82 | from the current `pr` field: at least the true tick period `1_000_000 * division / lsi` (truncated), and equal to it when the division divides `lsi*1000` |
| `Watchdog.IndependentWatchdog.IntervalMs` | hal/src/watchdog.rs:59-71 | from the current `pr`/`rl` fields only: never below `rl` true tick periods truncated, and, when the division divides `lsi*1000`, never above the configured interval `rl * division * 1000 / lsi` ms |
| `Watchdog.StartFourThousandAt32kHz` | hal/src/watchdog.rs:145-155 | at 32000 Hz, `start(4000)` saturates to (6, 0x0FFF) and `interval_ms` reads back 32760 |
| `Watchdog.StartOneAt32kHz` | hal/src/watchdog.rs:96-99 | at 32000 Hz, `start(1)` chooses (1, 4000) and `interval_ms` reads back 1000: the request is scaled 1000 times |

## Left out

- `stop_on_debug` (lines 46-57): a conditionally compiled read-modify-write of the debug-freeze bits, with no logic.
- `peripheral()` (lines 91-93): an unsafe raw accessor to the register block.
- `Peripherals::steal()` in `start` (line 150): only an ownership escape hatch. Its only use is to reach the clock block, and that is replaced by the `lsi` parameter.
- `lsi_hz`: the clock-tree derivation is not part of this model. The frequency is a parameter.
- The `defmt::Format` implementation (lines 25-30): formatting only.
- PAC encodings: the numeric key values and the bit positions of the fields are not modelled. Keys are an enum and fields are naturals truncated to their width.
- Prescaler field value 7: the PAC's `PR_A` variant for it is not shown. `DivisionValue` is total (it gives 512 for 7, as `1 << 9` does), but `UsPerCycle` and `IntervalMs` require `pr <= 6`. Every write made by the driver is at most 6.
- `u32` overflow and division by zero are not modelled as wrap-around or panic. They are excluded by preconditions on `Setup`, `Start`, `QuantizeLoop`, `UsPerCycle` and `IntervalMs`.
- Watchdog.IndependentWatchdog.LockFree: the closure is modelled as a total function from the current field contents to its result and the field writes it performs. A closure that writes the key register itself, or has other effects, is not modelled. The only closure in the driver writes the two fields.
- The window watchdog and its test harness are not part of this model. Their driver source is not among the modelled files.
