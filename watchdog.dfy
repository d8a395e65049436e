/**
 * Model of the independent watchdog (IWDG) driver: the division table of the
 * prescaler, the quantization of a requested timeout into a (prescaler,
 * reload) pair, the decode of those register fields back into milliseconds,
 * and the key-register protocol around the protected registers.
 *
 * Machine integers are `u32` in the driver; the model uses `nat` and states
 * the absence of overflow and of division by zero as preconditions.
 */
module Watchdog {

  // ---------------------------------------------------------------------
  // Constants and the division table
  // ---------------------------------------------------------------------

  /** Index of `DivideBy256`, the widest prescaler. */
  const MAX_PRESCALER: nat := 6
  /** Largest value of the 12-bit reload field. */
  const MAX_RELOAD: nat := 0x0FFF
  /** One past the largest `u32`. */
  const U32_LIMIT: nat := 0x1_0000_0000
  /** One past the largest `u16` (the `as u16` cast before the reload write). */
  const U16_LIMIT: nat := 0x1_0000
  /** The prescaler field is 3 bits wide, the reload field 12 bits wide. */
  const PR_FIELD_LIMIT: nat := 8
  const RL_FIELD_LIMIT: nat := 0x1000
  /** Scale factors of the decode: the LSI frequency is scaled to millihertz. */
  const FREQ_SCALE: nat := 1000
  const US_SCALED: nat := 1_000_000_000

  function Pow2(n: nat): (r: nat)
    ensures r >= 1
  {
    if n == 0 then 1 else 2 * Pow2(n - 1)
  }

  lemma {:induction false} Pow2Monotone(a: nat, b: nat)
    requires a <= b
    ensures Pow2(a) <= Pow2(b)
  {
    if a < b {
      Pow2Monotone(a, b - 1);
    }
  }

  /** The division ratio of prescaler index `p`, computed as `1 << (2 + p)`. */
  function DivisionValue(p: nat): (d: nat)
    ensures d == 4 * Pow2(p)
  {
    assert Pow2(2 + p) == 2 * Pow2(1 + p);
    Pow2(2 + p)
  }

  /** The table spans 4 (`DivideBy4`) to 256 (`DivideBy256`). */
  lemma DivisionValueRange(p: nat)
    requires p <= MAX_PRESCALER
    ensures DivisionValue(0) == 4 && DivisionValue(MAX_PRESCALER) == 256
    ensures 4 <= DivisionValue(p) <= 256
  {
    Pow2Monotone(p, MAX_PRESCALER);
    assert Pow2(MAX_PRESCALER) == 64;
  }

  /** Each step of the prescaler index exactly doubles the division ratio. */
  lemma DivisionValueDoubles(p: nat)
    requires p < MAX_PRESCALER
    ensures DivisionValue(p + 1) == 2 * DivisionValue(p)
  {
  }

  // ---------------------------------------------------------------------
  // Timeout quantization
  // ---------------------------------------------------------------------

  /** A (prescaler index, reload count) pair. */
  datatype Config = Config(psc: nat, reload: nat)

  /** The reload value at prescaler `p` fits the 12-bit reload field. */
  predicate Fits(initial: nat, p: nat) {
    initial / Pow2(p) <= MAX_RELOAD
  }

  lemma MulLeMono(a: nat, b: nat, c: nat)
    requires b <= c
    ensures a * b <= a * c
  {
    assert a * c == a * b + a * (c - b);
  }

  /** A nonzero multiple of `d` is at least `d` away from zero. */
  lemma MulAwayFromZero(d: int, x: int)
    requires d > 0
    ensures x >= 1 ==> d * x >= d
    ensures x <= -1 ==> d * x <= -d
  {
    if x >= 1 {
      assert d * x == d + d * (x - 1);
    } else if x <= -1 {
      assert d * x == -d + d * (x + 1);
    }
  }

  lemma DivUnique(n: nat, d: nat, q: nat, r: nat)
    requires d > 0 && n == d * q + r && r < d
    ensures n / d == q && n % d == r
  {
    var q', r' := n / d, n % d;
    assert n == d * q' + r';
    assert d * (q' - q) == r - r';
    MulAwayFromZero(d, q' - q);
  }

  /** Halving truncates the same way as dividing by the next power of two. */
  lemma HalveStep(n: nat, k: nat)
    ensures n / Pow2(k) / 2 == n / Pow2(k + 1)
  {
    var a := Pow2(k);
    var q, r := n / a, n % a;
    var h, b := q / 2, q % 2;
    assert n == a * q + r;
    assert q == 2 * h + b;
    assert a * q == (2 * a) * h + a * b;
    assert b == 0 || b == 1;
    assert a * b <= a by {
      if b == 1 {
        assert a * b == a;
      } else {
        assert a * b == 0;
      }
    }
    DivUnique(n, 2 * a, h, a * b + r);
  }

  /** Once the reload fits at some prescaler it fits at every larger one. */
  lemma {:induction false} FitsUpward(initial: nat, p: nat, q: nat)
    requires p <= q
    requires Fits(initial, p)
    ensures Fits(initial, q)
  {
    if p < q {
      FitsUpward(initial, p, q - 1);
      HalveStep(initial, q - 1);
    }
  }

  /** The least index from `p` on at which the reload fits, or the widest prescaler. */
  function FirstFit(initial: nat, p: nat): (q: nat)
    requires p <= MAX_PRESCALER
    ensures p <= q <= MAX_PRESCALER
    ensures q < MAX_PRESCALER ==> Fits(initial, q)
    ensures forall k :: p <= k < q ==> !Fits(initial, k)
    decreases MAX_PRESCALER - p
  {
    if p == MAX_PRESCALER || Fits(initial, p) then p else FirstFit(initial, p + 1)
  }

  /**
   * Reference definition of the quantization of `initial` (the cycle count at
   * the smallest division ratio): the least prescaler at which the reload fits,
   * with the reload clamped to the field maximum at the widest prescaler.
   */
  function Quantize(initial: nat): (c: Config)
    ensures c.psc <= MAX_PRESCALER && c.reload <= MAX_RELOAD
  {
    var p := FirstFit(initial, 0);
    var reload := initial / Pow2(p);
    Config(p, if reload > MAX_RELOAD then MAX_RELOAD else reload)
  }

  /** The declarative description of a correct quantization of `initial`. */
  ghost predicate IsQuantization(initial: nat, c: Config) {
    && c.psc <= MAX_PRESCALER
    && (forall q :: 0 <= q < c.psc ==> !Fits(initial, q))
    && (Fits(initial, c.psc) ==> c.reload == initial / Pow2(c.psc))
    && (!Fits(initial, c.psc) ==> c.psc == MAX_PRESCALER && c.reload == MAX_RELOAD)
  }

  /** `Quantize` is the one and only pair meeting the declarative description. */
  lemma QuantizeCharacterized(initial: nat, c: Config)
    ensures IsQuantization(initial, c) <==> c == Quantize(initial)
  {
    var p := FirstFit(initial, 0);
    if IsQuantization(initial, c) {
      if c.psc != p {
        assert false;
      }
    }
  }

  /** A value that already fits needs no prescaling and is kept as it is. */
  lemma QuantizeSmall(initial: nat)
    requires initial <= MAX_RELOAD
    ensures Quantize(initial) == Config(0, initial)
  {
  }

  /** Saturation: beyond the widest prescaler the pair is exactly (6, 0x0FFF). */
  lemma QuantizeSaturates(initial: nat)
    requires initial / Pow2(MAX_PRESCALER) > MAX_RELOAD
    ensures Quantize(initial) == Config(MAX_PRESCALER, MAX_RELOAD)
  {
    assert Pow2(MAX_PRESCALER) == 64;
    var p := FirstFit(initial, 0);
    if Fits(initial, p) {
      FitsUpward(initial, p, MAX_PRESCALER);
    }
  }

  /** The reload is clamped, rather than the exact quotient, exactly when saturating. */
  lemma QuantizeClamps(initial: nat)
    ensures Quantize(initial).reload != initial / Pow2(Quantize(initial).psc)
            <==> initial / 64 > MAX_RELOAD
  {
    assert Pow2(MAX_PRESCALER) == 64;
    var p := FirstFit(initial, 0);
    if initial / 64 > MAX_RELOAD && Fits(initial, p) {
      FitsUpward(initial, p, MAX_PRESCALER);
    }
  }

  /**
   * The quantized pair never asks for more cycles than `initial`, and short of
   * saturation it is less than one prescaled step below it.
   */
  lemma QuantizeError(initial: nat)
    ensures Quantize(initial).reload * Pow2(Quantize(initial).psc) <= initial
    ensures initial / 64 <= MAX_RELOAD ==>
              initial < (Quantize(initial).reload + 1) * Pow2(Quantize(initial).psc)
  {
    var c := Quantize(initial);
    QuantizeClamps(initial);
    FloorBounds(initial, Pow2(c.psc), c.reload);
  }

  /** Any `x` at most `n / a` has `x * a <= n`, and `n` is below the next multiple of `a`. */
  lemma FloorBounds(n: nat, a: nat, x: nat)
    requires a > 0 && x <= n / a
    ensures x * a <= n
    ensures x == n / a ==> n < (x + 1) * a
  {
    var exact := n / a;
    assert n == a * exact + n % a;
    MulLeMono(a, x, exact);
    assert (exact + 1) * a == a * exact + a;
  }

  /** When a prescaler was needed the reload still uses the upper half of its field. */
  lemma QuantizePrecision(initial: nat)
    requires Quantize(initial).psc > 0
    ensures Quantize(initial).reload > MAX_RELOAD / 2
  {
    var c := Quantize(initial);
    assert !Fits(initial, c.psc - 1);
    HalveStep(initial, c.psc - 1);
  }

  /**
   * The prescaler search of the driver's `setup`: starting from `initial`,
   * raise the prescaler and halve the reload until it fits, clamping at the
   * widest prescaler. Each iteration halves once, so at most six halvings run.
   */
  method QuantizeLoop(initial: nat) returns (psc: nat, reload: nat)
    requires initial < U32_LIMIT
    ensures Config(psc, reload) == Quantize(initial)
  {
    reload := initial;
    psc := 0;
    while true
      invariant psc <= MAX_PRESCALER
      invariant reload == initial / Pow2(psc)
      invariant forall q :: 0 <= q < psc ==> !Fits(initial, q)
      decreases MAX_PRESCALER - psc
    {
      if psc >= MAX_PRESCALER {
        if reload > MAX_RELOAD {
          reload := MAX_RELOAD;
        }
        QuantizeCharacterized(initial, Config(psc, reload));
        break;
      }
      if reload <= MAX_RELOAD {
        QuantizeCharacterized(initial, Config(psc, reload));
        break;
      }
      HalveStep(initial, psc);
      psc := psc + 1;
      reload := reload / 2;
    }
  }

  // ---------------------------------------------------------------------
  // Decode of the register fields
  // ---------------------------------------------------------------------

  /** From `a * c <= b * c` with `c > 0`, `a <= b`. */
  lemma MulLeCancel(a: nat, b: nat, c: nat)
    requires c > 0 && a * c <= b * c
    ensures a <= b
  {
    assert c * (a - b) == a * c - b * c;
    MulAwayFromZero(c, a - b);
  }

  /** Truncating division by `k` is monotone. */
  lemma DivMonotone(x: nat, y: nat, k: nat)
    requires x <= y && k > 0
    ensures x / k <= y / k
  {
    FloorBounds(x, k, x / k);
    FloorBounds(y, k, y / k);
    assert k * (x / k - y / k) == (x / k) * k - (y / k) * k;
    MulAwayFromZero(k, x / k - y / k);
  }

  /**
   * With `tick` the truncated tick rate `lsi * 1000 / d` (in millihertz) and
   * `us` the truncated `1_000_000_000 / tick`, `us` is at least the exact
   * period `1_000_000 * d / lsi` truncated, and equal to it when `d` divides
   * `lsi * 1000`.
   */
  lemma TickPeriodBounds(lsi: nat, d: nat, tick: nat, us: nat)
    requires d > 0 && tick == lsi * FREQ_SCALE / d && tick > 0 && us == US_SCALED / tick
    ensures lsi > 0 && us <= US_SCALED
    ensures us >= 1_000_000 * d / lsi
    ensures (lsi * FREQ_SCALE) % d == 0 ==> us == 1_000_000 * d / lsi
  {
    FloorBounds(lsi * FREQ_SCALE, d, tick);
    assert lsi > 0;
    FloorBounds(US_SCALED, tick, us);
    MulLeMono(us, 1, tick);
    var m := 1_000_000 * d / lsi;
    FloorBounds(1_000_000 * d, lsi, m);
    // m * tick <= 1e9, so m <= us
    MulLeMono(m, tick * d, lsi * FREQ_SCALE);
    assert m * (lsi * FREQ_SCALE) == FREQ_SCALE * (m * lsi);
    MulLeMono(FREQ_SCALE, m * lsi, 1_000_000 * d);
    assert (m * tick) * d == m * (tick * d);
    assert (m * tick) * d <= US_SCALED * d;
    MulLeCancel(m * tick, US_SCALED, d);
    MulLeCancel(m, us + 1, tick);
    if m == us + 1 {
      assert false;
    }
    if (lsi * FREQ_SCALE) % d == 0 {
      assert tick * d == lsi * FREQ_SCALE;
      // us * tick <= 1e9, so us * lsi <= 1e6 * d, so us <= m
      MulLeMono(d, us * tick, US_SCALED);
      assert d * (us * tick) == FREQ_SCALE * (us * lsi);
      assert FREQ_SCALE * (us * lsi) <= FREQ_SCALE * (1_000_000 * d);
      MulLeCancel(us * lsi, 1_000_000 * d, FREQ_SCALE);
      MulLeCancel(us, m + 1, lsi);
      if us == m + 1 {
        assert false;
      }
    }
  }

  /** Microseconds per counter tick at prescaler `p`, as `us_per_cycle` computes it. */
  function CycleUs(lsi: nat, p: nat): (us: nat)
    requires p <= MAX_PRESCALER
    requires lsi * FREQ_SCALE < U32_LIMIT
    requires lsi * FREQ_SCALE / DivisionValue(p) > 0
    ensures lsi > 0 && us < U32_LIMIT
    ensures us >= 1_000_000 * DivisionValue(p) / lsi
    ensures (lsi * FREQ_SCALE) % DivisionValue(p) == 0 ==> us == 1_000_000 * DivisionValue(p) / lsi
  {
    var tick := lsi * FREQ_SCALE / DivisionValue(p);
    TickPeriodBounds(lsi, DivisionValue(p), tick, US_SCALED / tick);
    US_SCALED / tick
  }

  /** `us_per_cycle` scaled by the reload and truncated to milliseconds. */
  lemma DecodeBounds(lsi: nat, d: nat, r: nat, us: nat)
    requires lsi > 0 && us >= 1_000_000 * d / lsi
    ensures r * us / 1000 >= r * (1_000_000 * d / lsi) / 1000
    ensures us == 1_000_000 * d / lsi ==> (r * us / 1000) * lsi <= r * d * 1000
  {
    var m := 1_000_000 * d / lsi;
    MulLeMono(r, m, us);
    DivMonotone(r * m, r * us, 1000);
    if us == m {
      var ms := r * us / 1000;
      FloorBounds(r * us, 1000, ms);
      FloorBounds(1_000_000 * d, lsi, m);
      MulLeMono(ms * 1000, 1, lsi);
      MulLeMono(lsi, ms * 1000, r * us);
      assert lsi * (r * us) == r * (m * lsi);
      MulLeMono(r, m * lsi, 1_000_000 * d);
      assert (ms * lsi) * 1000 == lsi * (ms * 1000);
      assert (r * d * 1000) * 1000 == r * (1_000_000 * d);
      MulLeCancel(ms * lsi, r * d * 1000, 1000);
    }
  }

  /**
   * The interval in milliseconds that reload `r` at prescaler `p` decodes to:
   * never below `r` exact tick periods truncated; when the division ratio
   * divides `lsi * 1000`, never above the true interval `r * d * 1000 / lsi`.
   */
  function DecodeMs(lsi: nat, p: nat, r: nat): (ms: nat)
    requires p <= MAX_PRESCALER
    requires lsi * FREQ_SCALE < U32_LIMIT
    requires lsi * FREQ_SCALE / DivisionValue(p) > 0
    requires r * CycleUs(lsi, p) < U32_LIMIT
    ensures ms >= r * (1_000_000 * DivisionValue(p) / lsi) / 1000
    ensures (lsi * FREQ_SCALE) % DivisionValue(p) == 0 ==> ms * lsi <= r * DivisionValue(p) * 1000
  {
    DecodeBounds(lsi, DivisionValue(p), r, CycleUs(lsi, p));
    r * CycleUs(lsi, p) / 1000
  }

  /**
   * Round trip: when the chosen division ratio divides `lsi * 1000`, the pair
   * that `setup` stores for `millis` decodes to at most `1000 * millis` ms.
   */
  lemma DecodeWithinThousandfold(millis: nat, lsi: nat)
    requires lsi < U32_LIMIT && millis * lsi < U32_LIMIT
    requires lsi * FREQ_SCALE < U32_LIMIT
    requires lsi * FREQ_SCALE / DivisionValue(Quantize(millis * lsi / DivisionValue(0)).psc) > 0
    requires (lsi * FREQ_SCALE) % DivisionValue(Quantize(millis * lsi / DivisionValue(0)).psc) == 0
    requires Quantize(millis * lsi / DivisionValue(0)).reload
             * CycleUs(lsi, Quantize(millis * lsi / DivisionValue(0)).psc) < U32_LIMIT
    ensures DecodeMs(lsi, Quantize(millis * lsi / DivisionValue(0)).psc,
                     Quantize(millis * lsi / DivisionValue(0)).reload) <= 1000 * millis
  {
    var initial := millis * lsi / DivisionValue(0);
    var c := Quantize(initial);
    QuantizeError(initial);
    ThousandfoldArith(millis, lsi, c.reload, Pow2(c.psc), DivisionValue(c.psc),
                      DecodeMs(lsi, c.psc, c.reload));
  }

  /** The arithmetic of the round trip, on plain numbers. */
  lemma ThousandfoldArith(millis: nat, lsi: nat, reload: nat, step: nat, d: nat, ms: nat)
    requires lsi > 0 && d == 4 * step
    requires reload * step <= millis * lsi / 4
    requires ms * lsi <= reload * d * 1000
    ensures ms <= 1000 * millis
  {
    var initial := millis * lsi / 4;
    FloorBounds(millis * lsi, 4, initial);
    MulLeMono(4, reload * step, initial);
    assert reload * d == 4 * (reload * step);
    MulLeMono(1000, reload * d, millis * lsi);
    assert ms * lsi <= (1000 * millis) * lsi;
    MulLeCancel(ms, 1000 * millis, lsi);
  }

  /**
   * Without that divisibility the decode can exceed the thousandfold request:
   * at 867 Hz a request of 1118 stores (6, 3786) and reads back 1118130 ms.
   */
  lemma DecodeOvershootExample()
    ensures Quantize(1118 * 867 / DivisionValue(0)) == Config(6, 3786)
    ensures CycleUs(867, 6) == 295333
    ensures DecodeMs(867, 6, 3786) == 1118130 > 1000 * 1118
  {
    var initial := 1118 * 867 / DivisionValue(0);
    assert initial == 242326;
    assert Pow2(1) == 2 && Pow2(2) == 4 && Pow2(3) == 8 && Pow2(4) == 16 && Pow2(5) == 32 && Pow2(6) == 64;
    assert !Fits(initial, 0) && !Fits(initial, 1) && !Fits(initial, 2);
    assert !Fits(initial, 3) && !Fits(initial, 4) && !Fits(initial, 5) && Fits(initial, 6);
    QuantizeCharacterized(initial, Config(6, 3786));
    assert DivisionValue(6) == 256;
  }

  // ---------------------------------------------------------------------
  // The register block and the key-register protocol
  // ---------------------------------------------------------------------

  /** The values the key register accepts: unlock, refresh (re-lock), start. */
  datatype Key = Enable | Reset | Start

  /** A write to one of the protected fields. */
  datatype FieldWrite = Prescaler(bits: nat) | Reload(bits: nat)

  /** One write to the register block, in program order. */
  datatype Access = KeyWrite(key: Key) | Field(write: FieldWrite)

  /** The readable contents of the protected fields. */
  datatype Registers = Registers(pr: nat, rl: nat)

  /** The field contents after `ws`, each value truncated to its field's width. */
  function Applied(regs: Registers, ws: seq<FieldWrite>): (after: Registers)
    requires regs.pr < PR_FIELD_LIMIT && regs.rl < RL_FIELD_LIMIT
    ensures after.pr < PR_FIELD_LIMIT && after.rl < RL_FIELD_LIMIT
    ensures (forall i :: 0 <= i < |ws| ==> !ws[i].Prescaler?) ==> after.pr == regs.pr
    ensures (forall i :: 0 <= i < |ws| ==> !ws[i].Reload?) ==> after.rl == regs.rl
    decreases |ws|
  {
    if ws == [] then regs
    else
      var next := match ws[0]
        case Prescaler(b) => regs.(pr := b % PR_FIELD_LIMIT)
        case Reload(b) => regs.(rl := b % RL_FIELD_LIMIT);
      Applied(next, ws[1..])
  }

  /** The accesses that `ws` adds to the log. */
  function Logged(ws: seq<FieldWrite>): (log: seq<Access>)
    ensures |log| == |ws|
  {
    if ws == [] then [] else [Field(ws[0])] + Logged(ws[1..])
  }

  /** The sequence of keys written, in order. */
  function Keys(log: seq<Access>): seq<Key> {
    if log == [] then []
    else if log[0].KeyWrite? then [log[0].key] + Keys(log[1..])
    else Keys(log[1..])
  }

  lemma {:induction false} KeysAppend(a: seq<Access>, b: seq<Access>)
    ensures Keys(a + b) == Keys(a) + Keys(b)
  {
    if a != [] {
      assert (a + b)[0] == a[0];
      assert (a + b)[1..] == a[1..] + b;
      KeysAppend(a[1..], b);
    } else {
      assert a + b == b;
    }
  }

  /** Field writes add no key to the log. */
  lemma {:induction false} KeysOfLogged(ws: seq<FieldWrite>)
    ensures Keys(Logged(ws)) == []
  {
    if ws != [] {
      KeysOfLogged(ws[1..]);
    }
  }

  /** The protected fields are writable: the last key written was `Enable`. */
  predicate Unlocked(log: seq<Access>)
    decreases |log|
  {
    if log == [] then false
    else match log[|log| - 1]
      case KeyWrite(k) => k == Enable
      case Field(_) => Unlocked(log[..|log| - 1])
  }

  /** Every field write in `log` happened while the fields were unlocked. */
  ghost predicate Guarded(log: seq<Access>) {
    forall i :: 0 <= i < |log| && log[i].Field? ==> Unlocked(log[..i])
  }

  /** Appending one access keeps the log guarded iff a field write finds it unlocked. */
  lemma GuardedSnoc(log: seq<Access>, a: Access)
    ensures Guarded(log + [a]) <==> Guarded(log) && (a.Field? ==> Unlocked(log))
  {
    var ext := log + [a];
    assert ext[..|log|] == log;
    forall i | 0 <= i < |log|
      ensures ext[..i] == log[..i] && ext[i] == log[i]
    {
    }
  }

  /** A run of field writes on an unlocked, guarded log keeps it both. */
  lemma {:induction false} GuardedFieldRun(log: seq<Access>, ws: seq<FieldWrite>)
    requires Guarded(log) && Unlocked(log)
    ensures Guarded(log + Logged(ws)) && Unlocked(log + Logged(ws))
    decreases |ws|
  {
    if ws != [] {
      var next := log + [Field(ws[0])];
      GuardedSnoc(log, Field(ws[0]));
      assert next[..|next| - 1] == log;
      assert Unlocked(next);
      GuardedFieldRun(next, ws[1..]);
      calc {
        log + Logged(ws);
        log + ([Field(ws[0])] + Logged(ws[1..]));
        next + Logged(ws[1..]);
      }
    } else {
      assert log + Logged(ws) == log;
    }
  }

  /**
   * The bracket written by `LockFree` (unlock, field writes, refresh) keeps a
   * guarded log guarded and leaves the fields locked.
   */
  lemma BracketKeepsProtocol(log: seq<Access>, ws: seq<FieldWrite>)
    requires Guarded(log)
    ensures Guarded(log + [KeyWrite(Enable)] + Logged(ws) + [KeyWrite(Reset)])
    ensures !Unlocked(log + [KeyWrite(Enable)] + Logged(ws) + [KeyWrite(Reset)])
  {
    var afterUnlock := log + [KeyWrite(Enable)];
    GuardedSnoc(log, KeyWrite(Enable));
    GuardedFieldRun(afterUnlock, ws);
    GuardedSnoc(afterUnlock + Logged(ws), KeyWrite(Reset));
  }

  /** The bracket adds exactly the keys `Enable` and `Reset`, in that order. */
  lemma KeysOfBracket(log: seq<Access>, ws: seq<FieldWrite>)
    ensures Keys(log + [KeyWrite(Enable)] + Logged(ws) + [KeyWrite(Reset)]) == Keys(log) + [Enable, Reset]
  {
    KeysAppend(log, [KeyWrite(Enable)]);
    KeysAppend(log + [KeyWrite(Enable)], Logged(ws));
    KeysAppend(log + [KeyWrite(Enable)] + Logged(ws), [KeyWrite(Reset)]);
    KeysOfLogged(ws);
  }

  /** Writing a prescaler and then a reload stores both, truncated to their fields. */
  lemma WritePair(regs: Registers, p: nat, r: nat)
    requires regs.pr < PR_FIELD_LIMIT && regs.rl < RL_FIELD_LIMIT
    ensures Applied(regs, [Prescaler(p), Reload(r)]) == Registers(p % PR_FIELD_LIMIT, r % RL_FIELD_LIMIT)
    ensures Logged([Prescaler(p), Reload(r)]) == [Field(Prescaler(p)), Field(Reload(r))]
  {
    var ws := [Prescaler(p), Reload(r)];
    assert ws[1..][1..] == [];
  }

  /** Writing a key other than `Enable` keeps a guarded log guarded and locks it. */
  lemma KeyKeepsProtocol(log: seq<Access>, k: Key)
    requires Guarded(log) && k != Enable
    ensures Guarded(log + [KeyWrite(k)]) && !Unlocked(log + [KeyWrite(k)])
  {
    GuardedSnoc(log, KeyWrite(k));
  }

  /** The independent watchdog peripheral as the driver sees it. */
  class IndependentWatchdog {
    /** Prescaler field (3 bits). */
    var pr: nat
    /** Reload field (12 bits). */
    var rl: nat
    /** Every write to the register block since the driver took ownership. */
    var log: seq<Access>

    /** The fields hold values of their width; field writes were unlocked; the fields are locked at rest. */
    ghost predicate Valid()
      reads this
    {
      && pr < PR_FIELD_LIMIT
      && rl < RL_FIELD_LIMIT
      && Guarded(log)
      && !Unlocked(log)
    }

    /** Take ownership of the peripheral, whose fields hold `pr0` and `rl0`. */
    constructor (pr0: nat, rl0: nat)
      requires pr0 < PR_FIELD_LIMIT && rl0 < RL_FIELD_LIMIT
      ensures Valid()
      ensures pr == pr0 && rl == rl0 && log == []
    {
      pr, rl, log := pr0, rl0, [];
    }

    /**
     * Unlock the protected fields, run `f` on them, refresh the key register
     * and return `f`'s result. `f` sees the current fields and yields its result
     * together with the field writes it performs.
     */
    method LockFree<R>(f: Registers -> (R, seq<FieldWrite>)) returns (res: R)
      requires Valid()
      modifies this
      ensures Valid()
      ensures res == f(old(Registers(pr, rl))).0
      ensures Registers(pr, rl) == Applied(old(Registers(pr, rl)), f(old(Registers(pr, rl))).1)
      ensures log == old(log) + [KeyWrite(Enable)] + Logged(f(old(Registers(pr, rl))).1) + [KeyWrite(Reset)]
      ensures Keys(log) == Keys(old(log)) + [Enable, Reset]
    {
      BracketKeepsProtocol(log, f(Registers(pr, rl)).1);
      KeysOfBracket(log, f(Registers(pr, rl)).1);
      log := log + [KeyWrite(Enable)];
      var out := f(Registers(pr, rl));
      var after := Applied(Registers(pr, rl), out.1);
      pr, rl := after.pr, after.rl;
      log := log + Logged(out.1);
      log := log + [KeyWrite(Reset)];
      res := out.0;
    }

    /**
     * Quantize `millis * lsi / 4` and write the pair through `LockFree`:
     * the prescaler, then the reload cast to 16 bits.
     */
    method Setup(lsi: nat, millis: nat)
      requires Valid()
      requires lsi < U32_LIMIT && millis * lsi < U32_LIMIT
      modifies this
      ensures Valid()
      ensures Config(pr, rl) == Quantize(millis * lsi / DivisionValue(0))
      ensures log == old(log) + [KeyWrite(Enable), Field(Prescaler(pr)), Field(Reload(rl)), KeyWrite(Reset)]
      ensures Keys(log) == Keys(old(log)) + [Enable, Reset]
    {
      var psc, reload := QuantizeLoop(millis * lsi / DivisionValue(0));
      var writes := [Prescaler(psc), Reload(reload % U16_LIMIT)];
      WritePair(Registers(pr, rl), psc, reload % U16_LIMIT);
      var _ := LockFree((regs: Registers) => ((), writes));
    }

    /** `start`: configure the timeout, then write the start key. */
    method Start(lsi: nat, period: nat)
      requires Valid()
      requires lsi < U32_LIMIT && period * lsi < U32_LIMIT
      modifies this
      ensures Valid()
      ensures Config(pr, rl) == Quantize(period * lsi / DivisionValue(0))
      ensures log == old(log) + [KeyWrite(Enable), Field(Prescaler(pr)), Field(Reload(rl)),
                                 KeyWrite(Reset), KeyWrite(Key.Start)]
      ensures Keys(log) == Keys(old(log)) + [Enable, Reset, Key.Start]
    {
      Setup(lsi, period);
      ghost var before := log;
      KeyKeepsProtocol(log, Key.Start);
      log := log + [KeyWrite(Key.Start)];
      KeysAppend(before, [KeyWrite(Key.Start)]);
    }

    /** `feed`: write the refresh key; the fields are untouched. */
    method Feed()
      requires Valid()
      modifies this`log
      ensures Valid()
      ensures pr == old(pr) && rl == old(rl)
      ensures log == old(log) + [KeyWrite(Reset)]
      ensures Keys(log) == Keys(old(log)) + [Reset]
    {
      ghost var before := log;
      KeyKeepsProtocol(log, Reset);
      log := log + [KeyWrite(Reset)];
      KeysAppend(before, [KeyWrite(Reset)]);
    }

    /**
     * `us_per_cycle`: microseconds per counter tick at the division ratio
     * currently in the prescaler field.
     */
    function UsPerCycle(lsi: nat): (us: nat)
      reads this`pr
      requires pr <= MAX_PRESCALER
      requires lsi * FREQ_SCALE < U32_LIMIT
      requires lsi * FREQ_SCALE / DivisionValue(pr) > 0
      ensures us == CycleUs(lsi, pr)
      ensures us >= 1_000_000 * DivisionValue(pr) / lsi
      ensures (lsi * FREQ_SCALE) % DivisionValue(pr) == 0 ==> us == 1_000_000 * DivisionValue(pr) / lsi
    {
      CycleUs(lsi, pr)
    }

    /**
     * `interval_ms`: the configured interval in milliseconds, decoded from the
     * current prescaler and reload fields only.
     */
    function IntervalMs(lsi: nat): (ms: nat)
      reads this`pr, this`rl
      requires pr <= MAX_PRESCALER
      requires lsi * FREQ_SCALE < U32_LIMIT
      requires lsi * FREQ_SCALE / DivisionValue(pr) > 0
      requires rl * UsPerCycle(lsi) < U32_LIMIT
      ensures ms == DecodeMs(lsi, pr, rl)
      ensures ms >= rl * (1_000_000 * DivisionValue(pr) / lsi) / 1000
      ensures (lsi * FREQ_SCALE) % DivisionValue(pr) == 0 ==> ms * lsi <= rl * DivisionValue(pr) * 1000
    {
      DecodeMs(lsi, pr, rl)
    }
  }

  // ---------------------------------------------------------------------
  // Scenarios of the arithmetic as written
  // ---------------------------------------------------------------------

  /**
   * At 32 kHz a request of 4000 saturates the quantization and reads back as
   * 32760 ms: the request is scaled as if it were in seconds.
   */
  method StartFourThousandAt32kHz() returns (ms: nat)
    ensures ms == 32760
  {
    var w := new IndependentWatchdog(0, MAX_RELOAD);
    assert Pow2(MAX_PRESCALER) == 64;
    QuantizeSaturates(4000 * 32000 / DivisionValue(0));
    w.Start(32000, 4000);
    assert w.pr == 6 && w.rl == 0x0FFF;
    assert DivisionValue(w.pr) == 256;
    ms := w.IntervalMs(32000);
  }

  /** At 32 kHz a request of 1 reads back as 1000 ms. */
  method StartOneAt32kHz() returns (ms: nat)
    ensures ms == 1000
  {
    var w := new IndependentWatchdog(0, MAX_RELOAD);
    w.Start(32000, 1);
    assert Pow2(1) == 2 && !Fits(8000, 0) && Fits(8000, 1);
    QuantizeCharacterized(8000, Config(1, 4000));
    assert w.pr == 1 && w.rl == 4000;
    assert DivisionValue(w.pr) == 8;
    ms := w.IntervalMs(32000);
  }
}
