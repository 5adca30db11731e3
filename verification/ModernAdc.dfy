/** What the newer converters share: the window comparison, and what the EA and the 10-bit
    converter have in common. */
module ModernAdc {
  import opened Common

  /** Volts by channel, if a bank of signals is bound. */
  type Signals = Option<nat -> real>

  function Divisor(ctrlb: bv8): (p: nat)
    ensures 2 <= p <= 64
  {
    var table := [2, 4, 6, 8, 10, 12, 14, 16, 20, 24, 28, 32, 40, 48, 56, 64];
    table[(ctrlb & 0x0F) as nat]
  }

  function Reference(ctrlc: bv8): (volts: real)
    ensures volts > 0.0
  {
    match ctrlc & 7
    case 4 => 1.024
    case 5 => 2.048
    case 6 => 4.096
    case 7 => 2.5
    case _ => 5.0
  }

  function Cycles(clocks: int, prescaler: nat): (n: int)
    ensures clocks > 0 && prescaler > 0 ==> n > 0
  {
    clocks * prescaler
  }

  /** The window comparison of mode 1 (below), 2 (above), 3 (inside) or 4 (outside). */
  predicate InWindow(mode: bv8, low: nat, high: nat, value: nat) {
    match mode & 7
    case 1 => value < low
    case 2 => value > high
    case 3 => low <= value <= high
    case 4 => value < low || value > high
    case _ => false
  }

  /** The prescaler rises by 2 up to 16, by 4 up to 32 and by 8 up to 64. */
  lemma DivisorExact(ctrlb: bv8)
    ensures var i := (ctrlb & 0x0F) as nat;
            Divisor(ctrlb) == if i < 8 then 2 * (i + 1) else if i < 12 then 4 * (i - 3) else 8 * (i - 7)
  {
  }

  lemma ReferenceExact(ctrlc: bv8)
    ensures var bits := ctrlc & 7;
            Reference(ctrlc) == if bits == 4 then 1.024 else if bits == 5 then 2.048
                                else if bits == 6 then 4.096 else if bits == 7 then 2.5 else 5.0
  {
  }

  /** Mode 1 is met below, 2 above, 3 within and 4 outside the window. */
  lemma WindowExact(mode: bv8, low: nat, high: nat, value: nat)
    ensures InWindow(mode, low, high, value)
            <==> (mode & 7 == 1 && value < low) || (mode & 7 == 2 && value > high)
                 || (mode & 7 == 3 && value >= low && value <= high)
                 || (mode & 7 == 4 && (value < low || value > high))
  {
  }

  /** Outside is below or above, inside is the opposite, and the other modes match nothing. */
  lemma WindowModes(mode: bv8, low: nat, high: nat, value: nat)
    ensures InWindow(4, low, high, value) <==> InWindow(1, low, high, value) || InWindow(2, low, high, value)
    ensures InWindow(3, low, high, value) <==> !InWindow(4, low, high, value)
    ensures mode & 7 == 0 || mode & 7 > 4 ==> !InWindow(mode, low, high, value)
  {
  }

  /** A sixteen-bit register after a write of its low or of its high byte. */
  function WithLow(word: nat, value: bv8): (r: nat)
    ensures word < 0x10000 ==> r < 0x10000
  {
    word / 256 * 256 + value as nat
  }

  function WithHigh(word: nat, value: bv8): (r: nat)
    ensures r < 0x10000
  {
    word % 256 + 256 * value as nat
  }

  lemma WordBytes(word: nat, value: bv8)
    ensures WithLow(word, value) % 256 == value as nat && WithLow(word, value) / 256 == word / 256
    ensures WithHigh(word, value) % 256 == word % 256 && WithHigh(word, value) / 256 == value as nat
  {
  }
}
