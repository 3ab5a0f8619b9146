/** The PIO programs of the bmc directory: a cycle-level interpreter of the instructions they use, and the
    listings of all four rates, which differ only in their delays. */
module Pio {

  datatype Op =
    | SetPins(level: bool)
    | Pull
    | MovYOsr
    | FlipPins
    | OutX
    | JmpNotX(dest: nat)
    | JmpNotOsre(dest: nat)
    | JmpYDec(dest: nat)
    | JmpPin(dest: nat)
    | Jmp(dest: nat)
    | Nop
    | Irq
    | InNull
    | InX
    | WaitPin(level: bool)

  /** An instruction and its delay cycles. */
  datatype Instr = Instr(op: Op, delay: nat)

  /** Cycle counts of one rate: the delays of the three timed TX instructions and of the RX settling
      nop, and whether the RX program spends one more nop after the start of packet. */
  datatype Rate = Rate(first: nat, second: nat, zero: nat, settle: nat, sopNop: bool)

  const STD: Rate := Rate(5, 5, 6, 9, false)
  const MID12: Rate := Rate(3, 3, 4, 6, true)
  const MID10: Rate := Rate(2, 2, 3, 4, true)
  const FAST: Rate := Rate(1, 1, 2, 3, true)

  datatype Program = Tx(rate: Rate) | Rx(rate: Rate)

  function TxInstr(r: Rate, pc: nat): Instr {
    if pc == 0 then Instr(SetPins(true), 0) // idle
    else if pc == 1 then Instr(Pull, 0)
    else if pc == 2 then Instr(MovYOsr, 0)
    else if pc == 3 then Instr(Pull, 0) // word_loop
    else if pc == 4 then Instr(FlipPins, 0) // bit_loop
    else if pc == 5 then Instr(OutX, 0)
    else if pc == 6 then Instr(JmpNotX(9), r.first)
    else if pc == 7 then Instr(FlipPins, r.second)
    else if pc == 8 then Instr(Jmp(10), 0)
    else if pc == 9 then Instr(Nop, r.zero) // is_zero
    else if pc == 10 then Instr(JmpNotOsre(4), 0) // check_bit
    else if pc == 11 then Instr(JmpYDec(3), 0)
    else if pc == 12 then Instr(SetPins(true), 0)
    else Instr(Irq, 0)
  }

  /** base is the address of was_low: 1, or 2 with the extra nop. */
  function RxInstr(r: Rate, pc: nat): Instr {
    var base := if r.sopNop then 2 else 1;
    if pc == 0 then Instr(WaitPin(false), 0) // wait_sop
    else if pc < base then Instr(Nop, 0)
    else if pc == base then Instr(Nop, r.settle) // was_low
    else if pc == base + 1 then Instr(JmpPin(base + 5), 0)
    else if pc == base + 2 then Instr(InNull, 0) // got_0_from_low
    else if pc == base + 3 then Instr(WaitPin(true), 0)
    else if pc == base + 4 then Instr(Jmp(base + 8), 0)
    else if pc == base + 5 then Instr(InX, 0) // got_1_from_low
    else if pc == base + 6 then Instr(WaitPin(false), 0)
    else if pc == base + 7 then Instr(Jmp(base), 0)
    else if pc == base + 8 then Instr(Nop, r.settle) // was_high
    else if pc == base + 9 then Instr(JmpPin(base + 13), 0)
    else if pc == base + 10 then Instr(InX, 0) // got_1_from_high
    else if pc == base + 11 then Instr(WaitPin(true), 0)
    else if pc == base + 12 then Instr(Jmp(base + 8), 0)
    else if pc == base + 13 then Instr(InNull, 0) // got_0_from_high
    else if pc == base + 14 then Instr(WaitPin(false), 0)
    else Instr(Jmp(base), 0)
  }

  function Fetch(p: Program, pc: nat): Instr {
    match p
    case Tx(r) => TxInstr(r, pc)
    case Rx(r) => RxInstr(r, pc)
  }

  function Size(p: Program): nat {
    match p
    case Tx(_) => 14
    case Rx(r) => if r.sopNop then 18 else 17
  }

  /** A word that DMA puts into the FIFO, `stall` cycles after the program starts to wait for it. */
  datatype Entry = Entry(stall: nat, word: seq<bool>)

  /** Registers: X is known by its low bit, OSR and ISR by the bits left in them, most significant first. */
  datatype Machine = Machine(
    pc: nat, delay: nat, x: bool, y: nat, osr: seq<bool>, isr: seq<bool>, pin: bool,
    todo: seq<Entry>, pushed: seq<seq<bool>>)

  function NatOf(bits: seq<bool>): nat {
    if bits == [] then 0 else 2 * NatOf(bits[..|bits| - 1]) + if bits[|bits| - 1] then 1 else 0
  }

  /** Shift a bit into ISR; autopush at 32 bits. */
  function ShiftIn(s: Machine, bit: bool): Machine {
    var isr := s.isr + [bit];
    if |isr| == 32 then s.(isr := [], pushed := s.pushed + [isr]) else s.(isr := isr)
  }

  /** An instruction that does not stall: its effect on everything but the program counter, and where
      the program goes on. */
  function Effect(s: Machine, op: Op, next: nat, input: bool): (Machine, nat) {
    match op
    case SetPins(level) => (s.(pin := level), next)
    case Pull => (if s.todo == [] then s else s.(osr := s.todo[0].word, todo := s.todo[1..]), next)
    case MovYOsr => (s.(y := NatOf(s.osr)), next)
    case FlipPins => (s.(pin := !s.pin), next)
    case OutX => (if s.osr == [] then s.(x := false) else s.(x := s.osr[0], osr := s.osr[1..]), next)
    case JmpNotX(dest) => (s, if !s.x then dest else next)
    case JmpNotOsre(dest) => (s, if s.osr != [] then dest else next)
    case JmpYDec(dest) => (s.(y := if s.y == 0 then 0xFFFF_FFFF else s.y - 1), if s.y != 0 then dest else next)
    case JmpPin(dest) => (s, if input then dest else next)
    case Jmp(dest) => (s, dest)
    case InNull => (ShiftIn(s, false), next)
    case InX => (ShiftIn(s, s.x), next)
    case _ => (s, next)
  }

  predicate Stalls(s: Machine, op: Op, input: bool) {
    match op
    case Pull => s.todo == [] || s.todo[0].stall > 0
    case WaitPin(level) => input != level
    case _ => false
  }

  /** One cycle; input is the level of the input pin. */
  function Cycle(p: Program, s: Machine, input: bool): Machine {
    if s.delay > 0 then s.(delay := s.delay - 1)
    else
      var i := Fetch(p, s.pc);
      if Stalls(s, i.op, input) then
        if i.op.Pull? && s.todo != [] then s.(todo := [Entry(s.todo[0].stall - 1, s.todo[0].word)] + s.todo[1..]) else s
      else
        var (t, next) := Effect(s, i.op, if s.pc + 1 < Size(p) then s.pc + 1 else 0, input);
        t.(pc := next, delay := i.delay)
  }

  /** The machine after a stretch of line levels. */
  function Run(p: Program, s: Machine, line: seq<bool>): Machine
    decreases |line|
  {
    if line == [] then s else Run(p, Cycle(p, s, line[0]), line[1..])
  }

  /** The machine after n cycles, and the levels it drives meanwhile. */
  function Drive(p: Program, s: Machine, n: nat): (r: (Machine, seq<bool>))
    ensures |r.1| == n
    decreases n
  {
    if n == 0 then (s, [])
    else
      var s1 := Cycle(p, s, false);
      var (s2, wave) := Drive(p, s1, n - 1);
      (s2, [s1.pin] + wave)
  }

  // ---- runs compose -------------------------------------------------------------------------------

  lemma {:induction false} RunConcat(p: Program, s: Machine, a: seq<bool>, b: seq<bool>)
    ensures Run(p, s, a + b) == Run(p, Run(p, s, a), b)
    decreases |a|
  {
    hide Cycle;
    if a == [] {
      assert a + b == b;
    } else {
      assert (a + b)[0] == a[0] && (a + b)[1..] == a[1..] + b;
      RunConcat(p, Cycle(p, s, a[0]), a[1..], b);
    }
  }

  lemma {:induction false} DriveConcat(p: Program, s: Machine, m: nat, n: nat)
    ensures Drive(p, s, m + n).0 == Drive(p, Drive(p, s, m).0, n).0
    ensures Drive(p, s, m + n).1 == Drive(p, s, m).1 + Drive(p, Drive(p, s, m).0, n).1
    decreases m
  {
    hide Cycle;
    if m > 0 {
      var s1 := Cycle(p, s, false);
      DriveConcat(p, s1, m - 1, n);
      var w, v := Drive(p, s1, m - 1).1, Drive(p, Drive(p, s, m).0, n).1;
      assert [s1.pin] + (w + v) == ([s1.pin] + w) + v;
    } else {
      assert [] + Drive(p, s, n).1 == Drive(p, s, n).1;
    }
  }

  function Hold(level: bool, n: nat): seq<bool> { seq(n, _ => level) }

  lemma HoldJoins(level: bool, m: nat, n: nat)
    ensures Hold(level, m) + Hold(level, n) == Hold(level, m + n)
  {
  }

  /** Delay cycles do nothing but pass. */
  lemma {:induction false} DriveDelay(p: Program, s: Machine)
    ensures Drive(p, s, s.delay) == (s.(delay := 0), Hold(s.pin, s.delay))
    decreases s.delay
  {
    if s.delay > 0 {
      DriveDelay(p, s.(delay := s.delay - 1));
      HoldJoins(s.pin, 1, s.delay - 1);
      assert [s.pin] == Hold(s.pin, 1);
    } else {
      assert s.(delay := 0) == s && Hold(s.pin, 0) == [];
    }
  }

  lemma {:induction false} RunDelay(p: Program, s: Machine, line: seq<bool>)
    requires s.delay == |line|
    ensures Run(p, s, line) == s.(delay := 0)
    decreases s.delay
  {
    if s.delay > 0 { RunDelay(p, s.(delay := s.delay - 1), line[1..]); } else { assert s.(delay := 0) == s; }
  }

  /** What an instruction leaves once its delay has passed. */
  function After(p: Program, s: Machine, input: bool): Machine { Cycle(p, s, input).(delay := 0) }

  /** A whole instruction with its delay, on the driving side. */
  lemma DriveInstr(p: Program, s: Machine)
    ensures var t := After(p, s, false);
            Drive(p, s, 1 + Cycle(p, s, false).delay) == (t, Hold(t.pin, 1 + Cycle(p, s, false).delay))
  {
    hide Cycle;
    var s1 := Cycle(p, s, false);
    DriveDelay(p, s1);
    assert Drive(p, s, 1 + s1.delay) == (Drive(p, s1, s1.delay).0, [s1.pin] + Drive(p, s1, s1.delay).1);
    HoldJoins(s1.pin, 1, s1.delay);
    assert [s1.pin] == Hold(s1.pin, 1);
  }

  /** A whole instruction with its delay, on the receiving side: only the first level matters. */
  lemma RunInstr(p: Program, s: Machine, line: seq<bool>)
    requires |line| > 0 && Cycle(p, s, line[0]).delay == |line| - 1
    ensures Run(p, s, line) == After(p, s, line[0])
  {
    hide Cycle;
    RunDelay(p, Cycle(p, s, line[0]), line[1..]);
  }

  lemma {:induction false} RunGrows(p: Program, s: Machine, line: seq<bool>)
    ensures Received(s) <= Received(Run(p, s, line))
    decreases |line|
  {
    if line != [] {
      CycleGrows(p, s, line[0]);
      RunGrows(p, Cycle(p, s, line[0]), line[1..]);
    }
  }

  /** All bits shifted in so far. */
  function Received(s: Machine): seq<bool> { Flat(s.pushed) + s.isr }

  function Flat(words: seq<seq<bool>>): seq<bool> {
    if words == [] then [] else Flat(words[..|words| - 1]) + words[|words| - 1]
  }

  lemma ShiftInAppends(s: Machine, bit: bool)
    ensures Received(ShiftIn(s, bit)) == Received(s) + [bit]
  {
    var isr := s.isr + [bit];
    assert Flat(s.pushed) + (s.isr + [bit]) == Flat(s.pushed) + s.isr + [bit];
    if |isr| == 32 {
      assert (s.pushed + [isr])[..|s.pushed|] == s.pushed;
      assert Flat(s.pushed + [isr]) == Flat(s.pushed) + isr;
      assert Flat(s.pushed + [isr]) + [] == Flat(s.pushed + [isr]);
    }
  }

  lemma EffectGrows(s: Machine, op: Op, next: nat, input: bool)
    ensures Received(s) <= Received(Effect(s, op, next, input).0)
  {
    hide Flat, ShiftIn, NatOf;
    ShiftInAppends(s, false);
    ShiftInAppends(s, s.x);
  }

  lemma CycleGrows(p: Program, s: Machine, input: bool)
    ensures Received(s) <= Received(Cycle(p, s, input))
  {
    hide Flat, Fetch, Effect;
    var i := Fetch(p, s.pc);
    EffectGrows(s, i.op, if s.pc + 1 < Size(p) then s.pc + 1 else 0, input);
  }
}
