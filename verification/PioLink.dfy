/** The TX program driving the line of the RX program: at all four rates decoding is the identity. */
module PioLink {
  import opened Pio
  import Framing

  /** What the delays must satisfy: both arms of the TX bit loop take equally long, the receiver
      samples after the mid-cell edge even in the first cell, and waits again before the next edge. */
  ghost predicate Sound(r: Rate) {
    && r.zero == r.second + 1
    && 1 + r.first <= r.settle + (if r.sopNop then 1 else 0)
    && r.settle <= 1 + r.first + r.second
  }

  lemma AllRatesSound()
    ensures Sound(STD) && Sound(MID12) && Sound(MID10) && Sound(FAST)
  {
  }

  /** Cycles of one cell inside a word, and of its first half. */
  function Half(r: Rate): nat { 3 + r.first }

  function CellCycles(r: Rate): nat { 6 + r.first + r.second }

  /** The rates are named after their cells: 16, 12, 10 and 8 cycles, divided in the middle. */
  lemma NominalCells()
    ensures CellCycles(STD) == 16 && CellCycles(MID12) == 12 && CellCycles(MID10) == 10 && CellCycles(FAST) == 8
    ensures Half(STD) == 8 && Half(MID12) == 6 && Half(MID10) == 5 && Half(FAST) == 4
  {
  }

  // ---- stepping -----------------------------------------------------------------------------------

  lemma RunStep(p: Program, s: Machine, line: seq<bool>, i: nat)
    requires i < |line| && i + 1 + Cycle(p, s, line[i]).delay <= |line|
    ensures Run(p, s, line[i..]) == Run(p, After(p, s, line[i]), line[i + 1 + Cycle(p, s, line[i]).delay..])
  {
    hide Cycle, After;
    var k := 1 + Cycle(p, s, line[i]).delay;
    var now := line[i..i + k];
    RunInstr(p, s, now);
    assert line[i..] == now + line[i + k..];
    RunConcat(p, s, now, line[i + k..]);
  }

  lemma DriveStep(p: Program, s: Machine, n: nat)
    requires n >= 1 + Cycle(p, s, false).delay
    ensures var t, k := After(p, s, false), 1 + Cycle(p, s, false).delay;
            Drive(p, s, n) == (Drive(p, t, n - k).0, Hold(t.pin, k) + Drive(p, t, n - k).1)
  {
    hide Cycle, After;
    var k := 1 + Cycle(p, s, false).delay;
    DriveInstr(p, s);
    DriveConcat(p, s, k, n - k);
  }

  lemma {:induction false} RunWaits(p: Program, s: Machine, level: bool, n: nat)
    requires s.delay == 0 && Fetch(p, s.pc).op == WaitPin(!level)
    ensures Run(p, s, Hold(level, n)) == s
    decreases n
  {
    if n > 0 {
      assert Hold(level, n)[1..] == Hold(level, n - 1);
      RunWaits(p, s, level, n - 1);
    }
  }

  // ---- the receiver, one cell ------------------------------------------------------------------------

  function Base(r: Rate): nat { if r.sopNop then 2 else 1 }

  /** The receiver has reached a wait for the given level. */
  predicate Waiting(r: Rate, s: Machine, level: bool) {
    && s.delay == 0 && s.x
    && if level then s.pc == Base(r) + 3 || s.pc == Base(r) + 11
       else s.pc == 0 || s.pc == Base(r) + 6 || s.pc == Base(r) + 14
  }

  lemma WaitingFetch(r: Rate, s: Machine, level: bool)
    requires Waiting(r, s, level)
    ensures Fetch(Rx(r), s.pc).op == WaitPin(level)
  {
  }

  /** From the edge to the settling nop: one cycle for the wait, and one more except after the start
      of a packet without the extra nop. */
  function Lead(r: Rate, pc: nat): nat { if pc == 0 && !r.sopNop then 1 else 2 }

  lemma RxEdge(r: Rate, s: Machine, level: bool, line: seq<bool>)
    requires Waiting(r, s, level) && |line| >= 2 && line[0] == line[1] == level
    ensures Run(Rx(r), s, line) == Run(Rx(r), s.(pc := if level then Base(r) + 8 else Base(r)), line[Lead(r, s.pc)..])
  {
    hide Run;
    var p := Rx(r);
    assert line[0..] == line;
    RunStep(p, s, line, 0);
    var s1 := After(p, s, line[0]);
    if Lead(r, s.pc) == 2 { RunStep(p, s1, line, 1); }
  }

  lemma RxSettle(r: Rate, s: Machine, line: seq<bool>, i: nat)
    requires s.delay == 0 && (s.pc == Base(r) || s.pc == Base(r) + 8) && i + 1 + r.settle <= |line|
    ensures Run(Rx(r), s, line[i..]) == Run(Rx(r), s.(pc := s.pc + 1), line[i + 1 + r.settle..])
  {
    hide Run;
    RunStep(Rx(r), s, line, i);
  }

  /** The sample and the shift: from was_low a high level is a one, from was_high a low one is. */
  lemma RxSample(r: Rate, s: Machine, line: seq<bool>, i: nat)
    requires s.delay == 0 && s.x && (s.pc == Base(r) + 1 || s.pc == Base(r) + 9) && i + 2 <= |line|
    ensures var bit := (s.pc == Base(r) + 9) != line[i];
            var t := ShiftIn(s, bit).(pc := if s.pc == Base(r) + 1 then (if line[i] then Base(r) + 6 else Base(r) + 3)
                                             else if line[i] then Base(r) + 14 else Base(r) + 11);
            Run(Rx(r), s, line[i..]) == Run(Rx(r), t, line[i + 2..]) && Waiting(r, t, !line[i])
  {
    hide Run, ShiftIn;
    ShiftInFrame(s);
    RunStep(Rx(r), s, line, i);
    RunStep(Rx(r), After(Rx(r), s, line[i]), line, i + 1);
  }

  lemma ShiftInFrame(s: Machine)
    ensures forall u: Machine, bit :: var t := ShiftIn(u, bit);
              t == u.(isr := t.isr, pushed := t.pushed)
    ensures forall u: Machine, bit, pc: nat :: ShiftIn(u.(pc := pc), bit) == ShiftIn(u, bit).(pc := pc)
  {
  }

  /** One cell on the line, its second half as long as it likes: the receiver shifts in one bit and
      waits for the next edge. */
  lemma RxCell(r: Rate, s: Machine, level: bool, mid: bool, n: nat)
    requires Sound(r) && Waiting(r, s, level) && n >= 3 + r.second
    ensures var t := Run(Rx(r), s, Hold(level, Half(r)) + Hold(mid, n));
            Waiting(r, t, !mid) && t == ShiftIn(s, mid != level).(pc := t.pc)
  {
    hide Run, ShiftIn, Cycle, Fetch;
    ShiftInFrame(s);
    var line := Hold(level, Half(r)) + Hold(mid, n);
    RxEdge(r, s, level, line);
    var i := Lead(r, s.pc);
    var s1 := s.(pc := if level then Base(r) + 8 else Base(r));
    RxSettle(r, s1, line, i);
    var s2 := s1.(pc := s1.pc + 1);
    var j := i + 1 + r.settle;
    assert line[j] == mid;
    RxSample(r, s2, line, j);
    var t := ShiftIn(s2, mid != level).(pc := if level then (if mid then Base(r) + 14 else Base(r) + 11)
                                               else if mid then Base(r) + 6 else Base(r) + 3);
    assert line[j + 2..] == Hold(mid, |line| - (j + 2));
    WaitingFetch(r, t, !mid);
    RunWaits(Rx(r), t, mid, |line| - (j + 2));
  }

  // ---- the transmitter, one cell ---------------------------------------------------------------------

  lemma TxFirstHalf(r: Rate, s: Machine, n: nat)
    requires s.pc == 4 && s.delay == 0 && s.osr != [] && n >= Half(r)
    ensures var t := s.(x := s.osr[0], osr := s.osr[1..], pin := !s.pin, pc := if s.osr[0] then 7 else 9);
            Drive(Tx(r), s, n)
              == (Drive(Tx(r), t, n - Half(r)).0, Hold(!s.pin, Half(r)) + Drive(Tx(r), t, n - Half(r)).1)
  {
    hide Drive;
    var p := Tx(r);
    DriveStep(p, s, n);
    var s1 := After(p, s, false);
    DriveStep(p, s1, n - 1);
    var s2 := After(p, s1, false);
    DriveStep(p, s2, n - 2);
    var w := Drive(p, After(p, s2, false), n - Half(r)).1;
    ThreeHolds(!s.pin, r.first, w);
  }

  lemma ThreeHolds(level: bool, k: nat, w: seq<bool>)
    ensures Hold(level, 1) + (Hold(level, 1) + (Hold(level, 1 + k) + w)) == Hold(level, 3 + k) + w
  {
  }

  /** The bit loop: an edge, and half-way another one if the bit is a one. */
  lemma TxCell(r: Rate, s: Machine)
    requires Sound(r) && s.pc == 4 && s.delay == 0 && s.osr != []
    ensures var bit := s.osr[0];
            var mid := if bit then s.pin else !s.pin;
            Drive(Tx(r), s, CellCycles(r))
            == (s.(x := bit, osr := s.osr[1..], pin := mid, pc := if |s.osr| > 1 then 4 else 11),
                Hold(!s.pin, Half(r)) + Hold(mid, 3 + r.second))
  {
    hide Drive;
    TxFirstHalf(r, s, CellCycles(r));
    TxSecondHalf(r, s.(x := s.osr[0], osr := s.osr[1..], pin := !s.pin, pc := if s.osr[0] then 7 else 9), s.osr[0]);
  }

  lemma TxSecondHalf(r: Rate, s: Machine, bit: bool)
    requires Sound(r) && s.pc == (if bit then 7 else 9) && s.delay == 0
    ensures var mid := if bit then !s.pin else s.pin;
            Drive(Tx(r), s, 3 + r.second)
            == (s.(pin := mid, pc := if s.osr != [] then 4 else 11), Hold(mid, 3 + r.second))
  {
    hide Drive;
    var p := Tx(r);
    var mid := if bit then !s.pin else s.pin;
    DriveStep(p, s, 3 + r.second);
    var s1 := After(p, s, false);
    if bit {
      DriveStep(p, s1, 2);
      var s2 := After(p, s1, false);
      TxCheckBit(r, s2);
      HoldJoins(mid, 1, 1);
      HoldJoins(mid, 1 + r.second, 2);
    } else {
      TxCheckBit(r, s1);
      HoldJoins(mid, 2 + r.second, 1);
    }
  }

  lemma TxCheckBit(r: Rate, s: Machine)
    requires s.pc == 10 && s.delay == 0
    ensures Drive(Tx(r), s, 1) == (s.(pc := if s.osr != [] then 4 else 11), Hold(s.pin, 1))
  {
    hide Drive;
    DriveInstr(Tx(r), s);
  }

  // ---- both programs together --------------------------------------------------------------------------

  datatype Pair = Pair(tx: Machine, rx: Machine)

  /** The receiver listens to what the transmitter drives for n cycles. */
  function Together(r: Rate, s: Pair, n: nat): Pair {
    var (tx, wave) := Drive(Tx(r), s.tx, n);
    Pair(tx, Run(Rx(r), s.rx, wave))
  }

  lemma TogetherConcat(r: Rate, s: Pair, m: nat, n: nat)
    ensures Together(r, s, m + n) == Together(r, Together(r, s, m), n)
  {
    hide Drive, Run;
    DriveConcat(Tx(r), s.tx, m, n);
    RunConcat(Rx(r), s.rx, Drive(Tx(r), s.tx, m).1, Drive(Tx(r), Drive(Tx(r), s.tx, m).0, n).1);
  }

  /** The level the line is left at by a sequence of cells. */
  function LevelAfter(pin: bool, bits: seq<bool>): bool
    decreases |bits|
  {
    if bits == [] then pin else LevelAfter(if bits[0] then pin else !pin, bits[1..])
  }

  /** What the receiver holds after more bits. */
  function Shifted(s: Machine, bits: seq<bool>): Machine
    decreases |bits|
  {
    if bits == [] then s else Shifted(ShiftIn(s, bits[0]), bits[1..])
  }

  ghost predicate Same(a: Machine, b: Machine) { a == b.(pc := a.pc) }

  /** All cells of a word but for the cycles of the loop control after the last one. */
  lemma {:induction false} WordSent(r: Rate, s: Pair)
    requires Sound(r) && s.tx.pc == 4 && s.tx.delay == 0 && s.tx.osr != [] && Waiting(r, s.rx, !s.tx.pin)
    ensures var t := Together(r, s, |s.tx.osr| * CellCycles(r));
            && t.tx == s.tx.(x := t.tx.x, osr := [], pin := LevelAfter(s.tx.pin, s.tx.osr), pc := 11)
            && Waiting(r, t.rx, !t.tx.pin) && Same(t.rx, Shifted(s.rx, s.tx.osr))
    decreases |s.tx.osr|
  {
    hide Drive, Run, Cycle, ShiftIn;
    var osr := s.tx.osr;
    var n := CellCycles(r);
    TxCell(r, s.tx);
    var mid := if osr[0] then s.tx.pin else !s.tx.pin;
    RxCell(r, s.rx, !s.tx.pin, mid, 3 + r.second);
    var t := Together(r, s, n);
    ShiftInFrame(s.rx);
    if |osr| == 1 {
      assert osr[1..] == [];
    } else {
      WordSent(r, t);
      TogetherConcat(r, s, n, (|osr| - 1) * n);
      assert |osr| * n == n + (|osr| - 1) * n;
      ShiftedSame(t.rx, ShiftIn(s.rx, osr[0]), osr[1..]);
    }
  }

  lemma {:induction false} ShiftedSame(a: Machine, b: Machine, bits: seq<bool>)
    requires Same(a, b)
    ensures Same(Shifted(a, bits), Shifted(b, bits)) && Shifted(a, bits).pc == a.pc
    decreases |bits|
  {
    hide ShiftIn;
    ShiftInFrame(a);
    if bits != [] { ShiftedSame(ShiftIn(a, bits[0]), ShiftIn(b, bits[0]), bits[1..]); }
  }

  // ---- words and packets ---------------------------------------------------------------------------------

  /** Waiting for a word costs its stall and one cycle, at an unchanged level. */
  lemma {:induction false} TxPull(r: Rate, s: Machine)
    requires s.delay == 0 && (s.pc == 1 || s.pc == 3) && s.todo != []
    ensures Drive(Tx(r), s, s.todo[0].stall + 1)
            == (s.(osr := s.todo[0].word, todo := s.todo[1..], pc := s.pc + 1), Hold(s.pin, s.todo[0].stall + 1))
    decreases s.todo[0].stall
  {
    hide Drive;
    var p, e := Tx(r), s.todo[0];
    DriveStep(p, s, e.stall + 1);
    if e.stall > 0 {
      var s1 := s.(todo := [Entry(e.stall - 1, e.word)] + s.todo[1..]);
      assert After(p, s, false) == s1;
      assert s1.todo[1..] == s.todo[1..];
      TxPull(r, s1);
      HoldJoins(s.pin, 1, e.stall);
    } else {
      DriveInstr(p, s);
    }
  }

  /** A stretch at an unchanged level leaves the waiting receiver alone. */
  lemma QuietStretch(r: Rate, s: Pair, n: nat, tx: Machine)
    requires Drive(Tx(r), s.tx, n) == (tx, Hold(s.tx.pin, n)) && Waiting(r, s.rx, !s.tx.pin)
    ensures Together(r, s, n) == Pair(tx, s.rx)
  {
    hide Drive, Run, Fetch;
    WaitingFetch(r, s.rx, !s.tx.pin);
    RunWaits(Rx(r), s.rx, s.tx.pin, n);
  }

  lemma WordPulled(r: Rate, s: Pair)
    requires s.tx.delay == 0 && (s.tx.pc == 1 || s.tx.pc == 3) && s.tx.todo != [] && Waiting(r, s.rx, !s.tx.pin)
    ensures Together(r, s, s.tx.todo[0].stall + 1)
            == s.(tx := s.tx.(osr := s.tx.todo[0].word, todo := s.tx.todo[1..], pc := s.tx.pc + 1))
  {
    hide Drive, Run, Waiting;
    TxPull(r, s.tx);
    QuietStretch(r, s, s.tx.todo[0].stall + 1, Drive(Tx(r), s.tx, s.tx.todo[0].stall + 1).0);
  }

  /** One instruction of the loop control, at an unchanged level. */
  lemma Control(r: Rate, s: Pair)
    requires s.tx.delay == 0
             && (s.tx.pc == 2 || s.tx.pc == 11 || s.tx.pc == 13 || ((s.tx.pc == 12 || s.tx.pc == 0) && s.tx.pin))
    requires Waiting(r, s.rx, !s.tx.pin)
    ensures Together(r, s, 1) == s.(tx := After(Tx(r), s.tx, false))
    ensures After(Tx(r), s.tx, false)
            == if s.tx.pc == 2 then s.tx.(y := NatOf(s.tx.osr), pc := 3)
               else if s.tx.pc == 11
                 then s.tx.(y := if s.tx.y == 0 then 0xFFFF_FFFF else s.tx.y - 1, pc := if s.tx.y != 0 then 3 else 12)
               else s.tx.(pc := if s.tx.pc == 13 then 0 else s.tx.pc + 1)
  {
    hide Drive, Run, Waiting, NatOf;
    DriveInstr(Tx(r), s.tx);
    QuietStretch(r, s, 1, After(Tx(r), s.tx, false));
  }

  /** The bits of the first k entries. */
  function Words(todo: seq<Entry>, k: nat): seq<bool>
    requires k <= |todo|
  {
    if k == 0 then [] else todo[0].word + Words(todo[1..], k - 1)
  }

  ghost predicate Filled(todo: seq<Entry>, k: nat) { k <= |todo| && forall i :: 0 <= i < k ==> |todo[i].word| == 32 }

  lemma {:induction false} LevelConcat(pin: bool, a: seq<bool>, b: seq<bool>)
    ensures LevelAfter(pin, a + b) == LevelAfter(LevelAfter(pin, a), b)
    decreases |a|
  {
    if a == [] { assert a + b == b; }
    else {
      assert (a + b)[1..] == a[1..] + b;
      LevelConcat(if a[0] then pin else !pin, a[1..], b);
    }
  }

  lemma {:induction false} ShiftedConcat(s: Machine, a: seq<bool>, b: seq<bool>)
    ensures Shifted(s, a + b) == Shifted(Shifted(s, a), b)
    decreases |a|
  {
    hide ShiftIn;
    if a == [] { assert a + b == b; }
    else {
      assert (a + b)[1..] == a[1..] + b;
      ShiftedConcat(ShiftIn(s, a[0]), a[1..], b);
    }
  }

  /** The state after the last cell of the last of k words. */
  ghost predicate Driven(r: Rate, s: Pair, t: Pair, k: nat)
    requires k <= |s.tx.todo|
  {
    && t.tx == s.tx.(x := t.tx.x, y := 0, osr := [], todo := s.tx.todo[k..],
       pin := LevelAfter(s.tx.pin, Words(s.tx.todo, k)), pc := 11)
    && Waiting(r, t.rx, !t.tx.pin) && Same(t.rx, Shifted(s.rx, Words(s.tx.todo, k)))
  }

  /** One word: pull it, with whatever stall, and drive its cells. */
  lemma OneWord(r: Rate, s: Pair) returns (n: nat)
    requires Sound(r) && s.tx.pc == 3 && s.tx.delay == 0 && Waiting(r, s.rx, !s.tx.pin)
    requires s.tx.todo != [] && |s.tx.todo[0].word| == 32
    ensures var t, w := Together(r, s, n), s.tx.todo[0].word;
            && t.tx == s.tx.(x := t.tx.x, osr := [], todo := s.tx.todo[1..], pin := LevelAfter(s.tx.pin, w), pc := 11)
            && Waiting(r, t.rx, !t.tx.pin) && Same(t.rx, Shifted(s.rx, w))
  {
    hide Together, Waiting;
    var m := s.tx.todo[0].stall + 1;
    WordPulled(r, s);
    var s1 := Together(r, s, m);
    WordSent(r, s1);
    n := m + 32 * CellCycles(r);
    TogetherConcat(r, s, m, 32 * CellCycles(r));
  }

  lemma {:induction false} WordsSent(r: Rate, s: Pair, k: nat) returns (n: nat)
    requires Sound(r) && s.tx.pc == 3 && s.tx.delay == 0 && Waiting(r, s.rx, !s.tx.pin)
    requires k > 0 && Filled(s.tx.todo, k) && s.tx.y == k - 1
    ensures Driven(r, s, Together(r, s, n), k)
    decreases k
  {
    hide Together, Waiting, LevelAfter, Shifted;
    var w := s.tx.todo[0].word;
    n := OneWord(r, s);
    var s1 := Together(r, s, n);
    if k == 1 {
      assert w + [] == w && Words(s.tx.todo[1..], 0) == [];
    } else {
      Control(r, s1);
      TogetherConcat(r, s, n, 1);
      var s2 := Together(r, s, n + 1);
      var m := WordsSent(r, s2, k - 1);
      TogetherConcat(r, s, n + 1, m);
      var rest := Words(s.tx.todo[1..], k - 1);
      LevelConcat(s.tx.pin, w, rest);
      ShiftedConcat(s.rx, w, rest);
      ShiftedSame(s2.rx, Shifted(s.rx, w), rest);
      assert s.tx.todo[1..][k - 1..] == s.tx.todo[k..];
      n := n + 1 + m;
    }
  }

  /** The transmitter waits for a packet with the line High, the receiver for its first edge. */
  ghost predicate Ready(r: Rate, s: Pair) {
    s.tx.pc == 1 && s.tx.delay == 0 && s.tx.pin && Waiting(r, s.rx, false)
  }

  lemma {:induction false} LevelParity(pin: bool, bits: seq<bool>)
    ensures LevelAfter(pin, bits) == (pin == (Framing.Zeros(bits) % 2 == 0))
    decreases |bits|
  {
    if bits != [] { LevelParity(if bits[0] then pin else !pin, bits[1..]); }
  }

  /** After the last cell, at the High level: end of packet, interrupt, idle. */
  lemma EndOfPacket(r: Rate, s: Pair)
    requires s.tx.pc == 11 && s.tx.delay == 0 && s.tx.y == 0 && s.tx.pin && Waiting(r, s.rx, false)
    ensures Together(r, s, 4) == s.(tx := s.tx.(y := 0xFFFF_FFFF, pc := 1))
  {
    hide Together, Waiting;
    Control(r, s);
    var s1 := Together(r, s, 1);
    Control(r, s1);
    TogetherConcat(r, s, 1, 1);
    var s2 := Together(r, s, 2);
    Control(r, s2);
    TogetherConcat(r, s, 2, 1);
    var s3 := Together(r, s, 3);
    Control(r, s3);
    TogetherConcat(r, s, 3, 1);
  }

  /** The first entries of the FIFO are a packet: a word that counts the others less one, and the others. */
  ghost predicate PacketAhead(todo: seq<Entry>, k: nat) {
    k > 0 && |todo| > k && NatOf(todo[0].word) == k - 1 && Filled(todo[1..], k)
  }

  /** A packet up to its last cell. */
  lemma PacketDriven(r: Rate, s: Pair, k: nat) returns (n: nat)
    requires Sound(r) && Ready(r, s) && PacketAhead(s.tx.todo, k)
    ensures var t, bits := Together(r, s, n), Words(s.tx.todo[1..], k);
            && t.tx.pc == 11 && t.tx.delay == 0 && t.tx.y == 0 && t.tx.pin == LevelAfter(true, bits)
               && t.tx.todo == s.tx.todo[k + 1..]
            && Waiting(r, t.rx, !t.tx.pin) && Same(t.rx, Shifted(s.rx, bits))
  {
    hide Together, Waiting, LevelAfter, Shifted, NatOf;
    var m := s.tx.todo[0].stall + 1;
    WordPulled(r, s);
    var s1 := Together(r, s, m);
    Control(r, s1);
    TogetherConcat(r, s, m, 1);
    var s2 := Together(r, s, m + 1);
    var q := WordsSent(r, s2, k);
    TogetherConcat(r, s, m + 1, q);
    assert s.tx.todo[1..][k..] == s.tx.todo[k + 1..];
    n := m + 1 + q;
  }

  /** A packet with an even number of zeros leaves both programs as it found them, and its bits in
      the receiver. */
  lemma PacketSent(r: Rate, s: Pair, k: nat) returns (n: nat)
    requires Sound(r) && Ready(r, s) && PacketAhead(s.tx.todo, k)
    requires Framing.Zeros(Words(s.tx.todo[1..], k)) % 2 == 0
    ensures var t := Together(r, s, n);
            Ready(r, t) && t.tx.todo == s.tx.todo[k + 1..] && Same(t.rx, Shifted(s.rx, Words(s.tx.todo[1..], k)))
  {
    hide Together, Waiting, LevelAfter, Shifted, PacketAhead;
    assert k < |s.tx.todo| by { PacketFits(s.tx.todo, k); }
    n := PacketDriven(r, s, k);
    var t := Together(r, s, n);
    LevelParity(true, Words(s.tx.todo[1..], k));
    EndOfPacket(r, t);
    TogetherConcat(r, s, n, 4);
    n := n + 4;
  }

  lemma PacketFits(todo: seq<Entry>, k: nat)
    requires PacketAhead(todo, k)
    ensures k < |todo| && k <= |todo[1..]|
  {
  }

  // ---- the shift register ----------------------------------------------------------------------------------

  lemma {:induction false} ShiftedPart(s: Machine, bits: seq<bool>)
    requires |s.isr| < 32 && |s.isr| + |bits| <= 32
    ensures Shifted(s, bits) == if |s.isr| + |bits| < 32 then s.(isr := s.isr + bits)
            else s.(isr := [], pushed := s.pushed + [s.isr + bits])
    decreases |bits|
  {
    if bits == [] {
      assert s.isr + [] == s.isr;
    } else {
      assert s.isr + bits == (s.isr + [bits[0]]) + bits[1..];
      if |s.isr| < 31 { ShiftedPart(ShiftIn(s, bits[0]), bits[1..]); }
        else { assert bits[1..] == [] && s.isr + bits == s.isr + [bits[0]]; }
    }
  }

  ghost function WordList(todo: seq<Entry>, k: nat): seq<seq<bool>>
    requires k <= |todo|
  {
    seq(k, i requires 0 <= i < k => todo[i].word)
  }

  /** Whole words are pushed as they were pulled. */
  lemma {:induction false} ShiftedWords(s: Machine, todo: seq<Entry>, k: nat)
    requires s.isr == [] && Filled(todo, k)
    ensures Shifted(s, Words(todo, k)) == s.(pushed := s.pushed + WordList(todo, k))
    decreases k
  {
    hide ShiftIn;
    if k == 0 {
      assert s.pushed + WordList(todo, 0) == s.pushed;
    } else {
      var w := todo[0].word;
      ShiftedConcat(s, w, Words(todo[1..], k - 1));
      ShiftedPart(s, w);
      assert [] + w == w;
      var s1 := s.(pushed := s.pushed + [w]);
      ShiftedWords(s1, todo[1..], k - 1);
      assert s1.pushed + WordList(todo[1..], k - 1) == s.pushed + WordList(todo, k);
    }
  }

  // ---- any number of packets -------------------------------------------------------------------------------

  /** FIFO contents that are a sequence of packets, each with an even number of zeros. */
  ghost predicate Feeds(todo: seq<Entry>, packets: seq<seq<seq<bool>>>)
    decreases |packets|
  {
    if packets == [] then todo == []
    else
      var k := |packets[0]|;
      && PacketAhead(todo, k) && WordList(todo[1..], k) == packets[0]
      && Framing.Zeros(Words(todo[1..], k)) % 2 == 0
      && Feeds(todo[k + 1..], packets[1..])
  }

  function Concat(packets: seq<seq<seq<bool>>>): seq<seq<bool>> {
    if packets == [] then [] else packets[0] + Concat(packets[1..])
  }

  lemma {:induction false} PacketsSent(r: Rate, s: Pair, packets: seq<seq<seq<bool>>>) returns (n: nat)
    requires Sound(r) && Ready(r, s) && Feeds(s.tx.todo, packets) && s.rx.isr == []
    ensures var t := Together(r, s, n);
            Ready(r, t) && t.tx.todo == [] && t.rx.isr == [] && t.rx.pushed == s.rx.pushed + Concat(packets)
    decreases |packets|
  {
    hide Together, Ready, Shifted, PacketAhead;
    if packets == [] {
      n := 0;
      TogetherNothing(r, s);
      assert s.rx.pushed + [] == s.rx.pushed;
    } else {
      var k := |packets[0]|;
      PacketFits(s.tx.todo, k);
      n := PacketSent(r, s, k);
      var t := Together(r, s, n);
      assert Filled(s.tx.todo[1..], k) by { PacketFilled(s.tx.todo, k); }
      ShiftedWords(s.rx, s.tx.todo[1..], k);
      var m := PacketsSent(r, t, packets[1..]);
      TogetherConcat(r, s, n, m);
      assert s.rx.pushed + (packets[0] + Concat(packets[1..])) == (s.rx.pushed + packets[0]) + Concat(packets[1..]);
      n := n + m;
    }
  }

  lemma PacketFilled(todo: seq<Entry>, k: nat)
    requires PacketAhead(todo, k)
    ensures Filled(todo[1..], k)
  {
  }

  lemma TogetherNothing(r: Rate, s: Pair)
    ensures Together(r, s, 0) == s
  {
  }

  /** An idle transmitter holds the line High for ever. */
  lemma {:induction false} TxRests(r: Rate, s: Machine, m: nat)
    requires s.pc == 1 && s.delay == 0 && s.todo == []
    ensures Drive(Tx(r), s, m) == (s, Hold(s.pin, m))
    decreases m
  {
    if m > 0 {
      TxRests(r, s, m - 1);
      HoldJoins(s.pin, 1, m - 1);
      assert [s.pin] == Hold(s.pin, 1);
    } else {
      assert Hold(s.pin, 0) == [];
    }
  }

  lemma StaysReady(r: Rate, s: Pair, m: nat)
    requires Ready(r, s) && s.tx.todo == []
    ensures Together(r, s, m) == s
  {
    hide Drive, Run, Waiting;
    TxRests(r, s.tx, m);
    QuietStretch(r, s, m, s.tx);
  }

  /** Both programs freshly started: line High, receiver's X loaded with ones. */
  ghost predicate Start(s: Pair) {
    && s.tx.pc == 0 && s.tx.delay == 0 && s.tx.pin
    && s.rx.pc == 0 && s.rx.delay == 0 && s.rx.x && s.rx.isr == [] && s.rx.pushed == []
  }

  /** Main theorem. Whatever packets the FIFO delivers, with whatever pauses between packets and
      between words: from some cycle on the receiver has pushed exactly the transmitted words, no bit
      lost and none invented, and at every moment what it has received is a prefix of them. */
  lemma DecodesExactly(r: Rate, s: Pair, packets: seq<seq<seq<bool>>>) returns (n: nat)
    requires r == STD || r == MID12 || r == MID10 || r == FAST
    requires Start(s) && Feeds(s.tx.todo, packets)
    ensures forall m: nat :: m >= n ==> Together(r, s, m).rx.pushed == Concat(packets) && Together(r, s, m).rx.isr == []
    ensures forall m: nat :: Received(Together(r, s, m).rx) <= Flat(Concat(packets))
  {
    hide Together, Feeds, Received, Concat;
    AllRatesSound();
    Control(r, s);
    var s1 := Together(r, s, 1);
    var q := PacketsSent(r, s1, packets);
    TogetherConcat(r, s, 1, q);
    n := 1 + q;
    var t := Together(r, s, n);
    assert [] + Concat(packets) == Concat(packets);
    forall m: nat | m >= n ensures Together(r, s, m) == t {
      TogetherConcat(r, s, n, m - n);
      StaysReady(r, t, m - n);
    }
    ReceivedAll(t.rx);
    forall m: nat ensures Received(Together(r, s, m).rx) <= Received(t.rx) {
      if m < n { ReceivedBefore(r, s, m, n); }
    }
  }

  lemma ReceivedAll(s: Machine)
    requires s.isr == []
    ensures Received(s) == Flat(s.pushed)
  {
    assert Flat(s.pushed) + [] == Flat(s.pushed);
  }

  lemma ReceivedBefore(r: Rate, s: Pair, m: nat, n: nat)
    requires m <= n
    ensures Received(Together(r, s, m).rx) <= Received(Together(r, s, n).rx)
  {
    hide Drive, Run, Received;
    TogetherConcat(r, s, m, n - m);
    var t := Together(r, s, m);
    RunGrows(Rx(r), t.rx, Drive(Tx(r), t.tx, n - m).1);
  }

  // ---- why the parity bit is there -----------------------------------------------------------------------

  /** From the set instruction at the end of a packet on the line is High for good. */
  lemma TxForcedHigh(r: Rate, s: Machine, m: nat)
    requires s.pc == 12 && s.delay == 0 && s.todo == [] && m >= 3
    ensures Drive(Tx(r), s, m) == (s.(pin := true, pc := 1), Hold(true, m))
  {
    hide Drive;
    var p := Tx(r);
    DriveStep(p, s, m);
    var s1 := After(p, s, false);
    DriveStep(p, s1, m - 1);
    var s2 := After(p, s1, false);
    DriveStep(p, s2, m - 2);
    var s3 := After(p, s2, false);
    TxRests(r, s3, m - 3);
    assert Hold(true, 1) + (Hold(true, 1) + (Hold(true, 1) + Hold(true, m - 3))) == Hold(true, m);
  }

  /** A last packet: the receiver ends with exactly its bits if and only if their zeros are even in
      number; otherwise the forced return to High is an edge, and one false zero follows. */
  lemma ParityDecides(r: Rate, s: Pair, k: nat) returns (n: nat)
    requires r == STD || r == MID12 || r == MID10 || r == FAST
    requires Start(s) && PacketAhead(s.tx.todo, k) && |s.tx.todo| == k + 1
    ensures var bits := Words(s.tx.todo[1..], k);
            forall m: nat :: m >= n ==>
              Received(Together(r, s, m).rx) == bits + (if Framing.Zeros(bits) % 2 == 0 then [] else [false])
  {
    hide Together, Received, PacketAhead, Waiting, LevelAfter, Shifted;
    AllRatesSound();
    assert Waiting(r, s.rx, false) by { FreshlyWaiting(r, s); }
    Control(r, s);
    var s1 := Together(r, s, 1);
    PacketFits(s.tx.todo, k);
    var bits := Words(s.tx.todo[1..], k);
    ShiftedReceived(s.rx, bits);
    FreshReceived(s);
    LevelParity(true, bits);
    var q := PacketDriven(r, s1, k);
    TogetherConcat(r, s, 1, q);
    var t := Together(r, s, 1 + q);
    assert t.tx.todo == [];
    if t.tx.pin {
      EndOfPacket(r, t);
      n := 1 + q + 4;
      TogetherConcat(r, s, 1 + q, 4);
      var u := Together(r, s, n);
      forall m: nat | m >= n ensures Received(Together(r, s, m).rx) == bits + [] {
        TogetherConcat(r, s, n, m - n);
        StaysReady(r, u, m - n);
        SameBits(u.rx, Shifted(s.rx, bits));
      }
    } else {
      Control(r, t);
      n := 1 + q + 1 + Half(r) + 3 + r.second;
      TogetherConcat(r, s, 1 + q, 1);
      var u := Together(r, s, 1 + q + 1);
      forall m: nat | m >= n ensures Received(Together(r, s, m).rx) == bits + [false] {
        TogetherConcat(r, s, 1 + q + 1, m - (1 + q + 1));
        FalseZero(r, u, m - (1 + q + 1));
        SameBits(u.rx, Shifted(s.rx, bits));
      }
    }
  }

  lemma FreshlyWaiting(r: Rate, s: Pair)
    requires Start(s)
    ensures Waiting(r, s.rx, false)
  {
  }

  lemma FreshReceived(s: Pair)
    requires Start(s)
    ensures Received(s.rx) == []
  {
  }

  lemma SameBits(a: Machine, b: Machine)
    requires Same(a, b)
    ensures Received(a) == Received(b)
  {
  }

  lemma {:induction false} ShiftedReceived(s: Machine, bits: seq<bool>)
    ensures Received(Shifted(s, bits)) == Received(s) + bits
    decreases |bits|
  {
    hide ShiftIn, Received;
    if bits == [] {
      assert Received(s) + [] == Received(s);
    } else {
      ShiftInAppends(s, bits[0]);
      ShiftedReceived(ShiftIn(s, bits[0]), bits[1..]);
      assert Received(s) + [bits[0]] + bits[1..] == Received(s) + bits;
    }
  }

  lemma FalseZero(r: Rate, s: Pair, m: nat)
    requires Sound(r) && s.tx.pc == 12 && s.tx.delay == 0 && s.tx.todo == [] && Waiting(r, s.rx, true)
    requires m >= Half(r) + 3 + r.second
    ensures Received(Together(r, s, m).rx) == Received(s.rx) + [false]
  {
    hide Drive, Run, Waiting, Received, ShiftIn;
    TxForcedHigh(r, s.tx, m);
    HoldJoins(true, Half(r), m - Half(r));
    RxCell(r, s.rx, true, true, m - Half(r));
    ShiftInAppends(s.rx, false);
    SameBits(Together(r, s, m).rx, ShiftIn(s.rx, false));
  }
}
