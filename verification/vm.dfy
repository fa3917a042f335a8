/** The interpreter (src/vm.rs): a small-step machine over a sparse tape. Standard input
    and output are replaced by a byte sequence to read from and one to append to. */
module Vm {
  import opened Wrappers
  import opened Ir

  /** 2^64: `usize`, the type of the data pointer, is taken to be 64 bits wide. */
  const WORD: int := 18446744073709551616

  type Address = a: int | 0 <= a < WORD

  /** A tape cell (`u8`). */
  type Byte = b: int | 0 <= b < 256

  /** The interpreter state. `cells` holds only the cells ever written; every other
      cell reads as 0. */
  datatype Machine = Machine(
    code: seq<Instruction>,
    ip: nat,
    ptr: Address,
    cells: map<Address, Byte>,
    input: seq<Byte>,
    output: seq<Byte>)

  /** The value of a cell, 0 if it was never written (`entry(idx).or_insert(0)`). */
  function Cell(m: Machine, a: Address): Byte {
    if a in m.cells then m.cells[a] else 0
  }

  /** Two machines agree on every cell except possibly `a`. */
  predicate SameCellsExcept(m: Machine, m': Machine, a: Address) {
    forall b: Address :: b != a ==> Cell(m, b) == Cell(m', b)
  }

  /** `VM::new`: start at instruction 0 and address 0 with an empty tape. */
  function New(code: seq<Instruction>, input: seq<Byte>): (m: Machine)
    ensures m.code == code && m.input == input && m.output == []
    ensures m.ip == 0 && m.ptr == 0
    ensures forall a: Address :: Cell(m, a) == 0
  {
    Machine(code, 0, 0, map[], input, [])
  }

  /** `fetch`: the instruction at `ip`, if any; `ip` advances either way. */
  function Fetch(m: Machine): (Option<Instruction>, Machine) {
    (if m.ip < |m.code| then Some(m.code[m.ip]) else None, m.(ip := m.ip + 1))
  }

  /** `getchar`: the next input byte and the rest of the input; 0 once the input is
      exhausted (a read of zero bytes leaves the buffer at 0). */
  function GetChar(input: seq<Byte>): (Byte, seq<Byte>) {
    if |input| == 0 then (0, []) else (input[0], input[1..])
  }

  /** The result of one step: the next state, the end of the program, or the panic of
      `try_into().unwrap()` on an `Add` payload outside a byte. */
  datatype Transition = Next(state: Machine) | Halt | Abort

  /** One iteration of the `execute` loop. */
  function Step(m: Machine): (t: Transition)
    ensures t == Halt <==> m.ip >= |m.code|
    ensures t == Abort <==> m.ip < |m.code| && m.code[m.ip].Add? && !(-255 <= m.code[m.ip].delta <= 255)
    ensures t.Next? ==> t.state.code == m.code
    ensures t.Next? && m.code[m.ip].MovePointer? ==>
      && t.state == m.(ip := m.ip + 1, ptr := t.state.ptr)
      && t.state.ptr == (m.ptr + m.code[m.ip].offset) % WORD
    ensures t.Next? && m.code[m.ip].Add? ==>
      && t.state.ip == m.ip + 1 && t.state.ptr == m.ptr
      && t.state.input == m.input && t.state.output == m.output
      && Cell(t.state, m.ptr) == (Cell(m, m.ptr) + m.code[m.ip].delta) % 256
      && SameCellsExcept(m, t.state, m.ptr)
    ensures t.Next? && m.code[m.ip].Input? ==>
      && t.state.ip == m.ip + 1 && t.state.ptr == m.ptr && t.state.output == m.output
      && Cell(t.state, m.ptr) == (if |m.input| > 0 then m.input[0] else 0)
      && t.state.input == (if |m.input| > 0 then m.input[1..] else [])
      && SameCellsExcept(m, t.state, m.ptr)
    ensures t.Next? && m.code[m.ip].Output? ==>
      t.state == m.(ip := m.ip + 1, output := m.output + [Cell(m, m.ptr)])
    ensures t.Next? && m.code[m.ip].JumpIfZero? ==>
      t.state == m.(ip := if Cell(m, m.ptr) == 0 then m.code[m.ip].target else m.ip + 1)
    ensures t.Next? && m.code[m.ip].JumpIfNonZero? ==>
      t.state == m.(ip := if Cell(m, m.ptr) != 0 then m.code[m.ip].target else m.ip + 1)
  {
    var (instr, m) := Fetch(m);
    match instr
    case None => Halt
    case Some(MovePointer(n)) =>
      // wrapping_add / wrapping_sub of `n.unsigned_abs()`
      if n > 0 then Next(m.(ptr := (m.ptr + n) % WORD))
      else Next(m.(ptr := (m.ptr - (-n)) % WORD))
    case Some(Add(n)) =>
      var c := Cell(m, m.ptr);
      if n > 0 then
        if n > 255 then Abort else Next(m.(cells := m.cells[m.ptr := (c + n) % 256]))
      else
        if -n > 255 then Abort else Next(m.(cells := m.cells[m.ptr := (c - (-n)) % 256]))
    case Some(Input) =>
      var (b, rest) := GetChar(m.input);
      Next(m.(cells := m.cells[m.ptr := b], input := rest))
    case Some(Output) =>
      Next(m.(output := m.output + [Cell(m, m.ptr)]))
    case Some(JumpIfZero(t)) =>
      if Cell(m, m.ptr) == 0 then Next(m.(ip := t)) else Next(m)
    case Some(JumpIfNonZero(t)) =>
      if Cell(m, m.ptr) != 0 then Next(m.(ip := t)) else Next(m)
  }

  /** How a fuel-bounded run ends: the program finished, it panicked, or the fuel ran out. */
  datatype Outcome = Halted(state: Machine) | Aborted(state: Machine) | OutOfFuel(state: Machine)

  /** The `execute` loop, for at most `fuel` steps. */
  function Run(m: Machine, fuel: nat): (o: Outcome)
    ensures o.state.code == m.code
    ensures o.Halted? ==> o.state.ip >= |m.code|
    decreases fuel
  {
    if fuel == 0 then OutOfFuel(m)
    else match Step(m)
      case Halt => Halted(m)
      case Abort => Aborted(m)
      case Next(m') => Run(m', fuel - 1)
  }

  lemma ModCancel(p: Address, n: int)
    ensures ((p + n) % WORD + -n) % WORD == p
  {
    var q := (p + n) % WORD;
    var d := (p + n) / WORD;
    assert p + n == d * WORD + q;
    assert q + -n == p - d * WORD;
    assert (p - d * WORD) % WORD == p % WORD by {
      assert (p - d * WORD) == p + (-d) * WORD;
    }
  }

  lemma ByteAddAssoc(c: int, a: int, b: int)
    ensures ((c + a) % 256 + b) % 256 == (c + (a + b)) % 256
  {
    var q := (c + a) / 256;
    assert c + a == q * 256 + (c + a) % 256;
    assert (c + a) % 256 + b == (c + a + b) + (-q) * 256;
  }

  /** `MovePointer(n)` followed by `MovePointer(-n)` restores the pointer and touches no cell. */
  lemma MoveThenBack(m: Machine, n: int)
    requires m.ip + 1 < |m.code|
    requires m.code[m.ip] == MovePointer(n) && m.code[m.ip + 1] == MovePointer(-n)
    ensures Step(m).Next? && Step(Step(m).state).Next?
    ensures Step(Step(m).state).state == m.(ip := m.ip + 2)
  {
    ModCancel(m.ptr, n);
  }

  /** Moving left from address 0 wraps to the highest address. */
  lemma MoveLeftWraps(m: Machine)
    requires m.ip < |m.code| && m.code[m.ip] == MovePointer(-1) && m.ptr == 0
    ensures Step(m).Next? && Step(m).state.ptr == WORD - 1
  {
  }

  lemma StepAddOne(m: Machine)
    requires m.ip < |m.code| && m.code[m.ip] == Add(1)
    ensures Step(m).Next?
    ensures Step(m).state.ip == m.ip + 1 && Step(m).state.ptr == m.ptr && Step(m).state.code == m.code
    ensures Cell(Step(m).state, m.ptr) == (Cell(m, m.ptr) + 1) % 256
    ensures SameCellsExcept(m, Step(m).state, m.ptr)
  {
  }

  /** `k` consecutive `Add(1)` instructions add `k` modulo 256 to the current cell and
      change nothing else on the tape. */
  lemma {:induction false} AddOneRepeated(m: Machine, k: nat)
    requires m.ip + k <= |m.code|
    requires forall j :: m.ip <= j < m.ip + k ==> m.code[j] == Add(1)
    ensures Run(m, k).OutOfFuel?
    ensures Run(m, k).state.ip == m.ip + k && Run(m, k).state.ptr == m.ptr
    ensures Cell(Run(m, k).state, m.ptr) == (Cell(m, m.ptr) + k) % 256
    ensures SameCellsExcept(m, Run(m, k).state, m.ptr)
    decreases k
  {
    if k > 0 {
      StepAddOne(m);
      var m' := Step(m).state;
      assert Run(m, k) == Run(m', k - 1);
      AddOneRepeated(m', k - 1);
      var e := Run(m', k - 1).state;
      assert Cell(e, m.ptr) == (Cell(m, m.ptr) + k) % 256 by {
        ByteAddAssoc(Cell(m, m.ptr), 1, k - 1);
      }
      assert SameCellsExcept(m, e, m.ptr) by {
        forall b: Address | b != m.ptr
          ensures Cell(m, b) == Cell(e, b)
        {
          assert Cell(m, b) == Cell(m', b);
        }
      }
    }
  }

  /** A multiple of 256 consecutive `Add(1)` instructions leaves the cell as it was. */
  lemma {:induction false} ByteCycle(c: Byte, q: nat)
    ensures (c + 256 * q) % 256 == c
  {
    if q > 0 {
      ByteCycle(c, q - 1);
      assert c + 256 * q == (c + 256 * (q - 1)) + 256;
    }
  }

  lemma AddCycle(m: Machine, k: nat)
    requires k % 256 == 0
    requires m.ip + k <= |m.code|
    requires forall j :: m.ip <= j < m.ip + k ==> m.code[j] == Add(1)
    ensures Cell(Run(m, k).state, m.ptr) == Cell(m, m.ptr)
  {
    AddOneRepeated(m, k);
    ByteCycle(Cell(m, m.ptr), k / 256);
  }

  /** `rest` is what is left of `input` once some bytes have been read from its front. */
  predicate Consumed(rest: seq<Byte>, input: seq<Byte>) {
    |rest| <= |input| && rest == input[|input| - |rest|..]
  }

  lemma ConsumedTrans(a: seq<Byte>, b: seq<Byte>, c: seq<Byte>)
    requires Consumed(a, b) && Consumed(b, c)
    ensures Consumed(a, c)
  {
    assert c[|c| - |b|..][|b| - |a|..] == c[|c| - |a|..];
  }

  /** One step appends at most to the output and reads at most from the front of the input. */
  lemma StepExtends(m: Machine)
    requires Step(m).Next?
    ensures m.output <= Step(m).state.output
    ensures Consumed(Step(m).state.input, m.input)
  {
    var m' := Step(m).state;
    if m.code[m.ip].Input? && |m.input| > 0 {
      assert m'.input == m.input[|m.input| - |m'.input|..];
    }
  }

  /** A run aborts only at an `Add` whose payload's magnitude exceeds 255 (outside
      -255..255). */
  lemma {:induction false} RunAborts(m: Machine, fuel: nat)
    ensures var o := Run(m, fuel);
      o.Aborted? ==> o.state.ip < |m.code| && Step(o.state) == Abort
    decreases fuel
  {
    if fuel > 0 && Step(m).Next? {
      RunAborts(Step(m).state, fuel - 1);
    }
  }

  /** A run only appends to the output and only consumes input from the front. */
  lemma {:induction false} RunExtends(m: Machine, fuel: nat)
    ensures m.output <= Run(m, fuel).state.output
    ensures Consumed(Run(m, fuel).state.input, m.input)
    decreases fuel
  {
    if fuel > 0 && Step(m).Next? {
      var m' := Step(m).state;
      RunExtends(m', fuel - 1);
      var last := Run(m', fuel - 1).state;
      assert Run(m, fuel).state == last;
      assert m.output <= m'.output && Consumed(m'.input, m.input) by {
        StepExtends(m);
      }
      ConsumedTrans(last.input, m'.input, m.input);
    } else {
      assert Run(m, fuel).state == m;
      assert m.input[|m.input| - |m.input|..] == m.input;
    }
  }

  /** A run that halted or panicked is not changed by more fuel. */
  lemma {:induction false} RunMoreFuel(m: Machine, fuel: nat, extra: nat)
    requires !Run(m, fuel).OutOfFuel?
    ensures Run(m, fuel + extra) == Run(m, fuel)
    decreases fuel
  {
    if Step(m).Next? {
      RunMoreFuel(Step(m).state, fuel - 1, extra);
    }
  }

  /** A run that is still going after `a` steps continues from where it stopped: fuel
      adds up. */
  lemma {:induction false} RunSplit(m: Machine, a: nat, b: nat)
    requires Run(m, a).OutOfFuel?
    ensures Run(m, a + b) == Run(Run(m, a).state, b)
    decreases a
  {
    if a > 0 {
      RunSplit(Step(m).state, a - 1, b);
    }
  }

  // ---------------------------------------------------------------------------
  // Corrected addition
  // ---------------------------------------------------------------------------

  /** `Step` with wrapping addition: `Add(n)` adds `n` modulo 256, as `n` single `+` would,
      instead of panicking when `|n|` exceeds 255. */
  function StepWrapping(m: Machine): (t: Transition)
    ensures t != Abort
    ensures m.ip < |m.code| && m.code[m.ip].Add? ==>
      && t.Next?
      && t.state.ip == m.ip + 1 && t.state.ptr == m.ptr
      && t.state.input == m.input && t.state.output == m.output
      && Cell(t.state, m.ptr) == (Cell(m, m.ptr) + m.code[m.ip].delta) % 256
      && SameCellsExcept(m, t.state, m.ptr)
    ensures Step(m) != Abort ==> t == Step(m)
  {
    match Step(m)
    case Abort =>
      var c := Cell(m, m.ptr);
      Next(m.(ip := m.ip + 1, cells := m.cells[m.ptr := (c + m.code[m.ip].delta) % 256]))
    case t => t
  }

  /** `Run` over `StepWrapping`. */
  function RunWrapping(m: Machine, fuel: nat): (o: Outcome)
    ensures !o.Aborted?
    ensures o.state.code == m.code
    ensures o.Halted? ==> o.state.ip >= |m.code|
    decreases fuel
  {
    if fuel == 0 then OutOfFuel(m)
    else match StepWrapping(m)
      case Halt => Halted(m)
      case Next(m') => RunWrapping(m', fuel - 1)
  }

  /** With wrapping addition, `Add(a)` then `Add(b)` has the effect of `Add(a + b)`:
      the fusion pass preserves what a program does to the tape. */
  lemma WrappingAddsFuse(m: Machine, a: int, b: int)
    requires m.ip + 1 < |m.code| && m.code[m.ip] == Add(a) && m.code[m.ip + 1] == Add(b)
    ensures var m2 := StepWrapping(StepWrapping(m).state).state;
      var fused := StepWrapping(m.(code := m.code[m.ip := Add(a + b)])).state;
      && m2.ip == fused.ip + 1 && m2.ptr == fused.ptr
      && forall x: Address :: Cell(m2, x) == Cell(fused, x)
  {
    ByteAddAssoc(Cell(m, m.ptr), a, b);
  }
}
