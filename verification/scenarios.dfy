/** Whole-pipeline facts: source text through the front end into the interpreter and the
    QBE backend, the worked examples of the repository's tests, and two places where the
    code misbehaves: a fused addition past 255 panics where the same `+` signs one at a
    time would wrap, and an unclosed `[` compiles to a jump to instruction 0. */
module Scenarios {
  import opened Wrappers
  import opened Ir
  import opened Compiler
  import Vm
  import Backend

  // ---------------------------------------------------------------------------
  // Unfolding the passes one element at a time
  // ---------------------------------------------------------------------------

  lemma ScanSnoc(s: string, c: char)
    ensures Scan(s + [c]) == if Scan(s).Success? then ScanChar(Scan(s).value, c) else Scan(s)
  {
    assert (s + [c])[..|s|] == s;
  }

  lemma FuseSnoc(v: seq<Instruction>, i: Instruction)
    ensures Fuse(v + [i]) == Absorb(Fuse(v), i)
  {
    assert (v + [i])[..|v|] == v;
  }

  /** One more character for the first pass, on a prefix it accepted. */
  lemma ScanStep(s: string, c: char, st: Scanned, st': Scanned)
    requires Scan(s) == Success(st) && ScanChar(st, c) == Success(st')
    ensures Scan(s + [c]) == Success(st')
  {
    ScanSnoc(s, c);
  }

  lemma CompileOf(s: string, code: seq<Instruction>, open: nat, r: seq<Instruction>)
    requires Scan(s) == Success(Scanned(code, open))
    requires Resolve(Fuse(code)) == Some(r)
    ensures Compile(s) == Success(r)
  {
  }

  lemma ResolveOf(v: seq<Instruction>, st: Pairing, r: seq<Instruction>)
    requires PairFrom(v, 0, Pairing([], map[])) == Some(st)
    requires |r| == |v|
    requires forall k :: 0 <= k < |v| ==> r[k] == if k in st.partner then SetTarget(v[k], st.partner[k]) else v[k]
    ensures Resolve(v) == Some(r)
  {
    assert Retarget(v, st.partner) == r;
  }

  lemma {:induction false} PairFromNoJumps(v: seq<Instruction>, i: nat, st: Pairing)
    requires i <= |v|
    requires forall k :: 0 <= k < |v| ==> !v[k].IsJump()
    ensures PairFrom(v, i, st) == Some(st)
    decreases |v| - i
  {
    if i < |v| {
      assert !v[i].IsJump();
      PairFromNoJumps(v, i + 1, st);
    }
  }

  /** Code without jumps is left as it is by jump resolution. */
  lemma ResolveNoJumps(v: seq<Instruction>)
    requires forall k :: 0 <= k < |v| ==> !v[k].IsJump()
    ensures Resolve(v) == Some(v)
  {
    PairFromNoJumps(v, 0, Pairing([], map[]));
    assert Retarget(v, map[]) == v;
  }

  // ---------------------------------------------------------------------------
  // Fusion examples (the unit tests of src/compiler.rs)
  // ---------------------------------------------------------------------------

  lemma FuseSingleton(i: Instruction)
    ensures Fuse([i]) == [i]
  {
    FuseSnoc([], i);
    assert [] + [i] == [i];
  }

  /** Three instructions fuse as their first two, fused, absorb the third. */
  lemma FuseThree(a: Instruction, b: Instruction, c: Instruction)
    ensures Fuse([a, b, c]) == Absorb(Absorb([a], b), c)
  {
    FuseSingleton(a);
    FuseSnoc([a], b);
    assert [a] + [b] == [a, b];
    FuseSnoc([a, b], c);
    assert [a, b] + [c] == [a, b, c];
  }

  /** `[MP(1), MP(-1), MP(1)]` fuses to `[MP(1)]`. */
  lemma FusePointerExample()
    ensures Fuse([MovePointer(1), MovePointer(-1), MovePointer(1)]) == [MovePointer(1)]
  {
    FuseThree(MovePointer(1), MovePointer(-1), MovePointer(1));
    assert Absorb([MovePointer(1)], MovePointer(-1)) == [MovePointer(0)];
    assert Absorb([MovePointer(0)], MovePointer(1)) == [MovePointer(1)];
  }

  /** `[Add(1), Add(1), Add(-1)]` fuses to `[Add(1)]`. */
  lemma FuseAddExample()
    ensures Fuse([Add(1), Add(1), Add(-1)]) == [Add(1)]
  {
    FuseThree(Add(1), Add(1), Add(-1));
    assert Absorb([Add(1)], Add(1)) == [Add(2)];
    assert Absorb([Add(2)], Add(-1)) == [Add(1)];
  }

  /** A run that sums to zero is kept as a zero instruction, not dropped. */
  lemma ZeroSumKept()
    ensures Compile("+-") == Success([Add(0)])
  {
    assert [] + [Add(1)] == [Add(1)];
    assert [Add(1)] + [Add(-1)] == [Add(1), Add(-1)];
    ScanStep("", '+', Scanned([], 0), Scanned([Add(1)], 0));
    assert "" + ['+'] == "+";
    ScanStep("+", '-', Scanned([Add(1)], 0), Scanned([Add(1), Add(-1)], 0));
    assert "+" + ['-'] == "+-";
    FuseSingleton(Add(1));
    FuseSnoc([Add(1)], Add(-1));
    assert Absorb([Add(1)], Add(-1)) == [Add(0)];
    ResolveNoJumps([Add(0)]);
    CompileOf("+-", [Add(1), Add(-1)], 0, [Add(0)]);
  }

  const CloseFirstSource: string := "]["

  /** A `]` before any `[` is rejected by the first pass. */
  lemma CloseFirstRejected()
    ensures Compile(CloseFirstSource) == Failure(UnmatchedClose)
  {
    var s1 := "" + [']'];
    assert Scan(s1) == Failure(UnmatchedClose) by {
      ScanSnoc("", ']');
    }
    assert s1 + ['['] == CloseFirstSource;
    ScanSnoc(s1, '[');
  }

  // ---------------------------------------------------------------------------
  // Source text through the interpreter
  // ---------------------------------------------------------------------------

  lemma RunNext(m: Vm.Machine, fuel: nat)
    requires Vm.Step(m).Next?
    ensures Vm.Run(m, fuel + 1) == Vm.Run(Vm.Step(m).state, fuel)
  {
  }

  lemma RunEnd(m: Vm.Machine, fuel: nat)
    requires m.ip >= |m.code|
    ensures Vm.Run(m, fuel + 1) == Vm.Halted(m)
  {
  }

  lemma ScanAddOutput()
    ensures Scan("+++.") == Success(Scanned([Add(1), Add(1), Add(1), Output], 0))
  {
    assert [] + [Add(1)] == [Add(1)];
    assert "" + ['+'] == "+";
    ScanStep("", '+', Scanned([], 0), Scanned([Add(1)], 0));
    assert [Add(1)] + [Add(1)] == [Add(1), Add(1)];
    assert "+" + ['+'] == "++";
    ScanStep("+", '+', Scanned([Add(1)], 0), Scanned([Add(1), Add(1)], 0));
    assert [Add(1), Add(1)] + [Add(1)] == [Add(1), Add(1), Add(1)];
    assert "++" + ['+'] == "+++";
    ScanStep("++", '+', Scanned([Add(1), Add(1)], 0), Scanned([Add(1), Add(1), Add(1)], 0));
    assert [Add(1), Add(1), Add(1)] + [Output] == [Add(1), Add(1), Add(1), Output];
    assert "+++" + ['.'] == "+++.";
    ScanStep("+++", '.', Scanned([Add(1), Add(1), Add(1)], 0), Scanned([Add(1), Add(1), Add(1), Output], 0));
  }

  lemma FuseAddOutput()
    ensures Fuse([Add(1), Add(1), Add(1), Output]) == [Add(3), Output]
  {
    assert [] + [Add(1)] == [Add(1)];
    FuseSnoc([], Add(1));
    assert Absorb([], Add(1)) == [Add(1)];
    assert [Add(1)] + [Add(1)] == [Add(1), Add(1)];
    FuseSnoc([Add(1)], Add(1));
    assert Absorb([Add(1)], Add(1)) == [Add(2)];
    assert [Add(1), Add(1)] + [Add(1)] == [Add(1), Add(1), Add(1)];
    FuseSnoc([Add(1), Add(1)], Add(1));
    assert Absorb([Add(2)], Add(1)) == [Add(3)];
    assert [Add(1), Add(1), Add(1)] + [Output] == [Add(1), Add(1), Add(1), Output];
    FuseSnoc([Add(1), Add(1), Add(1)], Output);
    assert Absorb([Add(3)], Output) == [Add(3), Output];
  }

  /** `+++.` compiles to one addition of 3 and an output. */
  lemma CompileAddOutput()
    ensures Compile("+++.") == Success([Add(3), Output])
  {
    ScanAddOutput();
    FuseAddOutput();
    ResolveNoJumps([Add(3), Output]);
    CompileOf("+++.", [Add(1), Add(1), Add(1), Output], 0, [Add(3), Output]);
  }

  /** `+++.` prints the byte 3 and halts. */
  lemma AddOutputRuns()
    ensures Compile("+++.") == Success([Add(3), Output])
    ensures var o := Vm.Run(Vm.New([Add(3), Output], []), 3);
      o.Halted? && o.state.output == [3]
  {
    CompileAddOutput();
    AddOutputRunsFrom(Vm.New([Add(3), Output], []));
  }

  lemma AddOutputRunsFrom(m0: Vm.Machine)
    requires m0.code == [Add(3), Output] && m0.ip == 0 && Vm.Cell(m0, m0.ptr) == 0 && m0.output == []
    ensures var o := Vm.Run(m0, 3);
      o.Halted? && o.state.output == [3]
  {
    var m1 := Vm.Step(m0).state;
    assert Vm.Cell(m1, m0.ptr) == 3 && m1.ip == 1 && m1.ptr == m0.ptr && m1.output == [];
    var m2 := Vm.Step(m1).state;
    assert m2.ip == 2 && m2.output == [3];
    RunNext(m0, 2);
    RunNext(m1, 1);
    RunEnd(m2, 0);
  }

  /** `++[->+<]`: add 2 to cell 0, then move it into cell 1. */
  const MoveLoopSource: string := "++[->+<]"
  const MoveLoopScanned: seq<Instruction> := [Add(1), Add(1), JumpIfZero(0), Add(-1), MovePointer(1), Add(1), MovePointer(-1), JumpIfNonZero(0)]
  const MoveLoopFused: seq<Instruction> := [Add(2), JumpIfZero(0), Add(-1), MovePointer(1), Add(1), MovePointer(-1), JumpIfNonZero(0)]
  const MoveLoop: seq<Instruction> := [Add(2), JumpIfZero(6), Add(-1), MovePointer(1), Add(1), MovePointer(-1), JumpIfNonZero(1)]

  lemma ScanMoveLoop()
    ensures Scan(MoveLoopSource) == Success(Scanned(MoveLoopScanned, 0))
  {
    var s0: string, c0: seq<Instruction> := [], [];
    var s1, c1 := s0 + ['+'], c0 + [Add(1)];
    ScanStep(s0, '+', Scanned(c0, 0), Scanned(c1, 0));
    var s2, c2 := s1 + ['+'], c1 + [Add(1)];
    ScanStep(s1, '+', Scanned(c1, 0), Scanned(c2, 0));
    var s3, c3 := s2 + ['['], c2 + [JumpIfZero(0)];
    ScanStep(s2, '[', Scanned(c2, 0), Scanned(c3, 1));
    var s4, c4 := s3 + ['-'], c3 + [Add(-1)];
    ScanStep(s3, '-', Scanned(c3, 1), Scanned(c4, 1));
    var s5, c5 := s4 + ['>'], c4 + [MovePointer(1)];
    ScanStep(s4, '>', Scanned(c4, 1), Scanned(c5, 1));
    var s6, c6 := s5 + ['+'], c5 + [Add(1)];
    ScanStep(s5, '+', Scanned(c5, 1), Scanned(c6, 1));
    var s7, c7 := s6 + ['<'], c6 + [MovePointer(-1)];
    ScanStep(s6, '<', Scanned(c6, 1), Scanned(c7, 1));
    var s8, c8 := s7 + [']'], c7 + [JumpIfNonZero(0)];
    ScanStep(s7, ']', Scanned(c7, 1), Scanned(c8, 0));
    assert s8 == MoveLoopSource;
    assert c8 == MoveLoopScanned;
  }

  lemma FuseMoveLoop()
    ensures Fuse(MoveLoopScanned) == MoveLoopFused
  {
    var v0: seq<Instruction>, f0: seq<Instruction> := [], [];
    var v1, f1 := v0 + [Add(1)], [Add(1)];
    FuseSnoc(v0, Add(1));
    assert Absorb(f0, Add(1)) == f1;
    var v2, f2 := v1 + [Add(1)], [Add(2)];
    FuseSnoc(v1, Add(1));
    assert Absorb(f1, Add(1)) == f2;
    var v3, f3 := v2 + [JumpIfZero(0)], [Add(2), JumpIfZero(0)];
    FuseSnoc(v2, JumpIfZero(0));
    assert Absorb(f2, JumpIfZero(0)) == f3;
    var v4, f4 := v3 + [Add(-1)], [Add(2), JumpIfZero(0), Add(-1)];
    FuseSnoc(v3, Add(-1));
    assert Absorb(f3, Add(-1)) == f4;
    var v5, f5 := v4 + [MovePointer(1)], [Add(2), JumpIfZero(0), Add(-1), MovePointer(1)];
    FuseSnoc(v4, MovePointer(1));
    assert Absorb(f4, MovePointer(1)) == f5;
    var v6, f6 := v5 + [Add(1)], [Add(2), JumpIfZero(0), Add(-1), MovePointer(1), Add(1)];
    FuseSnoc(v5, Add(1));
    assert Absorb(f5, Add(1)) == f6;
    var v7, f7 := v6 + [MovePointer(-1)], [Add(2), JumpIfZero(0), Add(-1), MovePointer(1), Add(1), MovePointer(-1)];
    FuseSnoc(v6, MovePointer(-1));
    assert Absorb(f6, MovePointer(-1)) == f7;
    var v8, f8 := v7 + [JumpIfNonZero(0)], [Add(2), JumpIfZero(0), Add(-1), MovePointer(1), Add(1), MovePointer(-1), JumpIfNonZero(0)];
    FuseSnoc(v7, JumpIfNonZero(0));
    assert Absorb(f7, JumpIfNonZero(0)) == f8;
    assert v8 == MoveLoopScanned;
    assert f8 == MoveLoopFused;
  }

  lemma PairMoveLoop()
    ensures PairFrom(MoveLoopFused, 0, Pairing([], map[])) == Some(Pairing([], map[][1 := 6][6 := 1]))
  {
    var v := MoveLoopFused;
    assert v == [Add(2), JumpIfZero(0), Add(-1), MovePointer(1), Add(1), MovePointer(-1), JumpIfNonZero(0)];
    assert PairFrom(v, 0, Pairing([], map[])) == PairFrom(v, 1, Pairing([], map[]));
    assert PairFrom(v, 1, Pairing([], map[])) == PairFrom(v, 2, Pairing([1], map[]));
    assert PairFrom(v, 2, Pairing([1], map[])) == PairFrom(v, 3, Pairing([1], map[]));
    assert PairFrom(v, 3, Pairing([1], map[])) == PairFrom(v, 4, Pairing([1], map[]));
    assert PairFrom(v, 4, Pairing([1], map[])) == PairFrom(v, 5, Pairing([1], map[]));
    assert PairFrom(v, 5, Pairing([1], map[])) == PairFrom(v, 6, Pairing([1], map[]));
    assert [1][..0] == [];
    assert PairFrom(v, 6, Pairing([1], map[])) == PairFrom(v, 7, Pairing([], map[][1 := 6][6 := 1]));
  }

  lemma ResolveMoveLoop()
    ensures Resolve(MoveLoopFused) == Some(MoveLoop)
  {
    var v := MoveLoopFused;
    var st := Pairing([], map[][1 := 6][6 := 1]);
    PairMoveLoop();
    RetargetMoveLoop(st);
    ResolveOf(v, st, MoveLoop);
  }

  lemma RetargetMoveLoop(st: Pairing)
    requires st == Pairing([], map[][1 := 6][6 := 1])
    ensures forall k :: 0 <= k < |MoveLoopFused| ==>
      MoveLoop[k] == if k in st.partner then SetTarget(MoveLoopFused[k], st.partner[k]) else MoveLoopFused[k]
  {
    var v := MoveLoopFused;
    assert v == [Add(2), JumpIfZero(0), Add(-1), MovePointer(1), Add(1), MovePointer(-1), JumpIfNonZero(0)];
    assert MoveLoop == [Add(2), JumpIfZero(6), Add(-1), MovePointer(1), Add(1), MovePointer(-1), JumpIfNonZero(1)];
    forall k | 0 <= k < |v|
      ensures MoveLoop[k] == if k in st.partner then SetTarget(v[k], st.partner[k]) else v[k]
    {
      if k != 1 && k != 6 {
        assert k !in st.partner;
      }
    }
  }

  lemma CompileMoveLoop()
    ensures Compile(MoveLoopSource) == Success(MoveLoop)
  {
    ScanMoveLoop();
    FuseMoveLoop();
    ResolveMoveLoop();
    CompileOf(MoveLoopSource, MoveLoopScanned, 0, MoveLoop);
  }

  /** One pass of the loop of `++[->+<]`: six steps that move one unit from cell 0 to cell 1
      and return to the loop head, or leave the loop once cell 0 reaches 0. */
  lemma MoveLoopPass(m: Vm.Machine, fuel: nat) returns (m': Vm.Machine)
    requires m.code == MoveLoop && m.ip == 1 && m.ptr == 0 && Vm.Cell(m, 0) > 0
    requires Vm.Cell(m, 1) < 255
    ensures m'.code == MoveLoop && m'.ptr == 0
    ensures m'.ip == if Vm.Cell(m, 0) == 1 then 7 else 1
    ensures Vm.Cell(m', 0) == Vm.Cell(m, 0) - 1 && Vm.Cell(m', 1) == Vm.Cell(m, 1) + 1
    ensures Vm.Run(m, fuel + 6) == Vm.Run(m', fuel)
  {
    var m2 := MoveLoopEnter(m, fuel + 4);
    var m4 := MoveLoopShift(m2, fuel + 2);
    m' := MoveLoopBack(m4, fuel);
  }

  /** The `[-` of the loop: the test passes and cell 0 is decremented. */
  lemma MoveLoopEnter(m: Vm.Machine, fuel: nat) returns (m2: Vm.Machine)
    requires m.code == MoveLoop && m.ip == 1 && m.ptr == 0 && Vm.Cell(m, 0) > 0
    ensures m2.code == MoveLoop && m2.ip == 3 && m2.ptr == 0
    ensures Vm.Cell(m2, 0) == Vm.Cell(m, 0) - 1 && Vm.Cell(m2, 1) == Vm.Cell(m, 1)
    ensures Vm.Run(m, fuel + 2) == Vm.Run(m2, fuel)
  {
    var m1 := Vm.Step(m).state;
    assert m1 == m.(ip := 2);
    m2 := Vm.Step(m1).state;
    assert Vm.SameCellsExcept(m1, m2, 0);
    RunNext(m, fuel + 1);
    RunNext(m1, fuel);
  }

  /** The `>+` of the loop: cell 1 is incremented. */
  lemma MoveLoopShift(m2: Vm.Machine, fuel: nat) returns (m4: Vm.Machine)
    requires m2.code == MoveLoop && m2.ip == 3 && m2.ptr == 0 && Vm.Cell(m2, 1) < 255
    ensures m4.code == MoveLoop && m4.ip == 5 && m4.ptr == 1
    ensures Vm.Cell(m4, 0) == Vm.Cell(m2, 0) && Vm.Cell(m4, 1) == Vm.Cell(m2, 1) + 1
    ensures Vm.Run(m2, fuel + 2) == Vm.Run(m4, fuel)
  {
    var m3 := Vm.Step(m2).state;
    assert m3 == m2.(ip := 4, ptr := 1);
    m4 := Vm.Step(m3).state;
    assert Vm.SameCellsExcept(m3, m4, 1);
    RunNext(m2, fuel + 1);
    RunNext(m3, fuel);
  }

  /** The `<]` of the loop: back to cell 0, and round again unless it is now 0. */
  lemma MoveLoopBack(m4: Vm.Machine, fuel: nat) returns (m6: Vm.Machine)
    requires m4.code == MoveLoop && m4.ip == 5 && m4.ptr == 1
    ensures m6.code == MoveLoop && m6.ptr == 0
    ensures m6.ip == if Vm.Cell(m4, 0) == 0 then 7 else 1
    ensures Vm.Cell(m6, 0) == Vm.Cell(m4, 0) && Vm.Cell(m6, 1) == Vm.Cell(m4, 1)
    ensures Vm.Run(m4, fuel + 2) == Vm.Run(m6, fuel)
  {
    var m5 := Vm.Step(m4).state;
    assert m5 == m4.(ip := 6, ptr := 0);
    m6 := Vm.Step(m5).state;
    RunNext(m4, fuel + 1);
    RunNext(m5, fuel);
  }

  /** The loop of `++[->+<]` drains cell 0 into cell 1 and then the program halts. */
  lemma {:induction false} MoveLoopDrains(m: Vm.Machine, fuel: nat)
    requires m.code == MoveLoop && m.ip == 1 && m.ptr == 0
    requires Vm.Cell(m, 0) + Vm.Cell(m, 1) < 256
    requires fuel >= 6 * Vm.Cell(m, 0) + 3
    ensures var o := Vm.Run(m, fuel);
      o.Halted? && Vm.Cell(o.state, 0) == 0 && Vm.Cell(o.state, 1) == Vm.Cell(m, 0) + Vm.Cell(m, 1)
    decreases Vm.Cell(m, 0)
  {
    if Vm.Cell(m, 0) == 0 {
      MoveLoopSkips(m, fuel);
    } else {
      var m' := MoveLoopPass(m, fuel - 6);
      if m'.ip == 7 {
        RunEnd(m', fuel - 7);
      } else {
        MoveLoopDrains(m', fuel - 6);
      }
    }
  }

  /** With cell 0 at 0 the loop of `++[->+<]` is skipped and the program halts. */
  lemma MoveLoopSkips(m: Vm.Machine, fuel: nat)
    requires m.code == MoveLoop && m.ip == 1 && m.ptr == 0 && Vm.Cell(m, 0) == 0
    requires fuel >= 3
    ensures var o := Vm.Run(m, fuel);
      o.Halted? && Vm.Cell(o.state, 0) == 0 && Vm.Cell(o.state, 1) == Vm.Cell(m, 1)
  {
    var m1 := Vm.Step(m).state;
    assert m1 == m.(ip := 6);
    var m2 := Vm.Step(m1).state;
    assert m2 == m.(ip := 7);
    RunNext(m, fuel - 1);
    RunNext(m1, fuel - 2);
    RunEnd(m2, fuel - 3);
  }

  /** The code of `++[->+<]` halts with cell 0 at 0 and cell 1 at 2. */
  lemma MoveLoopRuns(fuel: nat)
    requires fuel >= 16
    ensures var o := Vm.Run(Vm.New(MoveLoop, []), fuel);
      o.Halted? && Vm.Cell(o.state, 0) == 0 && Vm.Cell(o.state, 1) == 2
  {
    var m0 := Vm.New(MoveLoop, []);
    MoveLoopRunsFrom(m0, fuel);
  }

  /** From a fresh machine on the code of `++[->+<]`: the run halts with the 2 moved to cell 1. */
  lemma MoveLoopRunsFrom(m0: Vm.Machine, fuel: nat)
    requires m0.code == MoveLoop && m0.ip == 0 && m0.ptr == 0
    requires Vm.Cell(m0, 0) == 0 && Vm.Cell(m0, 1) == 0
    requires fuel >= 16
    ensures var o := Vm.Run(m0, fuel);
      o.Halted? && Vm.Cell(o.state, 0) == 0 && Vm.Cell(o.state, 1) == 2
  {
    assert m0.code[0] == Add(2);
    var m1 := Vm.Step(m0).state;
    assert Vm.SameCellsExcept(m0, m1, 0);
    assert Vm.Cell(m1, 1) == Vm.Cell(m0, 1);
    RunNext(m0, fuel - 1);
    MoveLoopDrains(m1, fuel - 1);
  }

  /** Source to result: `++[->+<]` compiles, and its code halts with cell 0 at 0 and cell 1 at 2. */
  lemma MoveLoopEndToEnd(fuel: nat)
    requires fuel >= 16
    ensures Compile(MoveLoopSource).Success?
    ensures var o := Vm.Run(Vm.New(Compile(MoveLoopSource).value, []), fuel);
      o.Halted? && Vm.Cell(o.state, 0) == 0 && Vm.Cell(o.state, 1) == 2
  {
    CompileMoveLoop();
    MoveLoopRuns(fuel);
  }

  // ---------------------------------------------------------------------------
  // `,[.,]` echoes its input; `[-]` clears a cell
  // ---------------------------------------------------------------------------

  /** `,[.,]`: read a byte, then print it and read the next until a 0 byte is read. */
  const CatSource: string := ",[.,]"
  const CatScanned: seq<Instruction> := [Input, JumpIfZero(0), Output, Input, JumpIfNonZero(0)]
  const Cat: seq<Instruction> := [Input, JumpIfZero(4), Output, Input, JumpIfNonZero(1)]

  lemma ScanCat()
    ensures Scan(CatSource) == Success(Scanned(CatScanned, 0))
  {
    var s0: string, c0: seq<Instruction> := [], [];
    var s1, c1 := s0 + [','], c0 + [Input];
    ScanStep(s0, ',', Scanned(c0, 0), Scanned(c1, 0));
    var s2, c2 := s1 + ['['], c1 + [JumpIfZero(0)];
    ScanStep(s1, '[', Scanned(c1, 0), Scanned(c2, 1));
    var s3, c3 := s2 + ['.'], c2 + [Output];
    ScanStep(s2, '.', Scanned(c2, 1), Scanned(c3, 1));
    var s4, c4 := s3 + [','], c3 + [Input];
    ScanStep(s3, ',', Scanned(c3, 1), Scanned(c4, 1));
    var s5, c5 := s4 + [']'], c4 + [JumpIfNonZero(0)];
    ScanStep(s4, ']', Scanned(c4, 1), Scanned(c5, 0));
    assert s5 == CatSource;
    assert c5 == CatScanned;
  }

  lemma PairCat()
    ensures PairFrom(CatScanned, 0, Pairing([], map[])) == Some(Pairing([], map[][1 := 4][4 := 1]))
  {
    var v := CatScanned;
    assert v == [Input, JumpIfZero(0), Output, Input, JumpIfNonZero(0)];
    assert PairFrom(v, 0, Pairing([], map[])) == PairFrom(v, 1, Pairing([], map[]));
    assert PairFrom(v, 1, Pairing([], map[])) == PairFrom(v, 2, Pairing([1], map[]));
    assert PairFrom(v, 2, Pairing([1], map[])) == PairFrom(v, 3, Pairing([1], map[]));
    assert PairFrom(v, 3, Pairing([1], map[])) == PairFrom(v, 4, Pairing([1], map[]));
    assert [1][..0] == [];
    assert PairFrom(v, 4, Pairing([1], map[])) == PairFrom(v, 5, Pairing([], map[][1 := 4][4 := 1]));
  }

  lemma ResolveCat()
    ensures Resolve(CatScanned) == Some(Cat)
  {
    var v := CatScanned;
    var st := Pairing([], map[][1 := 4][4 := 1]);
    PairCat();
    assert forall k :: 0 <= k < |v| ==>
        Cat[k] == if k in st.partner then SetTarget(v[k], st.partner[k]) else v[k] by {
      assert v == [Input, JumpIfZero(0), Output, Input, JumpIfNonZero(0)];
      assert Cat == [Input, JumpIfZero(4), Output, Input, JumpIfNonZero(1)];
    }
    ResolveOf(v, st, Cat);
  }

  /** `,[.,]` compiles to its five instructions, the two jumps targeting each other. */
  lemma CompileCat()
    ensures Compile(CatSource) == Success(Cat)
  {
    ScanCat();
    assert Fused(CatScanned);
    FuseFixesFused(CatScanned);
    ResolveCat();
    CompileOf(CatSource, CatScanned, 0, Cat);
  }

  /** The input instruction at the start of `,[.,]`: it reads the first byte, or 0. */
  lemma CatRead(m: Vm.Machine, fuel: nat) returns (m1: Vm.Machine)
    requires m.code == Cat && m.ip == 0
    ensures m1.code == Cat && m1.ip == 1 && m1.ptr == m.ptr && m1.output == m.output
    ensures Vm.Cell(m1, m.ptr) == (if |m.input| > 0 then m.input[0] else 0)
    ensures m1.input == (if |m.input| > 0 then m.input[1..] else [])
    ensures Vm.Run(m, fuel + 1) == Vm.Run(m1, fuel)
  {
    m1 := Vm.Step(m).state;
    RunNext(m, fuel);
  }

  /** The `[.` of the loop on a non-zero cell: the test passes and the cell is printed. */
  lemma CatPrint(m: Vm.Machine, fuel: nat) returns (m2: Vm.Machine)
    requires m.code == Cat && m.ip == 1 && Vm.Cell(m, m.ptr) != 0
    ensures m2 == m.(ip := 3, output := m.output + [Vm.Cell(m, m.ptr)])
    ensures Vm.Run(m, fuel + 2) == Vm.Run(m2, fuel)
  {
    var m1 := Vm.Step(m).state;
    assert m1 == m.(ip := 2);
    m2 := Vm.Step(m1).state;
    RunNext(m, fuel + 1);
    RunNext(m1, fuel);
  }

  /** The `,]` of the loop: read the next byte, and go round again unless it is 0. */
  lemma CatNext(m2: Vm.Machine, fuel: nat) returns (m4: Vm.Machine)
    requires m2.code == Cat && m2.ip == 3
    ensures m4.code == Cat && m4.ptr == m2.ptr && m4.output == m2.output
    ensures Vm.Cell(m4, m2.ptr) == (if |m2.input| > 0 then m2.input[0] else 0)
    ensures m4.input == (if |m2.input| > 0 then m2.input[1..] else [])
    ensures m4.ip == if Vm.Cell(m4, m2.ptr) != 0 then 1 else 5
    ensures Vm.Run(m2, fuel + 2) == Vm.Run(m4, fuel)
  {
    var m3 := Vm.Step(m2).state;
    assert m3.ip == 4 && m3.ptr == m2.ptr;
    m4 := Vm.Step(m3).state;
    assert m4 == m3.(ip := m4.ip);
    RunNext(m2, fuel + 1);
    RunNext(m3, fuel);
  }

  /** From the loop head with a non-zero byte in the cell, `,[.,]` prints that byte and then
      the rest of an input free of 0 bytes, and halts. */
  lemma {:induction false} CatEchoes(m: Vm.Machine, fuel: nat)
    requires m.code == Cat && m.ip == 1 && Vm.Cell(m, m.ptr) != 0
    requires forall k :: 0 <= k < |m.input| ==> m.input[k] != 0
    requires fuel >= 4 * |m.input| + 5
    ensures var o := Vm.Run(m, fuel);
      o.Halted? && o.state.output == m.output + [Vm.Cell(m, m.ptr)] + m.input
    decreases |m.input|
  {
    var m4 := CatRound(m, fuel - 4);
    if |m.input| > 0 {
      CatEchoes(m4, fuel - 4);
      CatJoin(m, m4, fuel);
    } else {
      RunEnd(m4, fuel - 5);
    }
  }

  /** The output after one round, then the rest of the run, is the output of the whole run. */
  lemma CatJoin(m: Vm.Machine, m4: Vm.Machine, fuel: nat)
    requires |m.input| > 0 && fuel >= 4
    requires m4.output == m.output + [Vm.Cell(m, m.ptr)] && m4.ptr == m.ptr
    requires Vm.Cell(m4, m.ptr) == m.input[0] && m4.input == m.input[1..]
    requires Vm.Run(m, (fuel - 4) + 4) == Vm.Run(m4, fuel - 4)
    requires var o := Vm.Run(m4, fuel - 4);
      o.Halted? && o.state.output == m4.output + [Vm.Cell(m4, m4.ptr)] + m4.input
    ensures var o := Vm.Run(m, fuel);
      o.Halted? && o.state.output == m.output + [Vm.Cell(m, m.ptr)] + m.input
  {
    assert [m.input[0]] + m.input[1..] == m.input;
  }

  /** One round of the loop of `,[.,]` on a non-zero cell: print it, read the next byte. */
  lemma CatRound(m: Vm.Machine, fuel: nat) returns (m4: Vm.Machine)
    requires m.code == Cat && m.ip == 1 && Vm.Cell(m, m.ptr) != 0
    ensures m4.code == Cat && m4.ptr == m.ptr && m4.output == m.output + [Vm.Cell(m, m.ptr)]
    ensures Vm.Cell(m4, m.ptr) == (if |m.input| > 0 then m.input[0] else 0)
    ensures m4.input == (if |m.input| > 0 then m.input[1..] else [])
    ensures m4.ip == if Vm.Cell(m4, m.ptr) != 0 then 1 else 5
    ensures Vm.Run(m, fuel + 4) == Vm.Run(m4, fuel)
  {
    var m2 := CatPrint(m, fuel + 2);
    m4 := CatNext(m2, fuel);
  }

  /** With an empty input `,[.,]` reads 0, skips its loop and halts without printing. */
  lemma CatEmpty(m1: Vm.Machine, fuel: nat)
    requires m1.code == Cat && m1.ip == 1 && Vm.Cell(m1, m1.ptr) == 0
    requires fuel >= 3
    ensures var o := Vm.Run(m1, fuel);
      o.Halted? && o.state.output == m1.output
  {
    var m2 := Vm.Step(m1).state;
    assert m2 == m1.(ip := 4);
    var m3 := Vm.Step(m2).state;
    assert m3 == m1.(ip := 5);
    RunNext(m1, fuel - 1);
    RunNext(m2, fuel - 2);
    RunEnd(m3, fuel - 3);
  }

  /** `,[.,]` copies an input free of 0 bytes to the output and halts. */
  lemma CatCopies(m0: Vm.Machine, fuel: nat)
    requires m0.code == Cat && m0.ip == 0 && m0.output == []
    requires forall k :: 0 <= k < |m0.input| ==> m0.input[k] != 0
    requires fuel >= 4 * |m0.input| + 5
    ensures var o := Vm.Run(m0, fuel);
      o.Halted? && o.state.output == m0.input
  {
    var m1 := CatRead(m0, fuel - 1);
    if |m0.input| > 0 {
      CatEchoes(m1, fuel - 1);
      assert [m0.input[0]] + m0.input[1..] == m0.input;
    } else {
      CatEmpty(m1, fuel - 1);
    }
  }

  /** Source to result: `,[.,]` compiles, and on an input free of 0 bytes it prints exactly
      that input and halts. */
  lemma CatEndToEnd(input: seq<Vm.Byte>, fuel: nat)
    requires forall k :: 0 <= k < |input| ==> input[k] != 0
    requires fuel >= 4 * |input| + 5
    ensures Compile(CatSource) == Success(Cat)
    ensures var o := Vm.Run(Vm.New(Compile(CatSource).value, input), fuel);
      o.Halted? && o.state.output == input
  {
    CompileCat();
    CatCopies(Vm.New(Cat, input), fuel);
  }

  /** `,[.,]` on the input `AB` prints `AB` and halts. */
  lemma CatEchoesAB()
    ensures Compile(CatSource) == Success(Cat)
    ensures var o := Vm.Run(Vm.New(Cat, [65, 66]), 20);
      o.Halted? && o.state.output == [65, 66]
  {
    CatEndToEnd([65, 66], 20);
  }

  /** `[-]`: decrement the current cell until it is 0. */
  const ClearSource: string := "[-]"
  const ClearScanned: seq<Instruction> := [JumpIfZero(0), Add(-1), JumpIfNonZero(0)]
  const Clear: seq<Instruction> := [JumpIfZero(2), Add(-1), JumpIfNonZero(0)]

  lemma ScanClear()
    ensures Scan(ClearSource) == Success(Scanned(ClearScanned, 0))
  {
    var s0: string, c0: seq<Instruction> := [], [];
    var s1, c1 := s0 + ['['], c0 + [JumpIfZero(0)];
    ScanStep(s0, '[', Scanned(c0, 0), Scanned(c1, 1));
    var s2, c2 := s1 + ['-'], c1 + [Add(-1)];
    ScanStep(s1, '-', Scanned(c1, 1), Scanned(c2, 1));
    var s3, c3 := s2 + [']'], c2 + [JumpIfNonZero(0)];
    ScanStep(s2, ']', Scanned(c2, 1), Scanned(c3, 0));
    assert s3 == ClearSource;
    assert c3 == ClearScanned;
  }

  lemma ResolveClear()
    ensures Resolve(ClearScanned) == Some(Clear)
  {
    var v := ClearScanned;
    var st := Pairing([], map[][0 := 2][2 := 0]);
    assert PairFrom(v, 0, Pairing([], map[])) == Some(st) by {
      assert v == [JumpIfZero(0), Add(-1), JumpIfNonZero(0)];
      assert PairFrom(v, 0, Pairing([], map[])) == PairFrom(v, 1, Pairing([0], map[]));
      assert PairFrom(v, 1, Pairing([0], map[])) == PairFrom(v, 2, Pairing([0], map[]));
      assert [0][..0] == [];
      assert PairFrom(v, 2, Pairing([0], map[])) == PairFrom(v, 3, st);
    }
    assert forall k :: 0 <= k < |v| ==>
        Clear[k] == if k in st.partner then SetTarget(v[k], st.partner[k]) else v[k] by {
      assert v == [JumpIfZero(0), Add(-1), JumpIfNonZero(0)];
      assert Clear == [JumpIfZero(2), Add(-1), JumpIfNonZero(0)];
    }
    ResolveOf(v, st, Clear);
  }

  /** `[-]` compiles to a loop of one decrement whose jumps target each other. */
  lemma CompileClear()
    ensures Compile(ClearSource) == Success(Clear)
  {
    ScanClear();
    assert Fused(ClearScanned);
    FuseFixesFused(ClearScanned);
    ResolveClear();
    CompileOf(ClearSource, ClearScanned, 0, Clear);
  }

  /** One round of `[-]` on a non-zero cell: three steps that decrement it and return to the
      loop head, or reach the end once it is 0. */
  lemma ClearPass(m: Vm.Machine, fuel: nat) returns (m': Vm.Machine)
    requires m.code == Clear && m.ip == 0 && Vm.Cell(m, m.ptr) > 0
    ensures m'.code == Clear && m'.ptr == m.ptr && m'.output == m.output
    ensures Vm.Cell(m', m.ptr) == Vm.Cell(m, m.ptr) - 1
    ensures m'.ip == if Vm.Cell(m', m.ptr) == 0 then 3 else 0
    ensures Vm.Run(m, fuel + 3) == Vm.Run(m', fuel)
  {
    var m1 := Vm.Step(m).state;
    assert m1 == m.(ip := 1);
    var m2 := Vm.Step(m1).state;
    assert m2.ip == 2 && m2.ptr == m.ptr && m2.output == m.output;
    m' := Vm.Step(m2).state;
    RunNext(m, fuel + 2);
    RunNext(m1, fuel + 1);
    RunNext(m2, fuel);
  }

  /** On a zero cell `[-]` runs no round: its two tests fall through and it halts. */
  lemma ClearSkips(m: Vm.Machine, fuel: nat)
    requires m.code == Clear && m.ip == 0 && Vm.Cell(m, m.ptr) == 0
    requires fuel >= 3
    ensures var o := Vm.Run(m, fuel);
      o.Halted? && o.state == m.(ip := 3)
  {
    var m1 := Vm.Step(m).state;
    assert m1 == m.(ip := 2);
    var m2 := Vm.Step(m1).state;
    assert m2 == m.(ip := 3);
    RunNext(m, fuel - 1);
    RunNext(m1, fuel - 2);
    RunEnd(m2, fuel - 3);
  }

  /** `[-]` sets the current cell to 0, whatever it held, prints nothing, and halts. */
  lemma {:induction false} ClearDrains(m: Vm.Machine, fuel: nat)
    requires m.code == Clear && m.ip == 0
    requires fuel >= 3 * Vm.Cell(m, m.ptr) + 3
    ensures var o := Vm.Run(m, fuel);
      o.Halted? && Vm.Cell(o.state, m.ptr) == 0 && o.state.output == m.output
    decreases Vm.Cell(m, m.ptr)
  {
    if Vm.Cell(m, m.ptr) == 0 {
      ClearSkips(m, fuel);
    } else {
      var m' := ClearPass(m, fuel - 3);
      if m'.ip == 3 {
        RunEnd(m', fuel - 4);
      } else {
        ClearDrains(m', fuel - 3);
      }
    }
  }

  /** Source to result: `[-]` compiles, and on a fresh tape it halts after its two tests,
      before any round of its loop, having printed nothing. */
  lemma ClearZeroCell(input: seq<Vm.Byte>)
    ensures Compile(ClearSource) == Success(Clear)
    ensures var o := Vm.Run(Vm.New(Compile(ClearSource).value, input), 3);
      o.Halted? && o.state.ip == 3 && o.state.output == []
  {
    CompileClear();
    ClearSkips(Vm.New(Clear, input), 3);
  }

  // ---------------------------------------------------------------------------
  // A long run of `+` is fused into an addition the interpreter refuses
  // ---------------------------------------------------------------------------

  /** `k` plus signs. */
  function Pluses(k: nat): (s: string)
    ensures |s| == k && forall j :: 0 <= j < k ==> s[j] == '+'
  {
    seq(k, j => '+')
  }

  /** `k` unit additions, what the first pass makes of `Pluses(k)`. */
  function AddOnes(k: nat): (v: seq<Instruction>)
    ensures |v| == k && forall j :: 0 <= j < k ==> v[j] == Add(1)
  {
    seq(k, j => Add(1))
  }

  lemma {:induction false} ScanPluses(k: nat)
    ensures Scan(Pluses(k)) == Success(Scanned(AddOnes(k), 0))
  {
    if k > 0 {
      ScanPluses(k - 1);
      assert Pluses(k) == Pluses(k - 1) + ['+'];
      assert AddOnes(k) == AddOnes(k - 1) + [Add(1)];
      ScanStep(Pluses(k - 1), '+', Scanned(AddOnes(k - 1), 0), Scanned(AddOnes(k), 0));
    }
  }

  lemma {:induction false} FusePluses(k: nat)
    requires k >= 1
    ensures Fuse(AddOnes(k)) == [Add(k)]
  {
    if k == 1 {
      FuseOnePlus();
    } else {
      FusePluses(k - 1);
      FusePlusesStep(k);
    }
  }

  lemma FuseOnePlus()
    ensures Fuse(AddOnes(1)) == [Add(1)]
  {
    assert AddOnes(1) == [Add(1)];
    FuseSingleton(Add(1));
  }

  lemma FusePlusesStep(k: nat)
    requires k >= 2 && Fuse(AddOnes(k - 1)) == [Add(k - 1)]
    ensures Fuse(AddOnes(k)) == [Add(k)]
  {
    var p := AddOnes(k - 1);
    assert AddOnes(k) == p + [Add(1)];
    FuseAppendOne(p, k - 1);
  }

  /** A `+` after a run that fused to `Add(n)` extends it to `Add(n + 1)`. */
  lemma FuseAppendOne(p: seq<Instruction>, n: int)
    requires Fuse(p) == [Add(n)]
    ensures Fuse(p + [Add(1)]) == [Add(n + 1)]
  {
    FuseSnoc(p, Add(1));
    assert [Add(n)][..0] == [];
  }

  /** However many there are, `k` plus signs in a row compile to the one instruction `Add(k)`. */
  lemma CompilePluses(k: nat)
    requires k >= 1
    ensures Compile(Pluses(k)) == Success([Add(k)])
  {
    var s, code := Pluses(k), AddOnes(k);
    assert Scan(s) == Success(Scanned(code, 0)) by {
      ScanPluses(k);
    }
    assert Resolve(Fuse(code)) == Some([Add(k)]) by {
      FusePluses(k);
      ResolveNoJumps([Add(k)]);
    }
    CompileOf(s, code, 0, [Add(k)]);
  }

  /** As the source is written: with more than 255 plus signs the fused addition panics on
      the first step, while the same additions one at a time halt with `k % 256` in the cell. */
  lemma LongIncrementAborts(k: nat, input: seq<Vm.Byte>, fuel: nat)
    requires k > 255 && fuel >= 1
    ensures Compile(Pluses(k)) == Success([Add(k)])
    ensures Vm.Run(Vm.New([Add(k)], input), fuel).Aborted?
    ensures var o := Vm.Run(Vm.New(AddOnes(k), input), k + 1);
      o.Halted? && Vm.Cell(o.state, 0) == k % 256
  {
    CompilePluses(k);
    OneByOne(k, input);
  }

  /** Corrected: with wrapping addition the fused program halts with the same cell as the
      unfused one, `k % 256`, for every `k`. */
  lemma LongIncrementWraps(k: nat, input: seq<Vm.Byte>, fuel: nat)
    requires fuel >= 2
    ensures var o := Vm.RunWrapping(Vm.New([Add(k)], input), fuel);
      o.Halted? && Vm.Cell(o.state, 0) == k % 256
    ensures var o := Vm.Run(Vm.New(AddOnes(k), input), k + 1);
      o.Halted? && Vm.Cell(o.state, 0) == k % 256
  {
    var m0 := Vm.New([Add(k)], input);
    var m1 := Vm.StepWrapping(m0).state;
    assert Vm.RunWrapping(m0, fuel) == Vm.RunWrapping(m1, fuel - 1);
    assert Vm.Step(m1) == Vm.Halt;
    OneByOne(k, input);
  }

  /** The unfused code of `k` plus signs halts after `k` steps with `k % 256` in cell 0. */
  lemma OneByOne(k: nat, input: seq<Vm.Byte>)
    ensures var o := Vm.Run(Vm.New(AddOnes(k), input), k + 1);
      o.Halted? && Vm.Cell(o.state, 0) == k % 256
  {
    var m0 := Vm.New(AddOnes(k), input);
    assert Vm.Cell(m0, 0) == 0;
    Vm.AddOneRepeated(m0, k);
    var s := Vm.Run(m0, k).state;
    assert s.ip == k && s.code == AddOnes(k) && Vm.Cell(s, 0) == k % 256;
    Vm.RunSplit(m0, k, 1);
    RunEnd(s, 0);
    assert Vm.Run(m0, k + 1) == Vm.Halted(s);
  }

  // ---------------------------------------------------------------------------
  // An unclosed `[` is accepted and loops
  // ---------------------------------------------------------------------------

  const OpenSource: string := "["

  /** As the source is written: a lone `[` compiles, keeping its placeholder target 0. */
  lemma CompileOpen()
    ensures Compile(OpenSource) == Success([JumpIfZero(0)])
  {
    assert [] + [JumpIfZero(0)] == [JumpIfZero(0)];
    assert "" + ['['] == OpenSource;
    ScanStep("", '[', Scanned([], 0), Scanned([JumpIfZero(0)], 1));
    FuseSingleton(JumpIfZero(0));
    assert [] + [0] == [0];
    assert PairFrom([JumpIfZero(0)], 1, Pairing([0], map[])) == Some(Pairing([0], map[]));
    ResolveOf([JumpIfZero(0)], Pairing([0], map[]), [JumpIfZero(0)]);
    CompileOf(OpenSource, [JumpIfZero(0)], 1, [JumpIfZero(0)]);
  }

  /** A `JumpIfZero(0)` at position 0 over a zero cell jumps to itself for ever. */
  lemma {:induction false} OpenSpins(m: Vm.Machine, fuel: nat)
    requires m.code == [JumpIfZero(0)] && m.ip == 0 && Vm.Cell(m, m.ptr) == 0
    ensures Vm.Run(m, fuel) == Vm.OutOfFuel(m)
    decreases fuel
  {
    if fuel > 0 {
      assert Vm.Step(m).Next? && Vm.Step(m).state == m.(ip := 0);
      assert m.(ip := 0) == m;
      OpenSpins(m, fuel - 1);
    }
  }

  /** As the source is written: the program compiled from `[` never halts, whatever the
      input and however much fuel it is given. */
  lemma UnclosedOpenSpins(input: seq<Vm.Byte>, fuel: nat)
    ensures Compile(OpenSource).Success?
    ensures Vm.Run(Vm.New(Compile(OpenSource).value, input), fuel).OutOfFuel?
  {
    CompileOpen();
    OpenSpins(Vm.New([JumpIfZero(0)], input), fuel);
  }

  /** Corrected: the strict front end rejects `[`, and every program it accepts lowers to
      QBE text whose jumps all name labels that `$main` defines, each exactly once. */
  lemma StrictRejectsOpen()
    ensures CompileStrict(OpenSource) == Failure(UnmatchedOpen)
  {
    assert [] + [JumpIfZero(0)] == [JumpIfZero(0)];
    assert "" + ['['] == OpenSource;
    ScanStep("", '[', Scanned([], 0), Scanned([JumpIfZero(0)], 1));
  }

  lemma StrictLowers(s: string, numCells: nat)
    requires CompileStrict(s).Success?
    ensures var lines := Backend.MainLines(CompileStrict(s).value, numCells);
      && Backend.JumpTargetsValid(CompileStrict(s).value)
      && Backend.DefinedOnce(lines)
      && Backend.Referenced(lines) <= Backend.Defined(lines)
  {
    var r := CompileStrict(s).value;
    CompileStrictSpec(s);
    Backend.MatchedTargetsValid(r);
    Backend.MainLabels(r, numCells);
    Backend.MainLabelsResolve(r, numCells);
  }
}
