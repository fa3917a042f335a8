/** The front end (src/compiler.rs): characters to instructions, adjacency fusion,
    and re-resolution of jump targets on the fused sequence. */
module Compiler {
  import opened Wrappers
  import opened Ir

  /** The two panics of the front end. */
  datatype CompileError =
    | UnmatchedClose        // a `]` with no open `[` in the first pass
    | UnmatchedAfterPasses  // a `JumpIfNonZero` with no open jump after fusion
    | UnmatchedOpen         // a `[` never closed; only `CompileStrict` reports it

  // ---------------------------------------------------------------------------
  // Pass 1: character mapping
  // ---------------------------------------------------------------------------

  /** The instruction a command character stands for; `None` for comment characters. */
  function Primitive(c: char): Option<Instruction> {
    if c == '>' then Some(MovePointer(1))
    else if c == '<' then Some(MovePointer(-1))
    else if c == '+' then Some(Add(1))
    else if c == '-' then Some(Add(-1))
    else if c == '.' then Some(Output)
    else if c == ',' then Some(Input)
    else if c == '[' then Some(JumpIfZero(0))
    else if c == ']' then Some(JumpIfNonZero(0))
    else None
  }

  predicate IsCommand(c: char) {
    Primitive(c).Some?
  }

  /** `s` with every comment character removed: each command character is kept as often as
      it occurs in `s`, and nothing else is. */
  function Commands(s: string): (r: string)
    ensures |r| <= |s|
    ensures forall k :: 0 <= k < |r| ==> IsCommand(r[k])
    ensures forall c :: IsCommand(c) ==> multiset(r)[c] == multiset(s)[c]
  {
    if |s| == 0 then []
    else
      assert s == s[..|s| - 1] + [s[|s| - 1]];
      Commands(s[..|s| - 1]) + (if IsCommand(s[|s| - 1]) then [s[|s| - 1]] else [])
  }

  /** Opening minus closing brackets in `s`. */
  function Balance(s: string): int {
    if |s| == 0 then 0
    else
      var c := s[|s| - 1];
      Balance(s[..|s| - 1]) + (if c == '[' then 1 else if c == ']' then -1 else 0)
  }

  /** State of the first pass: instructions so far and the height of the bracket stack
      (the source pushes `()` per `[`, so only its height matters). */
  datatype Scanned = Scanned(code: seq<Instruction>, open: nat)

  /** One iteration of the character loop. */
  function ScanChar(st: Scanned, c: char): Result<Scanned, CompileError> {
    match c
    case '>' => Success(st.(code := st.code + [MovePointer(1)]))
    case '<' => Success(st.(code := st.code + [MovePointer(-1)]))
    case '+' => Success(st.(code := st.code + [Add(1)]))
    case '-' => Success(st.(code := st.code + [Add(-1)]))
    case '.' => Success(st.(code := st.code + [Output]))
    case ',' => Success(st.(code := st.code + [Input]))
    case '[' => Success(Scanned(st.code + [JumpIfZero(0)], st.open + 1))
    case ']' =>
      if st.open == 0 then Failure(UnmatchedClose)
      else Success(Scanned(st.code + [JumpIfNonZero(0)], st.open - 1))
    case _ => Success(st)
  }

  /** The first pass over the whole input; it stops at the first unmatched `]`. */
  function Scan(s: string): Result<Scanned, CompileError> {
    if |s| == 0 then Success(Scanned([], 0))
    else match Scan(s[..|s| - 1])
      case Failure(e) => Failure(e)
      case Success(st) => ScanChar(st, s[|s| - 1])
  }

  /** The first pass rejects exactly the inputs with a prefix holding more `]` than `[`,
      and when it accepts, the height of its bracket stack is the bracket balance. */
  lemma {:induction false} ScanRejects(s: string)
    ensures Scan(s).Failure? <==> exists k :: 0 <= k <= |s| && Balance(s[..k]) < 0
    ensures Scan(s).Failure? ==> Scan(s).error == UnmatchedClose
    ensures Scan(s).Success? ==> Scan(s).value.open == Balance(s)
  {
    if |s| == 0 {
      assert s[..0] == s;
    } else {
      var p := s[..|s| - 1];
      var c := s[|s| - 1];
      ScanRejects(p);
      assert s[..|s|] == s;
      if Scan(p).Failure? {
        var k :| 0 <= k <= |p| && Balance(p[..k]) < 0;
        assert s[..k] == p[..k];
      } else if Scan(s).Failure? {
        assert Balance(s[..|s|]) < 0;
      } else {
        forall k | 0 <= k <= |s|
          ensures Balance(s[..k]) >= 0
        {
          if k <= |p| {
            assert s[..k] == p[..k];
          }
        }
      }
    }
  }

  /** One accepted character appends its primitive instruction, if any, and moves the
      stack height exactly as the instruction moves the jump depth. */
  lemma ScanCharAppends(st: Scanned, c: char)
    requires ScanChar(st, c).Success?
    ensures IsCommand(c) ==>
      && ScanChar(st, c).value.code == st.code + [Primitive(c).value]
      && DepthStep(st.open, Primitive(c).value) == Some(ScanChar(st, c).value.open)
    ensures !IsCommand(c) ==> ScanChar(st, c).value == st
  {
  }

  /** When the first pass accepts, each command character has become its primitive
      instruction, in order, and the instructions' jump depth is the stack height. */
  lemma {:induction false} ScanCode(s: string)
    requires Scan(s).Success?
    ensures
      var st := Scan(s).value;
      && |st.code| == |Commands(s)|
      && (forall k :: 0 <= k < |st.code| ==> Some(st.code[k]) == Primitive(Commands(s)[k]))
      && Depth(st.code) == Some(st.open)
  {
    if |s| > 0 {
      var p := s[..|s| - 1];
      var c := s[|s| - 1];
      ScanCode(p);
      var st := Scan(p).value;
      var st' := Scan(s).value;
      assert st' == ScanChar(st, c).value;
      ScanCharAppends(st, c);
      if IsCommand(c) {
        var i := Primitive(c).value;
        var cs, cp := Commands(s), Commands(p);
        assert cs == cp + [c];
        DepthAppend(st.code, i);
        forall k | 0 <= k < |st'.code|
          ensures Some(st'.code[k]) == Primitive(cs[k])
        {
          if k < |st.code| {
            assert st'.code[k] == st.code[k] && cs[k] == cp[k];
          }
        }
      } else {
        assert Commands(s) == Commands(p);
      }
    }
  }

  /** Comment characters never matter: the first pass sees only the commands. */
  lemma {:induction false} ScanIgnoresComments(s: string)
    ensures Scan(s) == Scan(Commands(s))
  {
    if |s| > 0 {
      var p := s[..|s| - 1];
      var c := s[|s| - 1];
      ScanIgnoresComments(p);
      var cp := Commands(p);
      if IsCommand(c) {
        assert Commands(s) == cp + [c];
        assert Scan(cp + [c]) == (match Scan(cp)
          case Failure(e) => Failure(e)
          case Success(st) => ScanChar(st, c)) by {
          assert (cp + [c])[..|cp|] == cp;
        }
      } else {
        assert Commands(s) == cp;
        match Scan(p)
        case Failure(_) =>
        case Success(st) => assert ScanChar(st, c) == Success(st);
      }
    }
  }

  // ---------------------------------------------------------------------------
  // Pass 2: adjacency fusion
  // ---------------------------------------------------------------------------

  /** The sum of two same-kind instructions (`*n += m`). */
  function Merge(a: Instruction, b: Instruction): Instruction
    requires SameRun(a, b)
  {
    if a.MovePointer? then MovePointer(a.offset + b.offset) else Add(a.delta + b.delta)
  }

  /** One iteration of the fusion loop: `i` is merged into the last emitted instruction
      when both are of the same fusable kind, and pushed otherwise. */
  function Absorb(acc: seq<Instruction>, i: Instruction): seq<Instruction> {
    if |acc| > 0 && SameRun(acc[|acc| - 1], i) then acc[..|acc| - 1] + [Merge(acc[|acc| - 1], i)]
    else acc + [i]
  }

  /** Fusion normal form: no two neighbours are both pointer moves or both additions. */
  predicate Fused(v: seq<Instruction>) {
    forall k :: 0 <= k < |v| - 1 ==> !SameRun(v[k], v[k + 1])
  }

  /** The fusion loop over the whole sequence. */
  function Fuse(v: seq<Instruction>): (r: seq<Instruction>)
    ensures Fused(r)
    ensures |r| <= |v|
    ensures |r| == 0 <==> |v| == 0
    ensures |r| > 0 ==> (r[|r| - 1].MovePointer? <==> v[|v| - 1].MovePointer?)
    ensures |r| > 0 ==> (r[|r| - 1].Add? <==> v[|v| - 1].Add?)
  {
    if |v| == 0 then [] else Absorb(Fuse(v[..|v| - 1]), v[|v| - 1])
  }

  /** A sequence already in normal form is left unchanged by fusion. */
  lemma {:induction false} FuseFixesFused(v: seq<Instruction>)
    requires Fused(v)
    ensures Fuse(v) == v
  {
    if |v| > 0 {
      var p := v[..|v| - 1];
      assert Fused(p);
      FuseFixesFused(p);
      assert p + [v[|v| - 1]] == v;
    }
  }

  /** Fusion is idempotent. */
  lemma {:induction false} FuseIdempotent(v: seq<Instruction>)
    ensures Fuse(Fuse(v)) == Fuse(v)
  {
    FuseFixesFused(Fuse(v));
  }

  /** The instructions fusion never touches: input, output and both jumps, in order. */
  function Rigid(v: seq<Instruction>): (r: seq<Instruction>)
    ensures forall k :: 0 <= k < |r| ==> !r[k].Fusable()
  {
    if |v| == 0 then []
    else Rigid(v[..|v| - 1]) + (if v[|v| - 1].Fusable() then [] else [v[|v| - 1]])
  }

  lemma RigidAppend(v: seq<Instruction>, i: Instruction)
    ensures Rigid(v + [i]) == Rigid(v) + (if i.Fusable() then [] else [i])
  {
    assert (v + [i])[..|v|] == v;
  }

  /** Fusion keeps the input, output and jump instructions, unchanged and in order. */
  lemma {:induction false} FuseKeepsRigid(v: seq<Instruction>)
    ensures Rigid(Fuse(v)) == Rigid(v)
  {
    if |v| > 0 {
      var p := v[..|v| - 1];
      var i := v[|v| - 1];
      var acc := Fuse(p);
      FuseKeepsRigid(p);
      assert Rigid(v) == Rigid(p) + (if i.Fusable() then [] else [i]);
      if |acc| > 0 && SameRun(acc[|acc| - 1], i) {
        var init := acc[..|acc| - 1];
        assert init + [acc[|acc| - 1]] == acc;
        RigidAppend(init, acc[|acc| - 1]);
        RigidAppend(init, Merge(acc[|acc| - 1], i));
      } else {
        RigidAppend(acc, i);
      }
    }
  }

  lemma DepthAppend(v: seq<Instruction>, i: Instruction)
    ensures Depth(v + [i]) == if Depth(v).None? then None else DepthStep(Depth(v).value, i)
  {
    assert (v + [i])[..|v|] == v;
  }

  /** Fusion keeps the jump depth, so it can neither create nor hide an unmatched jump. */
  lemma {:induction false} FuseKeepsDepth(v: seq<Instruction>)
    ensures Depth(Fuse(v)) == Depth(v)
  {
    if |v| > 0 {
      var p := v[..|v| - 1];
      var i := v[|v| - 1];
      var acc := Fuse(p);
      FuseKeepsDepth(p);
      if |acc| > 0 && SameRun(acc[|acc| - 1], i) {
        var init := acc[..|acc| - 1];
        assert init + [acc[|acc| - 1]] == acc;
        DepthAppend(init, acc[|acc| - 1]);
        DepthAppend(init, Merge(acc[|acc| - 1], i));
      } else {
        DepthAppend(acc, i);
      }
    }
  }

  /** The payload fusion adds up: a pointer offset or a cell delta (0 for the other kinds). */
  function Payload(i: Instruction): int {
    if i.MovePointer? then i.offset else if i.Add? then i.delta else 0
  }

  function RunTotal(run: seq<Instruction>): int {
    if |run| == 0 then 0 else RunTotal(run[..|run| - 1]) + Payload(run[|run| - 1])
  }

  /** A run: non-empty, and every later member continues the first one's fusable kind
      (so a run of input, output or a jump has length one). */
  predicate IsRun(run: seq<Instruction>) {
    |run| > 0 && forall k :: 1 <= k < |run| ==> SameRun(run[0], run[k])
  }

  /** What a run stands for after fusion: its kind, carrying the run's payload total. */
  function Collapse(run: seq<Instruction>): Instruction
    requires |run| > 0
  {
    if run[0].MovePointer? then MovePointer(RunTotal(run))
    else if run[0].Add? then Add(RunTotal(run))
    else run[0]
  }

  function Flatten(runs: seq<seq<Instruction>>): seq<Instruction> {
    if |runs| == 0 then [] else Flatten(runs[..|runs| - 1]) + runs[|runs| - 1]
  }

  /** `runs` cuts `v` into maximal runs: concatenated they give back `v`, each is a run,
      and no run could be extended into the next one. */
  predicate MaximalRuns(runs: seq<seq<Instruction>>, v: seq<Instruction>) {
    && Flatten(runs) == v
    && (forall j :: 0 <= j < |runs| ==> IsRun(runs[j]))
    && (forall j :: 0 <= j < |runs| - 1 ==> !SameRun(runs[j][0], runs[j + 1][0]))
  }

  lemma FlattenAppend(runs: seq<seq<Instruction>>, run: seq<Instruction>)
    ensures Flatten(runs + [run]) == Flatten(runs) + run
  {
    assert (runs + [run])[..|runs|] == runs;
  }

  /** Adds `i` to a decomposition: it extends the last run when it continues that
      run's fusable kind, and starts a new run otherwise. */
  function Extend(runs: seq<seq<Instruction>>, i: Instruction): seq<seq<Instruction>>
    requires forall j :: 0 <= j < |runs| ==> |runs[j]| > 0
  {
    if |runs| > 0 && SameRun(runs[|runs| - 1][0], i) then
      runs[..|runs| - 1] + [runs[|runs| - 1] + [i]]
    else
      runs + [[i]]
  }

  /** The decomposition of `v` into maximal runs. */
  function Runs(v: seq<Instruction>): (runs: seq<seq<Instruction>>)
    ensures forall j :: 0 <= j < |runs| ==> |runs[j]| > 0
    ensures |runs| == 0 <==> |v| == 0
  {
    if |v| == 0 then [] else Extend(Runs(v[..|v| - 1]), v[|v| - 1])
  }

  /** Concatenating the runs gives back the sequence. */
  lemma {:induction false} RunsFlatten(v: seq<Instruction>)
    ensures Flatten(Runs(v)) == v
  {
    if |v| > 0 {
      var p := v[..|v| - 1];
      var i := v[|v| - 1];
      RunsFlatten(p);
      var prev := Runs(p);
      assert p + [i] == v;
      if |prev| > 0 && SameRun(prev[|prev| - 1][0], i) {
        var init := prev[..|prev| - 1];
        var last := prev[|prev| - 1];
        assert init + [last] == prev;
        FlattenAppend(init, last);
        FlattenAppend(init, last + [i]);
      } else {
        FlattenAppend(prev, [i]);
      }
    }
  }

  /** Extending a decomposition keeps every piece a run. */
  lemma ExtendKeepsRuns(runs: seq<seq<Instruction>>, i: Instruction)
    requires forall j :: 0 <= j < |runs| ==> |runs[j]| > 0
    requires forall j :: 0 <= j < |runs| ==> IsRun(runs[j])
    ensures forall j :: 0 <= j < |Extend(runs, i)| ==> IsRun(Extend(runs, i)[j])
  {
    var r := Extend(runs, i);
    if |runs| > 0 && SameRun(runs[|runs| - 1][0], i) {
      var last := runs[|runs| - 1];
      assert IsRun(last);
      assert IsRun(last + [i]) by {
        forall k | 1 <= k < |last| + 1
          ensures SameRun((last + [i])[0], (last + [i])[k])
        {
          if k < |last| {
            assert (last + [i])[k] == last[k];
          }
        }
      }
      forall j | 0 <= j < |r|
        ensures IsRun(r[j])
      {
        if j < |runs| - 1 {
          assert r[j] == runs[j];
        }
      }
    } else {
      assert IsRun([i]);
      forall j | 0 <= j < |r|
        ensures IsRun(r[j])
      {
        if j < |runs| {
          assert r[j] == runs[j];
        }
      }
    }
  }

  /** Extending a decomposition keeps neighbouring runs of different kinds. */
  lemma ExtendKeepsSeparation(runs: seq<seq<Instruction>>, i: Instruction)
    requires forall j :: 0 <= j < |runs| ==> |runs[j]| > 0
    requires forall j :: 0 <= j < |runs| - 1 ==> !SameRun(runs[j][0], runs[j + 1][0])
    ensures forall j :: 0 <= j < |Extend(runs, i)| - 1 ==> !SameRun(Extend(runs, i)[j][0], Extend(runs, i)[j + 1][0])
  {
    var r := Extend(runs, i);
    if |runs| > 0 && SameRun(runs[|runs| - 1][0], i) {
      assert |r| == |runs|;
      forall j | 0 <= j < |r|
        ensures r[j][0] == runs[j][0]
      {
      }
    } else {
      forall j | 0 <= j < |runs|
        ensures r[j] == runs[j]
      {
      }
    }
  }

  /** Every piece is a run, and neighbouring runs never share a fusable kind. */
  lemma {:induction false} RunsSeparated(v: seq<Instruction>)
    ensures forall j :: 0 <= j < |Runs(v)| ==> IsRun(Runs(v)[j])
    ensures forall j :: 0 <= j < |Runs(v)| - 1 ==> !SameRun(Runs(v)[j][0], Runs(v)[j + 1][0])
  {
    if |v| > 0 {
      var p := v[..|v| - 1];
      RunsSeparated(p);
      ExtendKeepsRuns(Runs(p), v[|v| - 1]);
      ExtendKeepsSeparation(Runs(p), v[|v| - 1]);
    }
  }

  /** `Runs` is a maximal-run decomposition. */
  lemma RunsAreMaximal(v: seq<Instruction>)
    ensures MaximalRuns(Runs(v), v)
  {
    RunsFlatten(v);
    RunsSeparated(v);
  }

  lemma CollapseExtend(run: seq<Instruction>, i: Instruction)
    requires IsRun(run) && SameRun(run[0], i)
    ensures Collapse(run + [i]) == Merge(Collapse(run), i)
  {
    assert (run + [i])[..|run|] == run;
  }

  lemma CollapseSingle(i: Instruction)
    ensures Collapse([i]) == i
  {
    assert [i][..0] == [];
    assert RunTotal([i]) == Payload(i);
  }

  /** One fusion step mirrors one decomposition step: absorbing `i` into the collapsed
      runs gives the collapse of the extended runs. */
  lemma AbsorbCollapses(acc: seq<Instruction>, runs: seq<seq<Instruction>>, i: Instruction)
    requires forall j :: 0 <= j < |runs| ==> |runs[j]| > 0
    requires forall j :: 0 <= j < |runs| ==> IsRun(runs[j])
    requires |acc| == |runs|
    requires forall j :: 0 <= j < |runs| ==> acc[j] == Collapse(runs[j])
    ensures |Absorb(acc, i)| == |Extend(runs, i)|
    ensures forall j :: 0 <= j < |runs| + 1 && j < |Extend(runs, i)| ==> Absorb(acc, i)[j] == Collapse(Extend(runs, i)[j])
  {
    var r := Extend(runs, i);
    var a := Absorb(acc, i);
    if |runs| > 0 && SameRun(runs[|runs| - 1][0], i) {
      var last := runs[|runs| - 1];
      assert acc[|acc| - 1] == Collapse(last);
      assert SameRun(acc[|acc| - 1], i);
      CollapseExtend(last, i);
      assert a == acc[..|acc| - 1] + [Merge(acc[|acc| - 1], i)];
      assert r == runs[..|runs| - 1] + [last + [i]];
    } else {
      if |acc| > 0 {
        assert acc[|acc| - 1] == Collapse(runs[|runs| - 1]);
      }
      assert !(|acc| > 0 && SameRun(acc[|acc| - 1], i));
      CollapseSingle(i);
      assert a == acc + [i];
      assert r == runs + [[i]];
    }
  }

  /** Fusion replaces every maximal run of pointer moves or additions by one instruction
      carrying the run's payload total, and keeps every other instruction. Zero totals
      stay in the output. */
  lemma {:induction false} FuseCollapsesRuns(v: seq<Instruction>)
    ensures |Fuse(v)| == |Runs(v)|
    ensures forall j :: 0 <= j < |Runs(v)| ==> Fuse(v)[j] == Collapse(Runs(v)[j])
  {
    if |v| > 0 {
      var p := v[..|v| - 1];
      FuseCollapsesRuns(p);
      RunsSeparated(p);
      AbsorbCollapses(Fuse(p), Runs(p), v[|v| - 1]);
    }
  }

  // ---------------------------------------------------------------------------
  // Pass 3: jump resolution on the fused sequence
  // ---------------------------------------------------------------------------

  /** State of the jump-fixing scan: the stack of `JumpIfZero` positions still open, and
      the pairs found so far, recorded in both directions (open to close and back). */
  datatype Pairing = Pairing(open: seq<nat>, partner: map<nat, nat>)

  /** The pairing loop from position `i` on; `None` is the "unmatched [] after passes" panic. */
  function PairFrom(v: seq<Instruction>, i: nat, st: Pairing): Option<Pairing>
    requires i <= |v|
    decreases |v| - i
  {
    if i == |v| then Some(st)
    else match v[i]
      case JumpIfZero(_) => PairFrom(v, i + 1, Pairing(st.open + [i], st.partner))
      case JumpIfNonZero(_) =>
        if |st.open| == 0 then None
        else
          var p := st.open[|st.open| - 1];
          PairFrom(v, i + 1, Pairing(st.open[..|st.open| - 1], st.partner[p := i][i := p]))
      case _ => PairFrom(v, i + 1, st)
  }

  /** A jump takes the new target; other instructions are unchanged. */
  function SetTarget(i: Instruction, t: nat): Instruction {
    match i
    case JumpIfZero(_) => JumpIfZero(t)
    case JumpIfNonZero(_) => JumpIfNonZero(t)
    case _ => i
  }

  /** Rewrites every paired position to target its partner. */
  function Retarget(v: seq<Instruction>, partner: map<nat, nat>): seq<Instruction> {
    seq(|v|, k requires 0 <= k < |v| => if k in partner then SetTarget(v[k], partner[k]) else v[k])
  }

  /** The jump-fixing half of the second pass. */
  function Resolve(v: seq<Instruction>): Option<seq<Instruction>> {
    match PairFrom(v, 0, Pairing([], map[]))
    case None => None
    case Some(st) => Some(Retarget(v, st.partner))
  }

  /** `a` is recorded as paired with `m[a]`, both before `i`, in the right order and kinds. */
  ghost predicate PairedAt(v: seq<Instruction>, i: nat, m: map<nat, nat>, a: nat)
    requires i <= |v| && a in m
  {
    && a < i && m[a] < i && m[a] in m && m[m[a]] == a
    && ((v[a].JumpIfZero? && a < m[a] && v[m[a]].JumpIfNonZero?) ||
        (v[a].JumpIfNonZero? && m[a] < a && v[m[a]].JumpIfZero?))
  }

  /** The open stack holds unpaired `JumpIfZero` positions before `i`, in increasing order. */
  ghost predicate StackOk(v: seq<Instruction>, i: nat, open: seq<nat>, m: map<nat, nat>) {
    && i <= |v|
    && (forall j :: 0 <= j < |open| ==> open[j] < i && v[open[j]].JumpIfZero? && open[j] !in m)
    && (forall j, k :: 0 <= j < k < |open| ==> open[j] < open[k])
  }

  /** Every recorded pair is symmetric and lies before `i`. */
  ghost predicate PartnersOk(v: seq<Instruction>, i: nat, m: map<nat, nat>) {
    i <= |v| && forall a :: a in m ==> PairedAt(v, i, m, a)
  }

  /** Every jump before `i` is paired or, for a `JumpIfZero`, still on the stack. */
  ghost predicate Tracked(v: seq<Instruction>, i: nat, open: seq<nat>, m: map<nat, nat>) {
    && i <= |v|
    && (forall a :: 0 <= a < i && v[a].JumpIfNonZero? ==> a in m)
    && (forall a :: 0 <= a < i && v[a].JumpIfZero? && a !in m ==> a in open)
  }

  /** Recorded pairs nest, and no open position lies inside a recorded pair. */
  ghost predicate Nested(v: seq<Instruction>, open: seq<nat>, m: map<nat, nat>)
    requires forall a :: a in m ==> a < |v|
  {
    && (forall a, b :: a in m && b in m && v[a].JumpIfZero? && v[b].JumpIfZero? && a < b < m[a] ==> m[b] < m[a])
    && (forall a, j :: a in m && 0 <= j < |open| && v[a].JumpIfZero? ==> !(a < open[j] < m[a]))
  }

  /** Invariant of the pairing loop after positions `0..i`. */
  ghost predicate PairInv(v: seq<Instruction>, i: nat, st: Pairing) {
    && StackOk(v, i, st.open, st.partner)
    && PartnersOk(v, i, st.partner)
    && Tracked(v, i, st.open, st.partner)
    && Nested(v, st.open, st.partner)
  }

  lemma PartnersGrow(v: seq<Instruction>, i: nat, m: map<nat, nat>)
    requires PartnersOk(v, i, m) && i < |v|
    ensures PartnersOk(v, i + 1, m)
  {
    forall a | a in m
      ensures PairedAt(v, i + 1, m, a)
    {
      assert PairedAt(v, i, m, a);
    }
  }

  lemma PairStepOpen(v: seq<Instruction>, i: nat, st: Pairing)
    requires PairInv(v, i, st) && i < |v| && v[i].JumpIfZero?
    ensures PairInv(v, i + 1, Pairing(st.open + [i], st.partner))
  {
    PartnersGrow(v, i, st.partner);
    var m := st.partner;
    assert i !in m;
  }

  lemma PairStepOther(v: seq<Instruction>, i: nat, st: Pairing)
    requires PairInv(v, i, st) && i < |v| && !v[i].IsJump()
    ensures PairInv(v, i + 1, st)
  {
    PartnersGrow(v, i, st.partner);
  }

  lemma CloseKeepsPartners(v: seq<Instruction>, i: nat, m: map<nat, nat>, p: nat)
    requires PartnersOk(v, i, m) && i < |v|
    requires p < i && p !in m && v[p].JumpIfZero? && v[i].JumpIfNonZero?
    ensures PartnersOk(v, i + 1, m[p := i][i := p])
  {
    var m' := m[p := i][i := p];
    assert i !in m;
    forall a | a in m'
      ensures PairedAt(v, i + 1, m', a)
    {
      if a != p && a != i {
        assert PairedAt(v, i, m, a);
      }
    }
  }

  lemma CloseKeepsStack(v: seq<Instruction>, i: nat, open: seq<nat>, m: map<nat, nat>)
    requires StackOk(v, i, open, m) && i < |v| && |open| > 0
    ensures
      var p := open[|open| - 1];
      StackOk(v, i + 1, open[..|open| - 1], m[p := i][i := p])
  {
    var p := open[|open| - 1];
    var open' := open[..|open| - 1];
    forall j | 0 <= j < |open'|
      ensures open'[j] < i + 1 && v[open'[j]].JumpIfZero? && open'[j] !in m[p := i][i := p]
    {
      assert open'[j] == open[j] && open[j] < p;
    }
  }

  lemma CloseKeepsTracked(v: seq<Instruction>, i: nat, open: seq<nat>, m: map<nat, nat>)
    requires Tracked(v, i, open, m) && StackOk(v, i, open, m) && i < |v| && |open| > 0
    requires v[i].JumpIfNonZero?
    ensures
      var p := open[|open| - 1];
      Tracked(v, i + 1, open[..|open| - 1], m[p := i][i := p])
  {
    var p := open[|open| - 1];
    var open' := open[..|open| - 1];
    var m' := m[p := i][i := p];
    forall a | 0 <= a < i + 1 && v[a].JumpIfZero? && a !in m'
      ensures a in open'
    {
      assert a in open;
      var j :| 0 <= j < |open| && open[j] == a;
      assert j != |open| - 1;
      assert open'[j] == a;
    }
  }

  lemma CloseKeepsNested(v: seq<Instruction>, i: nat, open: seq<nat>, m: map<nat, nat>)
    requires PartnersOk(v, i, m) && StackOk(v, i, open, m) && i < |v| && |open| > 0
    requires Nested(v, open, m)
    ensures
      var p := open[|open| - 1];
      Nested(v, open[..|open| - 1], m[p := i][i := p])
  {
    var p := open[|open| - 1];
    var open' := open[..|open| - 1];
    var m' := m[p := i][i := p];
    assert i !in m;
    forall a, b | a in m' && b in m' && v[a].JumpIfZero? && v[b].JumpIfZero? && a < b < m'[a]
      ensures m'[b] < m'[a]
    {
      if a == p {
        assert PairedAt(v, i, m, b);
      } else if b != p {
        assert a in m && b in m;
      }
    }
    forall a, j | a in m' && 0 <= j < |open'| && v[a].JumpIfZero?
      ensures !(a < open'[j] < m'[a])
    {
      assert open'[j] == open[j] && open[j] < p;
      if a != p && a != i {
        assert PairedAt(v, i, m, a);
      }
    }
  }

  lemma PairStepClose(v: seq<Instruction>, i: nat, st: Pairing)
    requires PairInv(v, i, st) && i < |v| && v[i].JumpIfNonZero? && |st.open| > 0
    ensures
      var p := st.open[|st.open| - 1];
      PairInv(v, i + 1, Pairing(st.open[..|st.open| - 1], st.partner[p := i][i := p]))
  {
    var p := st.open[|st.open| - 1];
    CloseKeepsPartners(v, i, st.partner, p);
    CloseKeepsStack(v, i, st.open, st.partner);
    CloseKeepsTracked(v, i, st.open, st.partner);
    CloseKeepsNested(v, i, st.open, st.partner);
  }

  /** The pairing loop succeeds exactly when no prefix closes more loops than it opened,
      and it then ends with the invariant at the end of the sequence and one stack entry
      per loop left open. */
  lemma {:induction false} PairFromSpec(v: seq<Instruction>, i: nat, st: Pairing)
    requires PairInv(v, i, st)
    requires Depth(v[..i]) == Some(|st.open|)
    ensures PairFrom(v, i, st).Some? <==> Depth(v).Some?
    ensures PairFrom(v, i, st).Some? ==>
      PairInv(v, |v|, PairFrom(v, i, st).value) && Depth(v) == Some(|PairFrom(v, i, st).value.open|)
    decreases |v| - i
  {
    if i == |v| {
      assert v[..i] == v;
    } else {
      assert v[..i + 1] == v[..i] + [v[i]];
      DepthAppend(v[..i], v[i]);
      match v[i]
      case JumpIfZero(_) =>
        var st' := Pairing(st.open + [i], st.partner);
        PairStepOpen(v, i, st);
        assert Depth(v[..i + 1]) == Some(|st'.open|);
        assert PairFrom(v, i, st) == PairFrom(v, i + 1, st');
        PairFromSpec(v, i + 1, st');
      case JumpIfNonZero(_) =>
        if |st.open| == 0 {
          assert Depth(v[..i + 1]) == None;
          DepthNoneExtends(v, i + 1);
        } else {
          var p := st.open[|st.open| - 1];
          var st' := Pairing(st.open[..|st.open| - 1], st.partner[p := i][i := p]);
          PairStepClose(v, i, st);
          assert Depth(v[..i + 1]) == Some(|st'.open|);
          assert PairFrom(v, i, st) == PairFrom(v, i + 1, st');
          PairFromSpec(v, i + 1, st');
        }
      case _ =>
        PairStepOther(v, i, st);
        assert Depth(v[..i + 1]) == Some(|st.open|);
        assert PairFrom(v, i, st) == PairFrom(v, i + 1, st);
        PairFromSpec(v, i + 1, st);
    }
  }

  lemma PairSpec(v: seq<Instruction>)
    ensures PairFrom(v, 0, Pairing([], map[])).Some? <==> Depth(v).Some?
    ensures PairFrom(v, 0, Pairing([], map[])).Some? ==>
      var st := PairFrom(v, 0, Pairing([], map[])).value;
      PairInv(v, |v|, st) && Depth(v) == Some(|st.open|)
  {
    assert v[..0] == [];
    PairFromSpec(v, 0, Pairing([], map[]));
  }

  lemma RetargetShape(v: seq<Instruction>, st: Pairing)
    requires PairInv(v, |v|, st)
    ensures SameShape(v, Retarget(v, st.partner))
  {
    var r := Retarget(v, st.partner);
    forall k | 0 <= k < |v|
      ensures (v[k].JumpIfZero? <==> r[k].JumpIfZero?) && (v[k].JumpIfNonZero? <==> r[k].JumpIfNonZero?)
      ensures !v[k].IsJump() ==> v[k] == r[k]
    {
      if k in st.partner {
        assert PairedAt(v, |v|, st.partner, k);
      }
    }
  }

  /** After pairing, the retargeted sequence resolves exactly the paired `JumpIfZero`s,
      resolves every `JumpIfNonZero`, and leaves the unpaired ones as they were. */
  lemma RetargetPairs(v: seq<Instruction>, st: Pairing)
    requires PairInv(v, |v|, st)
    ensures var r := Retarget(v, st.partner);
      && (forall q :: 0 <= q < |r| && r[q].JumpIfNonZero? ==> Closes(r, q))
      && (forall p :: 0 <= p < |r| && r[p].JumpIfZero? ==> (Opens(r, p) <==> p in st.partner))
      && (forall p :: 0 <= p < |r| && p !in st.partner ==> r[p] == v[p])
  {
    RetargetCloses(v, st);
    RetargetOpens(v, st);
  }

  lemma RetargetCloses(v: seq<Instruction>, st: Pairing)
    requires PairInv(v, |v|, st)
    ensures var r := Retarget(v, st.partner);
      forall q :: 0 <= q < |r| && r[q].JumpIfNonZero? ==> Closes(r, q)
  {
    var m := st.partner;
    var r := Retarget(v, m);
    RetargetShape(v, st);
    forall q | 0 <= q < |r| && r[q].JumpIfNonZero?
      ensures Closes(r, q)
    {
      assert q in m;
      assert PairedAt(v, |v|, m, q);
    }
  }

  lemma RetargetOpens(v: seq<Instruction>, st: Pairing)
    requires PairInv(v, |v|, st)
    ensures var r := Retarget(v, st.partner);
      forall p :: 0 <= p < |r| && r[p].JumpIfZero? ==> (Opens(r, p) <==> p in st.partner)
  {
    var m := st.partner;
    var r := Retarget(v, m);
    RetargetShape(v, st);
    forall p | 0 <= p < |r| && r[p].JumpIfZero?
      ensures Opens(r, p) <==> p in m
    {
      if p in m {
        assert PairedAt(v, |v|, m, p);
      }
      if Opens(r, p) {
        var t := r[p].target;
        assert r[t].JumpIfNonZero?;
        assert t in m;
        assert PairedAt(v, |v|, m, t);
        assert r[t] == JumpIfNonZero(m[t]);
      }
    }
  }

  lemma RetargetNested(v: seq<Instruction>, st: Pairing)
    requires PairInv(v, |v|, st)
    ensures WellMatched(Retarget(v, st.partner))
  {
    var m := st.partner;
    var r := Retarget(v, m);
    RetargetPairs(v, st);
    forall p, q | 0 <= p < q < |r| && Opens(r, p) && q < r[p].target && r[q].JumpIfZero?
      ensures Opens(r, q) && r[q].target < r[p].target
    {
      assert p in m && PairedAt(v, |v|, m, p);
      assert r[p].target == m[p];
      if q in m {
        assert PairedAt(v, |v|, m, q);
      }
    }
  }

  /** Jump resolution succeeds exactly when no prefix closes more loops than it opened.
      It then changes only jump targets; afterwards every pair is symmetric and nested,
      every unpaired `JumpIfZero` keeps its old target, and all of them are paired exactly
      when the loops balance. */
  lemma ResolveSpec(v: seq<Instruction>)
    ensures Resolve(v).Some? <==> Depth(v).Some?
    ensures Resolve(v).Some? ==>
      var r := Resolve(v).value;
      && SameShape(v, r)
      && WellMatched(r)
      && (forall p :: 0 <= p < |r| && r[p].JumpIfZero? && !Opens(r, p) ==> r[p] == v[p])
      && ((forall p :: 0 <= p < |r| && r[p].JumpIfZero? ==> Opens(r, p)) <==> Depth(v) == Some(0))
  {
    PairSpec(v);
    if Resolve(v).Some? {
      var st := PairFrom(v, 0, Pairing([], map[])).value;
      var r := Resolve(v).value;
      assert PairInv(v, |v|, st) && Depth(v) == Some(|st.open|);
      assert r == Retarget(v, st.partner);
      assert SameShape(v, r) by { RetargetShape(v, st); }
      assert WellMatched(r) by { RetargetNested(v, st); }
      assert forall p :: 0 <= p < |r| && r[p].JumpIfZero? && !Opens(r, p) ==> r[p] == v[p] by {
        RetargetPairs(v, st);
      }
      RetargetBalanced(v, st);
    }
  }

  /** Every `[` of the result is matched exactly when the pairing left no `[` open. */
  lemma RetargetBalanced(v: seq<Instruction>, st: Pairing)
    requires PairInv(v, |v|, st)
    ensures var r := Retarget(v, st.partner);
      (forall p :: 0 <= p < |r| && r[p].JumpIfZero? ==> Opens(r, p)) <==> |st.open| == 0
  {
    var r := Retarget(v, st.partner);
    RetargetPairs(v, st);
    if |st.open| > 0 {
      var p := st.open[0];
      assert p !in st.partner && r[p].JumpIfZero?;
      assert !Opens(r, p);
    } else {
      assert forall p :: 0 <= p < |r| && r[p].JumpIfZero? ==> p in st.partner;
    }
  }

  /** Pairing looks only at which positions hold which kind of jump, never at targets. */
  lemma {:induction false} PairFromShape(v: seq<Instruction>, w: seq<Instruction>, i: nat, st: Pairing)
    requires SameShape(v, w) && i <= |v|
    ensures PairFrom(v, i, st) == PairFrom(w, i, st)
    decreases |v| - i
  {
    if i < |v| {
      var st' :=
        if v[i].JumpIfZero? then Pairing(st.open + [i], st.partner)
        else if v[i].JumpIfNonZero? && |st.open| > 0 then
          Pairing(st.open[..|st.open| - 1], st.partner[st.open[|st.open| - 1] := i][i := st.open[|st.open| - 1]])
        else st;
      PairFromShape(v, w, i + 1, st');
    }
  }

  /** Resolving an already resolved sequence changes nothing: re-scanning the result
      recovers exactly the pairing recorded in it. */
  lemma ResolveFixpoint(v: seq<Instruction>)
    requires Resolve(v).Some?
    ensures Resolve(Resolve(v).value) == Resolve(v)
  {
    var r := Resolve(v).value;
    var st := PairFrom(v, 0, Pairing([], map[])).value;
    ResolveSpec(v);
    PairFromShape(v, r, 0, Pairing([], map[]));
    assert Retarget(r, st.partner) == r;
  }

  // ---------------------------------------------------------------------------
  // The whole front end
  // ---------------------------------------------------------------------------

  /** The second pass: fusion, then jump resolution (`None` is its panic). */
  function RepeatedInstructionsPass(v: seq<Instruction>): Option<seq<Instruction>> {
    Resolve(Fuse(v))
  }

  /** Source text to instructions. */
  function Compile(s: string): Result<seq<Instruction>, CompileError> {
    match Scan(s)
    case Failure(e) => Failure(e)
    case Success(st) =>
      match RepeatedInstructionsPass(st.code)
      case None => Failure(UnmatchedAfterPasses)
      case Some(r) => Success(r)
  }

  /** Every jump still carries the placeholder target 0. */
  predicate Placeholders(v: seq<Instruction>) {
    forall k :: 0 <= k < |v| && v[k].IsJump() ==> v[k].target == 0
  }

  lemma {:induction false} FuseKeepsPlaceholders(v: seq<Instruction>)
    requires Placeholders(v)
    ensures Placeholders(Fuse(v))
  {
    if |v| > 0 {
      var p := v[..|v| - 1];
      assert Placeholders(p);
      FuseKeepsPlaceholders(p);
    }
  }

  /** Normal form depends only on the kinds at each position. */
  lemma FusedShape(v: seq<Instruction>, w: seq<Instruction>)
    requires SameShape(v, w) && Fused(v)
    ensures Fused(w)
  {
    forall k | 0 <= k < |w| - 1
      ensures !SameRun(w[k], w[k + 1])
    {
      assert !SameRun(v[k], v[k + 1]);
    }
  }

  /** Compilation fails exactly when some prefix of the source has more `]` than `[`, and
      then always with the first-pass error: the "unmatched [] after passes" panic cannot
      happen, because fusion never merges, drops or reorders a jump. */
  lemma CompileRejects(s: string)
    ensures Compile(s).Failure? <==> exists k :: 0 <= k <= |s| && Balance(s[..k]) < 0
    ensures Compile(s) != Failure(UnmatchedAfterPasses)
  {
    ScanRejects(s);
    if Scan(s).Success? {
      var code := Scan(s).value.code;
      ScanCode(s);
      FuseKeepsDepth(code);
      ResolveSpec(Fuse(code));
    }
  }

  /** Comment characters never matter. */
  lemma CompileIgnoresComments(s: string)
    ensures Compile(s) == Compile(Commands(s))
  {
    ScanIgnoresComments(s);
  }

  lemma ScanPlaceholders(s: string)
    requires Scan(s).Success?
    ensures Placeholders(Scan(s).value.code)
  {
    ScanCode(s);
    PrimitivesArePlaceholders(Scan(s).value.code, Commands(s));
  }

  /** Code made of primitives carries only placeholder targets. */
  lemma PrimitivesArePlaceholders(code: seq<Instruction>, cs: string)
    requires |code| == |cs|
    requires forall k :: 0 <= k < |code| ==> Some(code[k]) == Primitive(cs[k])
    ensures Placeholders(code)
  {
    forall k | 0 <= k < |code| && code[k].IsJump()
      ensures code[k].target == 0
    {
      assert Some(code[k]) == Primitive(cs[k]);
    }
  }

  /** The jumps of an accepted source pair up symmetrically and nest; an excess `[` is
      kept with its placeholder target 0; and every `[` is paired exactly when the
      brackets balance. */
  lemma CompileMatches(s: string)
    requires Compile(s).Success?
    ensures var r := Compile(s).value;
      && WellMatched(r)
      && (forall p :: 0 <= p < |r| && r[p].JumpIfZero? && !Opens(r, p) ==> r[p] == JumpIfZero(0))
      && ((forall p :: 0 <= p < |r| && r[p].JumpIfZero? ==> Opens(r, p)) <==> Balance(s) == 0)
  {
    var code := Scan(s).value.code;
    var fused := Fuse(code);
    ScanRejects(s);
    ScanCode(s);
    FuseKeepsDepth(code);
    ResolveSpec(fused);
    ScanPlaceholders(s);
    FuseKeepsPlaceholders(code);
  }

  /** The output of an accepted source is in fusion normal form, and running the second
      pass on it again changes nothing. */
  lemma CompileFixpoint(s: string)
    requires Compile(s).Success?
    ensures Fused(Compile(s).value)
    ensures RepeatedInstructionsPass(Compile(s).value) == Some(Compile(s).value)
  {
    var code := Scan(s).value.code;
    var fused := Fuse(code);
    var r := Compile(s).value;
    ResolveSpec(fused);
    FusedShape(fused, r);
    FuseFixesFused(r);
    ResolveFixpoint(fused);
  }

  // ---------------------------------------------------------------------------
  // Corrected front end
  // ---------------------------------------------------------------------------

  /** The front end with the check the source leaves out: a `[` still open at the end of
      the first pass is rejected instead of being kept with target 0. */
  function CompileStrict(s: string): Result<seq<Instruction>, CompileError> {
    match Scan(s)
    case Failure(e) => Failure(e)
    case Success(st) =>
      if st.open != 0 then Failure(UnmatchedOpen)
      else match RepeatedInstructionsPass(st.code)
        case None => Failure(UnmatchedAfterPasses)
        case Some(r) => Success(r)
  }

  /** The corrected front end accepts exactly the bracket-balanced sources, gives them the
      same code as `Compile`, and then every `JumpIfZero` is paired with its `JumpIfNonZero`. */
  lemma CompileStrictSpec(s: string)
    ensures CompileStrict(s).Success? <==>
      (forall k :: 0 <= k <= |s| ==> Balance(s[..k]) >= 0) && Balance(s) == 0
    ensures CompileStrict(s) != Failure(UnmatchedAfterPasses)
    ensures CompileStrict(s).Success? ==>
      var r := CompileStrict(s).value;
      && Compile(s) == Success(r)
      && WellMatched(r)
      && (forall p :: 0 <= p < |r| && r[p].JumpIfZero? ==> Opens(r, p))
  {
    ScanRejects(s);
    CompileRejects(s);
    if Scan(s).Success? && Scan(s).value.open == 0 {
      CompileMatches(s);
    }
  }
}
