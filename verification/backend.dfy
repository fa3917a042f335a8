/** The QBE backend (src/backend.rs): renders instructions as the text of a QBE program.
    Each output line is first built as a symbolic `Line` and then rendered. The runtime
    prelude `BUILTINS` and the tape size `NUM_CELLS` are opaque: they are parameters. */
module Backend {
  import opened Ir
  import opened Decimal

  /** The labels of `$main`: its entry block, and the two labels a jump at index `i` owns. */
  datatype Label = Start | Loop(index: nat) | Fallthrough(index: nat)

  function LabelName(l: Label): string {
    match l
    case Start => "@start"
    case Loop(i) => "@L" + NatToString(i)
    case Fallthrough(i) => "@L" + NatToString(i) + ".fallthrough"
  }

  /** How a label name begins and ends: `@s…t`, `@L…digit` or `@L….fallthrough`. */
  lemma LabelNameEnds(l: Label)
    ensures |LabelName(l)| > 2 && LabelName(l)[0] == '@'
    ensures LabelName(l)[1] == (if l.Start? then 's' else 'L')
    ensures l.Loop? ==> IsDigit(LabelName(l)[|LabelName(l)| - 1])
    ensures l.Fallthrough? ==> LabelName(l)[|LabelName(l)| - 1] == 'h'
  {
  }

  /** Distinct labels have distinct names. */
  lemma LabelNameInjective(a: Label, b: Label)
    ensures LabelName(a) == LabelName(b) <==> a == b
  {
    LabelNameEnds(a);
    LabelNameEnds(b);
    if LabelName(a) == LabelName(b) && a.Loop? && b.Loop? {
      assert LabelName(a)[2..] == NatToString(a.index);
      assert LabelName(b)[2..] == NatToString(b.index);
      NatToStringInjective(a.index, b.index);
    } else if LabelName(a) == LabelName(b) && a.Fallthrough? && b.Fallthrough? {
      var n := NatToString(a.index);
      var n' := NatToString(b.index);
      assert LabelName(a) == "@L" + n + ".fallthrough";
      assert LabelName(b) == "@L" + n' + ".fallthrough";
      assert |n| == |n'|;
      assert LabelName(a)[2..2 + |n|] == n;
      assert LabelName(b)[2..2 + |n'|] == n';
      NatToStringInjective(a.index, b.index);
    }
  }

  /** One line of the data declarations or of `$main`. */
  datatype Line =
    | Verbatim(text: string)
    | CellsData(count: nat)
    | CallMovePointer(offset: int)
    | CallAdd(delta: int)
    | Define(defined: Label)
    | Jnz(cond: string, ifTrue: Label, ifFalse: Label)

  function Render(line: Line): string {
    match line
    case Verbatim(t) => t
    case CellsData(n) => "data $cells = { z " + NatToString(n) + " }"
    case CallMovePointer(n) => "    call $move_pointer(l " + IntToString(n) + ")"
    case CallAdd(n) => "    call $add(w " + IntToString(n) + ")"
    case Define(l) => LabelName(l)
    case Jnz(c, t, f) => "    jnz " + c + ", " + LabelName(t) + ", " + LabelName(f)
  }

  function RenderAll(lines: seq<Line>): (r: seq<string>)
    ensures |r| == |lines| && forall k :: 0 <= k < |r| ==> r[k] == Render(lines[k])
  {
    if |lines| == 0 then [] else RenderAll(lines[..|lines| - 1]) + [Render(lines[|lines| - 1])]
  }

  /** Each line followed by a newline, as `writeln!` appends them. */
  function Unlines(lines: seq<string>): string {
    if |lines| == 0 then "" else Unlines(lines[..|lines| - 1]) + lines[|lines| - 1] + "\n"
  }

  const GetCellAddr := "    %p =l call $get_cell_addr()"
  const LoadCell := "    %c =w loadsb %p"
  const TestZero := "    %t =w ceqw %c, 0"

  /** The labels the instruction at index `i` defines. */
  function Owned(instr: Instruction, i: nat): set<Label> {
    match instr
    case JumpIfZero(_) => {Loop(i), Fallthrough(i)}
    case JumpIfNonZero(_) => {Loop(i)}
    case _ => {}
  }

  /** The labels the instruction at index `i` branches to. */
  function Targets(instr: Instruction, i: nat): set<Label> {
    match instr
    case JumpIfZero(t) => {Loop(t), Fallthrough(i)}
    case JumpIfNonZero(t) => {Loop(t), Loop(i)}
    case _ => {}
  }

  /** The labels defined in `lines`. */
  function Defined(lines: seq<Line>): set<Label> {
    set k | 0 <= k < |lines| && lines[k].Define? :: lines[k].defined
  }

  /** The labels some `jnz` in `lines` branches to. */
  function Referenced(lines: seq<Line>): set<Label> {
    (set k | 0 <= k < |lines| && lines[k].Jnz? :: lines[k].ifTrue) +
    (set k | 0 <= k < |lines| && lines[k].Jnz? :: lines[k].ifFalse)
  }

  /** No label is defined on two lines. */
  predicate DefinedOnce(lines: seq<Line>) {
    forall j, k :: 0 <= j < k < |lines| && lines[j].Define? && lines[k].Define? ==>
      lines[j].defined != lines[k].defined
  }

  /** A line that renders as one line of text: verbatim text holds no newline and does not
      start with `@`, which only label definitions do. */
  predicate Printable(line: Line) {
    && (line.Verbatim? ==> PlainText(line.text))
    && (line.Jnz? ==> '\n' !in line.cond)
  }

  /** Text for one line that does not define a label. */
  predicate PlainText(t: string) {
    '\n' !in t && (|t| == 0 || t[0] != '@')
  }

  /** The lowering of the instruction at index `i`. */
  function Lower(instr: Instruction, i: nat): (r: seq<Line>)
    ensures instr.JumpIfZero? ==> |r| == 6 && r[0] == Define(Loop(i)) && r[5] == Define(Fallthrough(i))
    ensures instr.JumpIfNonZero? ==> |r| == 4 && r[3] == Define(Loop(i))
    ensures !instr.IsJump() ==> |r| == 1
  {
    match instr
    case MovePointer(n) => [CallMovePointer(n)]
    case Add(n) => [CallAdd(n)]
    case Input => [Verbatim("    call $input()")]
    case Output => [Verbatim("    call $output()")]
    case JumpIfZero(t) =>
      [Define(Loop(i)), Verbatim(GetCellAddr), Verbatim(LoadCell), Verbatim(TestZero),
       Jnz("%t", Loop(t), Fallthrough(i)), Define(Fallthrough(i))]
    case JumpIfNonZero(t) =>
      [Verbatim(GetCellAddr), Verbatim(LoadCell), Jnz("%c", Loop(t), Loop(i)), Define(Loop(i))]
  }

  /** The lowering of a jump defines the jump's own labels, each once, and names exactly the
      labels it branches to; any other instruction defines and names none. */
  lemma LowerLabels(instr: Instruction, i: nat)
    ensures Defined(Lower(instr, i)) == Owned(instr, i)
    ensures Referenced(Lower(instr, i)) == Targets(instr, i)
    ensures DefinedOnce(Lower(instr, i))
  {
    var r := Lower(instr, i);
    match instr
    case JumpIfZero(t) =>
      assert r[0].defined in Defined(r) && r[5].defined in Defined(r);
      assert r[4].ifTrue in Referenced(r) && r[4].ifFalse in Referenced(r);
    case JumpIfNonZero(t) =>
      assert r[3].defined in Defined(r);
      assert r[2].ifTrue in Referenced(r) && r[2].ifFalse in Referenced(r);
    case _ =>
  }

  /** The body of `$main`: the lowering of each instruction, in program order. */
  function MainBody(code: seq<Instruction>): (r: seq<Line>)
    ensures |code| == 0 <==> |r| == 0
  {
    if |code| == 0 then []
    else
      var n := |code| - 1;
      MainBody(code[..n]) + Lower(code[n], n)
  }

  lemma DefinedAppend(a: seq<Line>, b: seq<Line>)
    ensures Defined(a + b) == Defined(a) + Defined(b)
  {
    var ab := a + b;
    forall l | l in Defined(a) ensures l in Defined(ab) {
      var k :| 0 <= k < |a| && a[k].Define? && a[k].defined == l;
      assert ab[k] == a[k];
    }
    forall l | l in Defined(b) ensures l in Defined(ab) {
      var k :| 0 <= k < |b| && b[k].Define? && b[k].defined == l;
      assert ab[|a| + k] == b[k];
    }
    forall l | l in Defined(ab) ensures l in Defined(a) + Defined(b) {
      var k :| 0 <= k < |ab| && ab[k].Define? && ab[k].defined == l;
      if k < |a| {
        assert a[k] == ab[k];
      } else {
        assert b[k - |a|] == ab[k];
      }
    }
  }

  lemma ReferencedAppend(a: seq<Line>, b: seq<Line>)
    ensures Referenced(a + b) == Referenced(a) + Referenced(b)
  {
    var ab := a + b;
    forall l | l in Referenced(a) ensures l in Referenced(ab) {
      var k :| 0 <= k < |a| && a[k].Jnz? && (a[k].ifTrue == l || a[k].ifFalse == l);
      assert ab[k] == a[k];
    }
    forall l | l in Referenced(b) ensures l in Referenced(ab) {
      var k :| 0 <= k < |b| && b[k].Jnz? && (b[k].ifTrue == l || b[k].ifFalse == l);
      assert ab[|a| + k] == b[k];
    }
    forall l | l in Referenced(ab) ensures l in Referenced(a) + Referenced(b) {
      var k :| 0 <= k < |ab| && ab[k].Jnz? && (ab[k].ifTrue == l || ab[k].ifFalse == l);
      if k < |a| {
        assert a[k] == ab[k];
      } else {
        assert b[k - |a|] == ab[k];
      }
    }
  }

  /** Two sequences that each define labels once, and share none, define labels once together. */
  lemma DefinedOnceAppend(a: seq<Line>, b: seq<Line>)
    requires DefinedOnce(a) && DefinedOnce(b) && Defined(a) !! Defined(b)
    ensures DefinedOnce(a + b)
  {
    var ab := a + b;
    forall j, k | 0 <= j < k < |ab| && ab[j].Define? && ab[k].Define?
      ensures ab[j].defined != ab[k].defined
    {
      if j < |a| && |a| <= k {
        assert ab[j] == a[j] && ab[k] == b[k - |a|];
        assert a[j].defined in Defined(a);
        assert b[k - |a|].defined in Defined(b);
      } else if j < |a| {
        assert ab[j] == a[j] && ab[k] == a[k];
      } else {
        assert ab[j] == b[j - |a|] && ab[k] == b[k - |a|];
      }
    }
  }

  /** The labels the instruction at index `i` is the only one to define. */
  predicate OwnedIn(code: seq<Instruction>, l: Label) {
    match l
    case Start => false
    case Loop(i) => i < |code| && code[i].IsJump()
    case Fallthrough(i) => i < |code| && code[i].JumpIfZero?
  }

  /** The labels owned in `code` are those owned in all but its last instruction, plus the last one's. */
  lemma OwnedInSplit(code: seq<Instruction>)
    requires |code| > 0
    ensures forall l :: OwnedIn(code, l) <==>
      OwnedIn(code[..|code| - 1], l) || l in Owned(code[|code| - 1], |code| - 1)
  {
    var n := |code| - 1;
    forall l ensures OwnedIn(code, l) <==> OwnedIn(code[..n], l) || l in Owned(code[n], n) {
      if (l.Loop? || l.Fallthrough?) && l.index < n {
        assert code[..n][l.index] == code[l.index];
      }
    }
  }

  /** Only the jumps define labels: `@L{i}` for a jump at `i`, and `@L{i}.fallthrough` for a
      `JumpIfZero` at `i`; and the body never defines a label twice. */
  lemma {:induction false} BodyDefines(code: seq<Instruction>)
    ensures forall l :: l in Defined(MainBody(code)) <==> OwnedIn(code, l)
    ensures DefinedOnce(MainBody(code))
  {
    if |code| > 0 {
      var n := |code| - 1;
      var prefix := code[..n];
      BodyDefines(prefix);
      LowerLabels(code[n], n);
      DefinedAppend(MainBody(prefix), Lower(code[n], n));
      OwnedInSplit(code);
      forall l | l in Defined(MainBody(prefix)) ensures l !in Owned(code[n], n) {
        assert OwnedIn(prefix, l);
      }
      DefinedOnceAppend(MainBody(prefix), Lower(code[n], n));
    }
  }

  /** The labels some jump of `code` branches to. */
  predicate TargetedIn(code: seq<Instruction>, l: Label) {
    exists i :: 0 <= i < |code| && l in Targets(code[i], i)
  }

  lemma TargetedInSplit(code: seq<Instruction>)
    requires |code| > 0
    ensures forall l :: TargetedIn(code, l) <==>
      TargetedIn(code[..|code| - 1], l) || l in Targets(code[|code| - 1], |code| - 1)
  {
    var n := |code| - 1;
    forall l ensures TargetedIn(code, l) <==> TargetedIn(code[..n], l) || l in Targets(code[n], n) {
      if TargetedIn(code, l) {
        var i :| 0 <= i < |code| && l in Targets(code[i], i);
        if i < n {
          assert code[..n][i] == code[i];
        }
      }
      if TargetedIn(code[..n], l) {
        var i :| 0 <= i < n && l in Targets(code[..n][i], i);
        assert code[i] == code[..n][i];
      }
    }
  }

  /** A label appears in a `jnz` of the body exactly when some jump branches to it. */
  lemma {:induction false} BodyReferences(code: seq<Instruction>)
    ensures forall l :: l in Referenced(MainBody(code)) <==> TargetedIn(code, l)
  {
    if |code| > 0 {
      var n := |code| - 1;
      var prefix := code[..n];
      BodyReferences(prefix);
      var low := Lower(code[n], n);
      LowerLabels(code[n], n);
      assert MainBody(code) == MainBody(prefix) + low;
      ReferencedAppend(MainBody(prefix), low);
      TargetedInSplit(code);
    }
  }

  /** Every jump of `code` names another jump as its target. */
  predicate JumpTargetsValid(code: seq<Instruction>) {
    forall i :: 0 <= i < |code| && code[i].IsJump() ==>
      code[i].target < |code| && code[code[i].target].IsJump()
  }

  lemma TargetOwned(code: seq<Instruction>, i: nat, l: Label)
    requires JumpTargetsValid(code)
    requires i < |code| && l in Targets(code[i], i)
    ensures OwnedIn(code, l)
  {
    assert code[i].IsJump();
  }

  /** When every jump targets a jump, every label a `jnz` names is defined in the body. */
  lemma LabelsResolve(code: seq<Instruction>)
    requires JumpTargetsValid(code)
    ensures Referenced(MainBody(code)) <= Defined(MainBody(code))
  {
    BodyDefines(code);
    BodyReferences(code);
    forall l | l in Referenced(MainBody(code)) ensures l in Defined(MainBody(code)) {
      var i :| 0 <= i < |code| && l in Targets(code[i], i);
      TargetOwned(code, i, l);
    }
  }

  /** Resolved code in which every `JumpIfZero` has found its partner targets only jumps. */
  lemma MatchedTargetsValid(code: seq<Instruction>)
    requires WellMatched(code)
    requires forall p :: 0 <= p < |code| && code[p].JumpIfZero? ==> Opens(code, p)
    ensures JumpTargetsValid(code)
  {
    forall i | 0 <= i < |code| && code[i].IsJump()
      ensures code[i].target < |code| && code[code[i].target].IsJump()
    {
      if code[i].JumpIfZero? {
        assert Opens(code, i);
      } else {
        assert Closes(code, i);
      }
    }
  }

  /** Where the lowering of instruction `n` starts in the body. */
  function Offset(code: seq<Instruction>, n: nat): nat
    requires n <= |code|
  {
    |MainBody(code[..n])|
  }

  /** The body of a prefix of the program is a prefix of the body. */
  lemma {:induction false} BodyPrefix(code: seq<Instruction>, n: nat)
    requires n <= |code|
    ensures Offset(code, n) <= |MainBody(code)|
    ensures MainBody(code)[..Offset(code, n)] == MainBody(code[..n])
    decreases |code| - n
  {
    if n == |code| {
      assert code[..n] == code;
    } else {
      var m := |code| - 1;
      var prefix := code[..m];
      BodyPrefix(prefix, n);
      BodyPrefixStep(code, n);
    }
  }

  lemma BodyPrefixStep(code: seq<Instruction>, n: nat)
    requires n < |code|
    requires var prefix := code[..|code| - 1];
      Offset(prefix, n) <= |MainBody(prefix)| && MainBody(prefix)[..Offset(prefix, n)] == MainBody(prefix[..n])
    ensures Offset(code, n) <= |MainBody(code)|
    ensures MainBody(code)[..Offset(code, n)] == MainBody(code[..n])
  {
    var m := |code| - 1;
    var prefix := code[..m];
    assert prefix[..n] == code[..n];
    var a, low := MainBody(prefix), Lower(code[m], m);
    assert MainBody(code) == a + low;
    assert Offset(code, n) == Offset(prefix, n) <= |a|;
    assert (a + low)[..Offset(code, n)] == a[..Offset(code, n)];
  }

  /** The lines between two consecutive offsets are the lowering of that one instruction,
      which depends only on the instruction and its index. */
  lemma BodyLocal(code: seq<Instruction>, i: nat)
    requires i < |code|
    ensures Offset(code, i) <= Offset(code, i + 1) <= |MainBody(code)|
    ensures MainBody(code)[Offset(code, i)..Offset(code, i + 1)] == Lower(code[i], i)
  {
    var upto := code[..i + 1];
    assert upto[..i] == code[..i];
    assert MainBody(upto) == MainBody(code[..i]) + Lower(code[i], i);
    BodyPrefix(code, i);
    BodyPrefix(code, i + 1);
    var body := MainBody(code);
    assert body[Offset(code, i)..Offset(code, i + 1)] == body[..Offset(code, i + 1)][Offset(code, i)..];
  }

  /** The lines before the body: the two data declarations and the head of `$main`. */
  function Header(numCells: nat): seq<Line> {
    [CellsData(numCells), Verbatim("data $pointer = { l 1 }"), Verbatim(""),
     Verbatim("export function w $main() {"), Define(Start)]
  }

  const Footer: seq<Line> := [Verbatim("    ret 0"), Verbatim("}")]

  /** Every line `compile` appends to the prelude. */
  function MainLines(code: seq<Instruction>, numCells: nat): seq<Line> {
    Header(numCells) + MainBody(code) + Footer
  }

  /** `$main` defines `@start` and the jumps' labels, each once, and names the jumps' targets. */
  lemma MainLabels(code: seq<Instruction>, numCells: nat)
    ensures DefinedOnce(MainLines(code, numCells))
    ensures forall l :: l in Defined(MainLines(code, numCells)) <==> l == Start || OwnedIn(code, l)
    ensures forall l :: l in Referenced(MainLines(code, numCells)) <==> TargetedIn(code, l)
  {
    var h := Header(numCells);
    var b := MainBody(code);
    HeaderLabels(numCells);
    FooterLabels();
    BodyDefines(code);
    BodyReferences(code);
    assert Start !in Defined(b);
    DefinedAppend(h, b);
    DefinedAppend(h + b, Footer);
    ReferencedAppend(h, b);
    ReferencedAppend(h + b, Footer);
    DefinedOnceAppend(h, b);
    DefinedOnceAppend(h + b, Footer);
  }

  lemma HeaderLabels(numCells: nat)
    ensures Defined(Header(numCells)) == {Start} && Referenced(Header(numCells)) == {}
    ensures DefinedOnce(Header(numCells))
  {
    var h := Header(numCells);
    assert h[4].defined in Defined(h);
  }

  lemma FooterLabels()
    ensures Defined(Footer) == {} && Referenced(Footer) == {} && DefinedOnce(Footer)
  {
  }

  /** For code from a bracket-balanced program every label a `jnz` names is defined. */
  lemma MainLabelsResolve(code: seq<Instruction>, numCells: nat)
    requires JumpTargetsValid(code)
    ensures Referenced(MainLines(code, numCells)) <= Defined(MainLines(code, numCells))
  {
    MainLabels(code, numCells);
    LabelsResolve(code);
    BodyDefines(code);
    BodyReferences(code);
  }

  /** A rendered line starts with `@` exactly when it defines a label. */
  lemma RenderLabelLine(line: Line)
    requires Printable(line)
    ensures |Render(line)| > 0 ==> (Render(line)[0] == '@' <==> line.Define?)
  {
    if line.Define? {
      LabelNameEnds(line.defined);
    }
  }

  lemma LabelNameOneLine(l: Label)
    ensures '\n' !in LabelName(l)
  {
    match l
    case Start =>
    case Loop(i) =>
    case Fallthrough(i) =>
  }

  /** A printable line renders without a newline. */
  lemma RenderOneLine(line: Line)
    requires Printable(line)
    ensures '\n' !in Render(line)
  {
    match line
    case Verbatim(_) =>
    case CellsData(n) =>
      NatOneLine(n);
      JoinOneLine("data $cells = { z ", NatToString(n));
      JoinOneLine("data $cells = { z " + NatToString(n), " }");
    case CallMovePointer(n) =>
      IntOneLine(n);
      JoinOneLine("    call $move_pointer(l ", IntToString(n));
      JoinOneLine("    call $move_pointer(l " + IntToString(n), ")");
    case CallAdd(n) =>
      IntOneLine(n);
      JoinOneLine("    call $add(w ", IntToString(n));
      JoinOneLine("    call $add(w " + IntToString(n), ")");
    case Define(l) =>
      LabelNameOneLine(l);
    case Jnz(c, t, f) =>
      LabelNameOneLine(t);
      LabelNameOneLine(f);
      JoinOneLine("    jnz ", c);
      JoinOneLine("    jnz " + c, ", ");
      JoinOneLine("    jnz " + c + ", ", LabelName(t));
      JoinOneLine("    jnz " + c + ", " + LabelName(t), ", ");
      JoinOneLine("    jnz " + c + ", " + LabelName(t) + ", ", LabelName(f));
  }

  lemma JoinOneLine(a: string, b: string)
    requires '\n' !in a && '\n' !in b
    ensures '\n' !in a + b
  {
  }

  lemma NatOneLine(n: nat)
    ensures '\n' !in NatToString(n)
  {
    var s := NatToString(n);
    forall k | 0 <= k < |s| ensures s[k] != '\n' {
      assert IsDigit(s[k]);
    }
  }

  lemma IntOneLine(n: int)
    ensures '\n' !in IntToString(n)
  {
    if n < 0 {
      NatOneLine(-n);
    } else {
      NatOneLine(n);
    }
  }

  lemma FixedLinesPrintable()
    ensures PlainText(GetCellAddr) && PlainText(LoadCell) && PlainText(TestZero)
    ensures PlainText("    call $input()") && PlainText("    call $output()")
  {
    assert PlainText(GetCellAddr);
    assert PlainText(LoadCell);
    assert PlainText(TestZero);
    assert PlainText("    call $input()");
  }

  lemma LowerPrintable(instr: Instruction, i: nat)
    ensures forall k :: 0 <= k < |Lower(instr, i)| ==> Printable(Lower(instr, i)[k])
  {
    FixedLinesPrintable();
    var r := Lower(instr, i);
    if instr.JumpIfZero? {
      assert r[1] == Verbatim(GetCellAddr) && r[2] == Verbatim(LoadCell) && r[3] == Verbatim(TestZero);
    } else if instr.JumpIfNonZero? {
      assert r[0] == Verbatim(GetCellAddr) && r[1] == Verbatim(LoadCell);
    }
  }

  lemma HeaderPrintable(numCells: nat)
    ensures forall k :: 0 <= k < |Header(numCells)| ==> Printable(Header(numCells)[k])
    ensures forall k :: 0 <= k < |Footer| ==> Printable(Footer[k])
  {
    assert PlainText("data $pointer = { l 1 }");
    assert PlainText("export function w $main() {");
    assert PlainText("    ret 0") && PlainText("}") && PlainText("");
  }

  lemma {:induction false} BodyPrintable(code: seq<Instruction>)
    ensures forall k :: 0 <= k < |MainBody(code)| ==> Printable(MainBody(code)[k])
  {
    if |code| > 0 {
      var n := |code| - 1;
      BodyPrintable(code[..n]);
      LowerPrintable(code[n], n);
      var a := MainBody(code[..n]);
      var b := Lower(code[n], n);
      forall k | 0 <= k < |a + b| ensures Printable((a + b)[k]) {
        if k >= |a| {
          assert (a + b)[k] == b[k - |a|];
        }
      }
    }
  }

  lemma MainLinesPrintable(code: seq<Instruction>, numCells: nat)
    ensures forall k :: 0 <= k < |MainLines(code, numCells)| ==> Printable(MainLines(code, numCells)[k])
  {
    var h := Header(numCells);
    var b := MainBody(code);
    BodyPrintable(code);
    HeaderPrintable(numCells);
    forall k | 0 <= k < |MainLines(code, numCells)| ensures Printable(MainLines(code, numCells)[k]) {
      if k < |h| {
        assert MainLines(code, numCells)[k] == h[k];
      } else if k < |h| + |b| {
        assert MainLines(code, numCells)[k] == b[k - |h|];
      } else {
        assert MainLines(code, numCells)[k] == Footer[k - |h| - |b|];
      }
    }
  }

  /** A line of text that defines a label. */
  predicate LabelLine(s: string) {
    |s| > 0 && s[0] == '@'
  }

  /** In the text of `$main` the label lines are exactly the definitions, and no two are equal:
      no label is defined twice. */
  lemma RenderedLabelsDistinct(code: seq<Instruction>, numCells: nat)
    ensures forall k :: 0 <= k < |MainLines(code, numCells)| ==>
      (LabelLine(RenderAll(MainLines(code, numCells))[k]) <==> MainLines(code, numCells)[k].Define?)
    ensures forall j, k | 0 <= j < k < |MainLines(code, numCells)| ::
      LabelLine(RenderAll(MainLines(code, numCells))[j]) && LabelLine(RenderAll(MainLines(code, numCells))[k]) ==>
        RenderAll(MainLines(code, numCells))[j] != RenderAll(MainLines(code, numCells))[k]
  {
    var lines := MainLines(code, numCells);
    var r := RenderAll(lines);
    MainLinesPrintable(code, numCells);
    MainLabels(code, numCells);
    forall k | 0 <= k < |r| ensures LabelLine(r[k]) <==> lines[k].Define? {
      RenderLabelLine(lines[k]);
      if lines[k].Define? {
        LabelNameEnds(lines[k].defined);
      }
    }
    forall j, k | 0 <= j < k < |r| && LabelLine(r[j]) && LabelLine(r[k]) ensures r[j] != r[k] {
      LabelNameInjective(lines[j].defined, lines[k].defined);
    }
  }

  lemma {:induction false} UnlinesAppend(a: seq<string>, b: seq<string>)
    ensures Unlines(a + b) == Unlines(a) + Unlines(b)
    decreases |b|
  {
    if |b| == 0 {
      assert a + b == a;
    } else {
      var n := |b| - 1;
      assert (a + b)[..|a + b| - 1] == a + b[..n];
      UnlinesAppend(a, b[..n]);
    }
  }

  /** The index of the first newline at or after `i`, or the length of `s`. */
  function LineEnd(s: string, i: nat): (k: nat)
    requires i <= |s|
    ensures i <= k <= |s|
    ensures k < |s| ==> s[k] == '\n'
    ensures forall j :: i <= j < k ==> s[j] != '\n'
    decreases |s| - i
  {
    if i == |s| || s[i] == '\n' then i else LineEnd(s, i + 1)
  }

  /** Cuts text into its newline-terminated lines; the inverse of `Unlines`. */
  function SplitLines(s: string): seq<string>
    decreases |s|
  {
    if |s| == 0 then []
    else
      var k := LineEnd(s, 0);
      [s[..k]] + (if k < |s| then SplitLines(s[k + 1..]) else [])
  }

  /** Splitting the text `Unlines` writes gives back its lines, when none holds a newline. */
  lemma {:induction false} SplitUnlines(lines: seq<string>)
    requires forall k :: 0 <= k < |lines| ==> '\n' !in lines[k]
    ensures SplitLines(Unlines(lines)) == lines
    decreases |lines|
  {
    if |lines| > 0 {
      var first := lines[0];
      var rest := lines[1..];
      assert lines == [first] + rest;
      UnlinesAppend([first], rest);
      assert Unlines([first]) == first + "\n" by {
        assert [first][..0] == [];
      }
      var s := Unlines(lines);
      assert s == first + "\n" + Unlines(rest);
      assert s[|first|] == '\n';
      forall j | 0 <= j < |first| ensures s[j] != '\n' {
        assert s[j] == first[j];
      }
      var k := LineEnd(s, 0);
      assert k == |first|;
      assert s[..k] == first;
      assert s[k + 1..] == Unlines(rest);
      SplitUnlines(rest);
    }
  }

  /** The backend's state: the instructions to lower and the text written so far. */
  datatype Qbe = Qbe(instructions: seq<Instruction>, text: string)

  /** A backend whose text starts as the runtime prelude `builtins`. */
  function New(code: seq<Instruction>, builtins: string): Qbe {
    Qbe(code, builtins)
  }

  /** The program text: what was written so far, then every line of `$main` and its data. */
  function Compile(q: Qbe, numCells: nat): (text: string)
    ensures q.text <= text
  {
    q.text + Unlines(RenderAll(MainLines(q.instructions, numCells)))
  }

  /** The rendered header is the two data declarations, a blank line, the head of `$main` and
      `@start`; the rendered footer is `ret 0` and the closing brace. */
  lemma HeaderText(numCells: nat)
    ensures RenderAll(Header(numCells)) == ["data $cells = { z " + NatToString(numCells) + " }",
      "data $pointer = { l 1 }", "", "export function w $main() {", "@start"]
    ensures RenderAll(Footer) == ["    ret 0", "}"]
  {
  }

  /** The output is the prelude, then the header (whose text `HeaderText` gives), the lowered
      body, and the footer, each line followed by a newline. */
  lemma CompileLayout(code: seq<Instruction>, builtins: string, numCells: nat)
    ensures Compile(New(code, builtins), numCells) ==
      builtins + (Unlines(RenderAll(Header(numCells))) + Unlines(RenderAll(MainBody(code))) + Unlines(RenderAll(Footer)))
  {
    var h := Header(numCells);
    var b := MainBody(code);
    assert MainLines(code, numCells) == h + b + Footer;
    RenderAll3(h, b, Footer);
    UnlinesAppend3(RenderAll(h), RenderAll(b), RenderAll(Footer));
  }

  lemma RenderAll3(a: seq<Line>, b: seq<Line>, c: seq<Line>)
    ensures RenderAll(a + b + c) == RenderAll(a) + RenderAll(b) + RenderAll(c)
  {
    RenderAllAppend(a, b);
    RenderAllAppend(a + b, c);
  }

  lemma UnlinesAppend3(a: seq<string>, b: seq<string>, c: seq<string>)
    ensures Unlines(a + b + c) == Unlines(a) + Unlines(b) + Unlines(c)
  {
    UnlinesAppend(a + b, c);
    UnlinesAppend(a, b);
  }

  /** The text after the prelude splits back into exactly the rendered lines of `$main`. */
  lemma CompileSplits(code: seq<Instruction>, builtins: string, numCells: nat)
    ensures SplitLines(Compile(New(code, builtins), numCells)[|builtins|..]) ==
      RenderAll(Header(numCells)) + RenderAll(MainBody(code)) + RenderAll(Footer)
  {
    RenderAll3(Header(numCells), MainBody(code), Footer);
    MainLinesPrintable(code, numCells);
    var lines := RenderAll(MainLines(code, numCells));
    forall k | 0 <= k < |lines| ensures '\n' !in lines[k] {
      RenderOneLine(MainLines(code, numCells)[k]);
    }
    SplitUnlines(lines);
    var out := Compile(New(code, builtins), numCells);
    assert out[|builtins|..] == Unlines(lines);
  }

  lemma RenderAllAppend(a: seq<Line>, b: seq<Line>)
    ensures RenderAll(a + b) == RenderAll(a) + RenderAll(b)
  {
  }

  /** `+.` lowers to an add of 1 and an output call, with no label. */
  lemma PlusDotBody()
    ensures RenderAll(MainBody([Add(1), Output])) == ["    call $add(w 1)", "    call $output()"]
    ensures Defined(MainBody([Add(1), Output])) == {}
  {
    var code := [Add(1), Output];
    assert code[..1] == [Add(1)] && [Add(1)][..0] == [];
    assert MainBody(code) == [CallAdd(1), Verbatim("    call $output()")];
    assert IntToString(1) == "1";
    var r := RenderAll(MainBody(code));
    assert r[0] == Render(CallAdd(1)) == "    call $add(w " + "1" + ")";
    assert r[1] == "    call $output()";
    assert "    call $add(w " + "1" + ")" == "    call $add(w 1)";
    assert |r| == 2;
    BodyDefines(code);
  }
}
