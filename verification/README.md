# A verified model of a Brainfuck toolchain

This project models the core of a small Brainfuck toolchain written in Rust, as
Dafny datatypes and pure functions, and proves properties of that model. The core
has four parts.

- **The intermediate representation** (`src/lib.rs`). The six-case `Instruction`:
  - `MovePointer` and `Add`, each with a signed payload;
  - `Input` and `Output`;
  - `JumpIfZero` and `JumpIfNonZero`, each with a target index.
- **The front end** (`src/compiler.rs`), in module `Compiler`, runs three passes:
  - `Scan` maps characters to instructions. It rejects a `]` that has no open `[`.
  - `Fuse` merges neighbouring pointer moves, and neighbouring additions, by summing
    their payloads.
  - `Resolve` pairs the jumps of the fused code again and makes each jump target its
    partner.
- **The interpreter** (`src/vm.rs`), in module `Vm`. It is a small-step machine over a
  sparse tape of bytes:
  - `Step` performs one iteration of the `execute` loop;
  - `Run` is that loop bounded by a fuel count.
- **The QBE backend** (`src/backend.rs`), in module `Backend`. It turns instructions
  into the text of a QBE program:
  - `Lower` maps each instruction to symbolic `Line`s;
  - `Render` prints a `Line`, with a verified decimal printer (module `Decimal`);
  - `Compile` writes everything after the runtime prelude.

Module `Ir` holds the instruction type and the bracket depth of instruction
sequences. Module `Wrappers` holds `Option` and `Result`. Module `Scenarios` holds
whole-pipeline facts and the two findings below.

Failure is a value in the model, not a panic:
- the front end returns a `Result` whose `CompileError` names the `expect` that
  would have fired;
- a `Step` on an `Add` whose payload's magnitude exceeds 255 (outside -255..255) is `Abort`.

Standard input is a sequence of bytes, read from the front; once it is exhausted,
reads give 0. Standard output is the sequence of bytes written.

Two details of the code shape the model.
- A resolved `JumpIfZero` targets its partner `JumpIfNonZero` itself
  (`src/compiler.rs:80`), not the position after it. On a zero cell the interpreter
  jumps to that `JumpIfNonZero`, re-runs it, and it falls through.
- The first pass pushes `()` for each `[` (`src/compiler.rs:35`), so only the height of
  that stack matters, and `Scanned.open` models exactly that.

## Model

| member | source | states |
|---|---|---|
| Ir.DepthIsCheckedBalance | src/compiler.rs:67-78 | Pairing the jumps of a sequence fails exactly when some prefix closes more loops than it opens. Otherwise the number of loops left open is the jump balance. |
| Compiler.Primitive | src/compiler.rs:25-30 | No contract: the instruction each of `><+-.,` pushes. Characterised by `Compiler.ScanCode`. |
| Compiler.ScanChar | src/compiler.rs:24-44 | No contract: one iteration of the character loop. Characterised by `Compiler.ScanCode` and `Compiler.ScanRejects`. |
| Compiler.Scan | src/compiler.rs:21-45 | No contract: the character loop over the whole source, stopping at the first unmatched `]`. Characterised by `Compiler.ScanRejects`, `Compiler.ScanCode` and `Compiler.ScanIgnoresComments`. |
| Compiler.ScanRejects | src/compiler.rs:37-39 | The first pass fails exactly when some prefix of the source has more `]` than `[`, and then with `UnmatchedClose`. When it succeeds, the height of its bracket stack is the source's bracket balance. |
| Compiler.ScanCode | src/compiler.rs:23-45 | Before fusion there is exactly one instruction per command character, in order, and it is that character's primitive. The scanned code's jump depth equals the stack height. |
| Compiler.ScanIgnoresComments | src/compiler.rs:43 | The first pass on a source gives the same result as on the source with every non-command character removed. |
| Compiler.Commands | src/compiler.rs:24-44 | Removing comments keeps every command character as often as it occurs, and nothing else: no other character remains. |
| Compiler.Merge | src/compiler.rs:62 | No contract: `*n += m` on two pointer moves or two additions. Characterised through `Compiler.FuseCollapsesRuns`. |
| Compiler.Absorb | src/compiler.rs:60-64 | No contract: one iteration of the fusion loop, merging into the last instruction or pushing. Characterised through `Compiler.Fuse` and `Compiler.FuseCollapsesRuns`. |
| Compiler.Fuse | src/compiler.rs:56-65 | The fused code is in fusion normal form: no two neighbours are both pointer moves or both additions. It is never longer, it is empty exactly when the input is, and its last instruction has the kind of the input's last. |
| Compiler.FuseFixesFused | src/compiler.rs:60-65 | Code already in fusion normal form is left unchanged by fusion. |
| Compiler.FuseIdempotent | src/compiler.rs:60-65 | Fusing twice gives the same result as fusing once. |
| Compiler.FuseKeepsRigid | src/compiler.rs:62-63 | Fusion keeps the ordered subsequence of input, output and jump instructions unchanged. |
| Compiler.FuseKeepsDepth | src/compiler.rs:62-63 | Fusion never merges or drops a jump, so the bracket depth of the code is unchanged. |
| Compiler.Runs | src/compiler.rs:60-65 | The cut of a sequence into runs has only non-empty runs, and it is empty exactly when the sequence is. |
| Compiler.RunsFlatten | src/compiler.rs:60-65 | Concatenating the runs gives back the sequence. |
| Compiler.RunsAreMaximal | src/compiler.rs:60-65 | The cut into runs is maximal: the runs concatenate to the sequence, each is a same-kind run, and no two neighbouring runs could merge. |
| Compiler.FuseCollapsesRuns | src/compiler.rs:60-65 | The fused code has one instruction per maximal run. That instruction has the run's kind and the run's payload sum. |
| Compiler.PairFrom | src/compiler.rs:67-78 | No contract: the pairing loop from position `i` with a stack and a partner map, `None` where `expect` panics. Characterised by `Compiler.PairFromSpec`. |
| Compiler.Retarget | src/compiler.rs:79-82 | No contract: every paired position targets its partner. Characterised by `Compiler.RetargetShape`, `Compiler.RetargetCloses`, `Compiler.RetargetOpens` and `Compiler.RetargetNested`. |
| Compiler.Resolve | src/compiler.rs:66-82 | No contract: pairing, then retargeting. Characterised by `Compiler.ResolveSpec` and `Compiler.ResolveFixpoint`. |
| Compiler.PairFromSpec | src/compiler.rs:69-78 | From any point of the pairing loop, pairing succeeds exactly when the code's jump depth is defined. The final stack and partner map satisfy the pairing invariant: pairs are symmetric, ordered, of the right kinds and nested, and open positions are exactly the unpaired `JumpIfZero`s. |
| Compiler.PairSpec | src/compiler.rs:67-78 | The pairing loop, started on an empty stack, reaches its end without the "unmatched" panic exactly when the jump depth is defined. Its result satisfies the pairing invariant. |
| Compiler.RetargetShape | src/compiler.rs:79-82 | Retargeting changes only jump targets, never the kind of an instruction. |
| Compiler.RetargetCloses | src/compiler.rs:81 | After retargeting, every `JumpIfNonZero` targets an earlier `JumpIfZero` that targets it back. |
| Compiler.RetargetOpens | src/compiler.rs:80 | After retargeting, a `JumpIfZero` is resolved exactly when pairing recorded it. |
| Compiler.RetargetNested | src/compiler.rs:79-82 | The retargeted code is well matched: pairs are symmetric and nest like brackets. |
| Compiler.ResolveSpec | src/compiler.rs:67-82 | Jump resolution succeeds exactly when the jump depth is defined. The result has the input's shape and is well matched, and an unresolved `JumpIfZero` keeps its old target. Every `JumpIfZero` is resolved exactly when the depth is 0. |
| Compiler.ResolveFixpoint | src/compiler.rs:67-82 | Resolving already-resolved code again changes nothing: re-pairing the fused code recovers the recorded pairs. |
| Compiler.FuseKeepsPlaceholders | src/compiler.rs:60-65 | Fusion keeps every jump's placeholder target 0. |
| Compiler.RepeatedInstructionsPass | src/compiler.rs:52-84 | No contract: fusion, then jump resolution. Characterised by `Compiler.CompileFixpoint` and, through `Compiler.FuseKeepsDepth`, by `Compiler.CompileRejects`. |
| Compiler.Compile | src/compiler.rs:19-49 | No contract: the first pass, then the second. Characterised by `Compiler.CompileRejects`, `Compiler.CompileMatches`, `Compiler.CompileIgnoresComments` and `Compiler.CompileFixpoint`. |
| Compiler.CompileRejects | src/compiler.rs:19-49 | Compilation fails exactly when some prefix of the source has more `]` than `[`. The "unmatched [] after passes" failure never happens. |
| Compiler.CompileIgnoresComments | src/compiler.rs:24-44 | Compiling a source is the same as compiling it with every non-command character removed. |
| Compiler.CompileMatches | src/compiler.rs:31-36 | Compiled code is well matched. A `JumpIfZero` without a partner keeps the placeholder target 0. Every `JumpIfZero` has a partner exactly when the source's brackets balance. |
| Compiler.CompileFixpoint | src/compiler.rs:46 | Compiled code is in fusion normal form, and running the second pass on it again returns it unchanged. |
| Compiler.CompileStrict | src/compiler.rs:19-49 | No contract: `Compile` with a check after the character loop that every `[` was closed. Characterised by `Compiler.CompileStrictSpec`. |
| Compiler.CompileStrictSpec | src/compiler.rs:19-49 | The corrected front end accepts exactly the bracket-balanced sources. For those it returns the same code as `Compile`, and every jump is paired. |
| Vm.Cell | src/vm.rs:33-39 | No contract: a cell that was never written reads 0. Used by every contract of `Vm.Step`. |
| Vm.Fetch | src/vm.rs:27-31 | No contract: the instruction at `ip`, if any, with `ip` advanced either way. Characterised through `Vm.Step`, whose halting clause it decides. |
| Vm.GetChar | src/vm.rs:41-49 | No contract: the next input byte and the rest, or 0 once input is exhausted. Characterised through the input clause of `Vm.Step` and `Vm.StepExtends`. |
| Vm.New | src/vm.rs:18-25 | A new machine starts at instruction 0 and address 0, with the given code and input, no output, and every cell reading 0. |
| Vm.Step | src/vm.rs:27-88 | One step halts exactly when `ip` is past the code, and aborts exactly on an `Add` whose payload's magnitude exceeds 255 (outside -255..255): the code converts `n`, or `|n|` when `n` is negative, to a byte. A pointer move wraps modulo 2^64. An addition changes only the current cell, modulo 256. Input overwrites the current cell with the next byte, or 0 once input is exhausted, and consumes it. Output appends the current cell. A jump sets `ip` to its target exactly when its test holds and touches nothing else. |
| Vm.Run | src/vm.rs:56-91 | A run never changes the code. When it halts, `ip` is past the code. |
| Vm.RunAborts | src/vm.rs:67-74 | A run aborts only at an instruction inside the code whose step is the panic: an `Add` whose payload's magnitude exceeds 255 (outside -255..255). |
| Vm.MoveThenBack | src/vm.rs:60-66 | `MovePointer(n)` then `MovePointer(-n)` restores the pointer and leaves every cell, the input and the output as they were. |
| Vm.MoveLeftWraps | src/vm.rs:63-64 | Moving left from address 0 wraps to the highest address. |
| Vm.AddOneRepeated | src/vm.rs:67-74 | `k` consecutive `Add(1)` add `k` modulo 256 to the current cell and change no other cell. |
| Vm.AddCycle | src/vm.rs:67-74 | A multiple of 256 consecutive `Add(1)` leaves the cell as it was. |
| Vm.StepExtends | src/vm.rs:75-78 | One step only appends to the output and only consumes input from the front. |
| Vm.RunExtends | src/vm.rs:56-91 | A whole run only appends to the output and only consumes input from the front. |
| Vm.RunMoreFuel | src/vm.rs:58 | A run that halted or aborted ends the same way with more fuel. |
| Vm.RunSplit | src/vm.rs:58 | A run that is still going after `a` steps continues from the state it reached. |
| Vm.StepWrapping | src/vm.rs:67-74 | The corrected step never aborts: any `Add(n)` adds `n` modulo 256. It agrees with `Step` whenever `Step` does not abort. |
| Vm.RunWrapping | src/vm.rs:56-91 | A run of the corrected interpreter never aborts and never changes the code. |
| Vm.WrappingAddsFuse | src/compiler.rs:62 | With wrapping addition, `Add(a)` then `Add(b)` leaves the same tape and pointer as `Add(a + b)`, so fusing additions is sound. |
| Decimal.IntToString | src/backend.rs:34 | The printed payload is non-empty. Together with `Decimal.IntRoundTrip`, it prints a sign and then the digits of the magnitude. |
| Decimal.NatToString | src/backend.rs:18 | A number's decimal text is non-empty and all digits, with no leading zero. |
| Decimal.NatRoundTrip | src/backend.rs:18 | Reading back the digits printed for a natural number gives the number. |
| Decimal.IntRoundTrip | src/backend.rs:34 | Parsing the printed form of any integer payload gives the payload back. |
| Decimal.IntToStringInjective | src/backend.rs:37 | Two payloads print the same exactly when they are equal. |
| Decimal.NatToStringInjective | src/backend.rs:46 | Two indices print the same exactly when they are equal, so label names by index cannot collide. |
| Backend.LabelName | src/backend.rs:46-57 | No contract: `@start`, `@L{i}` and `@L{i}.fallthrough`. Characterised by `Backend.LabelNameEnds` and `Backend.LabelNameInjective`. |
| Backend.Render | src/backend.rs:33-58 | No contract: the text of each kind of line. Characterised by `Backend.HeaderText`, `Backend.PlusDotBody`, `Backend.RenderLabelLine` and `Backend.RenderedLabelsDistinct`. |
| Backend.LabelNameEnds | src/backend.rs:46-57 | Every label name starts with `@`. A loop label ends in a digit, and a fallthrough label ends in `h`. |
| Backend.LabelNameInjective | src/backend.rs:46-57 | Two labels have the same name exactly when they are the same label. |
| Backend.RenderAll | src/backend.rs:31-60 | Rendering a sequence of lines renders each line in place. |
| Backend.Lower | src/backend.rs:45-58 | A `JumpIfZero` lowers to six lines that start by defining `@L{i}` and end by defining `@L{i}.fallthrough`. A `JumpIfNonZero` lowers to four lines that end by defining `@L{i}`. Every other instruction lowers to one line. |
| Backend.LowerLabels | src/backend.rs:33-58 | One instruction's lowering defines exactly the labels its index owns, each once, and its `jnz` names exactly the jump's target label and its own label. |
| Backend.MainBody | src/backend.rs:29-62 | The body is empty exactly when the code is. |
| Backend.BodyDefines | src/backend.rs:46-57 | The body defines exactly `@L{i}` for each jump at `i` and `@L{i}.fallthrough` for each `JumpIfZero` at `i`, and defines no label twice. |
| Backend.BodyReferences | src/backend.rs:50-56 | A label is named in a `jnz` of the body exactly when some jump branches to it. |
| Backend.LabelsResolve | src/backend.rs:50-56 | When every jump targets a jump, every label a `jnz` names is defined in the body. |
| Backend.MatchedTargetsValid | src/compiler.rs:79-82 | Well-matched code in which every `JumpIfZero` is paired has only jumps as targets. |
| Backend.BodyPrefix | src/backend.rs:31 | The body of a prefix of the program is a prefix of the body: lowering goes in program order. |
| Backend.BodyLocal | src/backend.rs:31-60 | The lines between two consecutive offsets are exactly the lowering of that instruction at that index, so each lowering depends only on the instruction and its index. |
| Backend.Header | src/backend.rs:18-22 | No contract: the five lines written before the body. Characterised by `Backend.HeaderText`. |
| Backend.Unlines | src/backend.rs:18-25 | No contract: each line followed by the newline `writeln!` adds. Characterised by `Backend.SplitUnlines` and `Backend.CompileLayout`. |
| Backend.MainLines | src/backend.rs:18-25 | No contract: the header, the body and the footer of `$main`. Characterised by `Backend.MainLabels` and `Backend.MainLinesPrintable`. |
| Backend.MainLabels | src/backend.rs:17-27 | `$main` defines `@start` and the jumps' labels, each once, and its `jnz`s name exactly the labels the jumps target. |
| Backend.MainLabelsResolve | src/backend.rs:45-58 | When every jump targets a jump, every label named in `$main` is defined there. |
| Backend.RenderLabelLine | src/backend.rs:22 | A rendered line starts with `@` exactly when it defines a label. |
| Backend.MainLinesPrintable | src/backend.rs:18-58 | Every line of `$main` and its data renders as one line of text. |
| Backend.RenderedLabelsDistinct | src/backend.rs:46-57 | In the text of `$main` the label lines are exactly the definitions, and no two of them are equal. |
| Backend.SplitUnlines | src/backend.rs:17-27 | Splitting the written text at its newlines gives back the lines written, when none of them holds a newline. |
| Backend.New | src/backend.rs:10-15 | No contract: a backend whose text starts as the prelude. Characterised through `Backend.Compile` and `Backend.CompileLayout`. |
| Backend.Compile | src/backend.rs:10-27 | The program text starts with the prelude the backend was created with. |
| Backend.HeaderText | src/backend.rs:18-25 | The header renders as the cells declaration with the cell count, the pointer declaration, a blank line, the head of `$main` and `@start`. The footer (`Backend.Footer`, lines 24-25) renders as `ret 0` and `}`. |
| Backend.CompileLayout | src/backend.rs:17-27 | The output is the prelude, then the header, then the lowered body, then the footer, each line followed by a newline. |
| Backend.CompileSplits | src/backend.rs:17-27 | The text after the prelude splits back into exactly the rendered header, body and footer lines. |
| Backend.PlusDotBody | src/backend.rs:36-44 | The code of `+.` lowers to exactly `call $add(w 1)` then `call $output()`, with no label. |
| Scenarios.FusePointerExample | src/compiler.rs:93-96 | `[MP(1), MP(-1), MP(1)]` fuses to `[MP(1)]`. |
| Scenarios.FuseAddExample | src/compiler.rs:97-100 | `[Add(1), Add(1), Add(-1)]` fuses to `[Add(1)]`. |
| Scenarios.ZeroSumKept | src/compiler.rs:62 | `+-` compiles to `[Add(0)]`: a run that sums to zero is kept. |
| Scenarios.CloseFirstRejected | src/compiler.rs:39 | `][` is rejected with `UnmatchedClose`. |
| Scenarios.ResolveNoJumps | src/compiler.rs:67-82 | Code without jumps passes jump resolution unchanged. |
| Scenarios.CompileAddOutput | src/compiler.rs:19-49 | `+++.` compiles to `[Add(3), Output]`. |
| Scenarios.AddOutputRuns | src/vm.rs:56-91 | `+++.` compiles to `[Add(3), Output]`, which prints the byte 3 and halts. |
| Scenarios.CompileMoveLoop | src/compiler.rs:19-49 | `++[->+<]` compiles to code whose loop jumps target each other. |
| Scenarios.MoveLoopDrains | src/vm.rs:79-88 | The loop of `++[->+<]` moves cell 0 into cell 1 one unit per pass, then halts. |
| Scenarios.MoveLoopEndToEnd | src/vm.rs:56-91 | `++[->+<]` compiles, and its code halts with cell 0 at 0 and cell 1 at 2. |
| Scenarios.CompileCat | src/compiler.rs:19-49 | `,[.,]` compiles to `[Input, JumpIfZero(4), Output, Input, JumpIfNonZero(1)]`. |
| Scenarios.CatCopies | src/vm.rs:75-88 | On any input free of 0 bytes, `,[.,]` prints exactly its input and halts. Input past the end reads 0, which ends the loop. |
| Scenarios.CatEndToEnd | src/vm.rs:56-91 | `,[.,]` compiles, and its code copies any input free of 0 bytes to the output and halts. |
| Scenarios.CatEchoesAB | src/vm.rs:41-54 | `,[.,]` on the input `AB` prints `AB` and halts. |
| Scenarios.CompileClear | src/compiler.rs:19-49 | `[-]` compiles to `[JumpIfZero(2), Add(-1), JumpIfNonZero(0)]`. |
| Scenarios.ClearDrains | src/vm.rs:67-88 | `[-]` sets the current cell to 0, whatever it held, prints nothing and halts. |
| Scenarios.ClearZeroCell | src/vm.rs:79-88 | On a fresh tape, `[-]` halts after its two tests, before any round of its loop, having printed nothing. |
| Scenarios.CompilePluses | src/compiler.rs:62 | Any number `k` of plus signs in a row compiles to the one instruction `Add(k)`. |
| Scenarios.LongIncrementAborts | src/vm.rs:67-74 | As written: with more than 255 plus signs the fused addition panics. The same additions left unfused halt with `k % 256` in the cell. |
| Scenarios.LongIncrementWraps | src/vm.rs:67-74 | Corrected: with wrapping addition the fused program halts with the same cell as the unfused one. |
| Scenarios.CompileOpen | src/compiler.rs:31-36 | As written: a lone `[` compiles to `[JumpIfZero(0)]`. |
| Scenarios.UnclosedOpenSpins | src/compiler.rs:31-36 | As written: the program compiled from `[` never halts, for any input. |
| Scenarios.StrictRejectsOpen | src/compiler.rs:46 | Corrected: the strict front end rejects `[` with `UnmatchedOpen`. |
| Scenarios.StrictLowers | src/backend.rs:50-56 | Code the strict front end accepts targets only jumps. Its `$main` defines each label once and defines every label it names. |

## Left out

- `src/main.rs`: command-line parsing, reading and writing files, and choosing a mode are I/O plumbing.
- Real standard input and output: input is a byte sequence and output a byte sequence.
- The panic in `getchar` on a read error other than end of file (`src/vm.rs:45`): it depends on the operating system.
- The `char::from` re-encoding of bytes 128 and above in `putchar` (`src/vm.rs:52-53`): output is the byte that was printed.
- The run-time meaning of the emitted QBE program: the builtins, the bounded `$cells` array and the `$pointer` start value. Only the text is modelled.
- `BUILTINS` and `NUM_CELLS` are parameters (`builtins`, `numCells`). `NUM_CELLS` is not defined in `src/lib.rs`, and `BUILTINS` is only written out verbatim.
- `fmt::Error` from `writeln!` into a `String`: it cannot happen, so `Backend.Compile` is total.
- The `HashMap` iteration order in jump fixing (`src/compiler.rs:79-82`): the pairs are disjoint, so the model uses a partner map.
- Vm.Run: runs for at most `fuel` steps, because a program need not terminate. `OutOfFuel` means no more than "still running".
- Compiler.Fuse: sums payloads as unbounded integers. An `isize` overflow of a run sum, which would need more than 2^63 characters, is not modelled.
- Vm.Step: `usize` is taken to be 64 bits wide, so the pointer wraps modulo 2^64.
- Vm.Step: the tape is a map where an absent cell reads 0. The materialisation of cells by `or_insert(0)` is not visible in the model.
- Panic message strings: failures are `CompileError` values and `Abort`.

## Findings

| source | as written | input that shows it | evidently intended | confidence | as-written member | corrected member |
|---|---|---|---|---|---|---|
| src/compiler.rs:62 with src/vm.rs:67-74 | Fusion sums any number of `+` into one `Add(k)`. The interpreter converts `k` to a byte with `try_into().unwrap()`, which panics when `k > 255`. | 256 `+` in a row | The fused program wraps modulo 256, as the same `+` signs do one at a time | not executed | Scenarios.LongIncrementAborts | Scenarios.LongIncrementWraps |
| src/compiler.rs:31-36 with src/compiler.rs:46 | A `[` without a matching `]` is never rejected. It keeps the placeholder target 0, so it jumps back to instruction 0. | `[`: it compiles, and on a zero cell the program jumps to itself for ever | A source with an unclosed `[` is rejected, as one with an unmatched `]` is | not executed | Scenarios.UnclosedOpenSpins | Compiler.CompileStrict, Compiler.CompileStrictSpec |
