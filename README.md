# A toy Core War MARS, modelled in Dafny

The system is a very small Memory Array Redcode Simulator (MARS): a circular
core of Redcode cells and a single instruction pointer. A cell holds an
instruction, a modifier and two operands (A and B), each an addressing mode
and an unsigned value. The machine creates a core filled with `DAT.F #0, #0`,
loads a program over the front of the core, and executes one cell at a time.

Only a sliver of ICWS'94 Redcode is implemented, and the model keeps to that:

- Operand resolution understands `#` (Immediate, offset 0, so the executing
  cell itself) and `$` (Direct, offset = the operand's value). Indirect and
  pre/post-increment indirect operands abort the machine. Both operands are
  resolved before the instruction is looked at, so even a `DAT` with such an
  operand aborts.
- `DAT` does nothing. Unlike ICWS'94, where executing `DAT` removes the
  process, here the pointer simply moves on, so a core of `DAT`s runs forever
  (`Semantics.DatCoreNeverHalts`, `Semantics.FreshCoreNeverHalts`).
- `MOV.I` copies the whole source cell, as it was before the step, over the
  destination cell. `MOV` with any other modifier, and every other
  instruction, aborts.
- After a step that does not abort, the next pointer is always one cell on,
  modulo the core size.
- The instruction set is declared without `NOP`, so the model has none either.

Each abort of the machine is a `Fault` value in a `Result`, not a no-op:
unsupported addressing mode, unsupported modifier, unsupported instruction, a
pointer past the end of the core, and a program longer than the core.

Files:

- `redcode.dfy`, module `Redcode`: the enumerations `Address`, `Instruction`,
  `Modifier`, the records `Param` and `Cell`, `Fault` and `Result`, and the
  predicates `Supported`, `OperandsSupported` and `Executable`, and the fill cell `DefaultCell`.
- `semantics.dfy`, module `Semantics`: the machine as functions on values
  (`AddIptr`, `Resolve`, `Step`, `InitialCore`, `Load`, `RunFor`) and the
  lemmas about them.
- `machine.dfy`, module `Machine`: class `Mars` holding the core as an array
  that is overwritten in place, and the pointer; its constructor and its
  methods `Load`, `Execute` and `Run` are proved against module `Semantics`.
  `ImpScenario` replays the program the machine is run with.

## Data model

The types carry no contracts of their own; each mirrors one declaration.

| type | source | models |
|---|---|---|
| Redcode.Address | src/main.rs:12-19 | the five addressing modes (`#`, `$` and the three indirect ones) |
| Redcode.Instruction | src/main.rs:22-38 | the fourteen declared instructions, without `NOP` |
| Redcode.Modifier | src/main.rs:41-50 | the seven field modifiers |
| Redcode.Param | src/main.rs:52-62 | an operand: a mode and an unsigned value (`usize` as `nat`) |
| Redcode.Cell | src/main.rs:64-76 | instruction, modifier, A operand, B operand; `Clone` is value semantics |
| Redcode.Fault | src/main.rs:90, 115, 121, 126, 139, 142 | one value per panic: slice too long, pointer past the end, unsupported mode, modifier or instruction |
| Redcode.OperandsSupported, Redcode.Executable | src/main.rs:118-142 | the cells whose operands resolve, and the cells a step runs without a panic; tied to the step by `Semantics.CellPanicFree` |
| Machine.Mars | src/main.rs:78-81 | the core (an array whose length never changes) and the pointer |

## Model

| member | source | states |
|---|---|---|
| Redcode.DefaultCell | src/main.rs:85 | the fill cell is `DAT.F #0, #0`, and it is executable (both operands immediate) |
| Redcode.Supported | src/main.rs:118-127 | a mode is unsupported exactly when it is Indirect, PreIncIndirect or PostIncIndirect, the modes that reach the panic arm |
| Semantics.CellPanicFree | src/main.rs:114-142 | both operands resolve exactly when `OperandsSupported` holds, and a cell executes without a fault exactly when `Executable` holds |
| Semantics.Imp | src/main.rs:156 | the imp is `MOV.I $0, $1`, an executable cell |
| Semantics.AddIptr | src/main.rs:148-150 | the result is a valid core index congruent to `iptr + add` modulo the core length; with no wrap it is `iptr + add` itself |
| Semantics.AddIptrTwice | src/main.rs:148-150 | moving `a` cells and then `b` cells lands where moving `a + b` cells does |
| Semantics.Resolve | src/main.rs:118-127 | Immediate resolves to offset 0, Direct to the operand's value, and every other mode (exactly the unsupported ones) to the "address not implemented" fault |
| Semantics.ImmediateIsSelf | src/main.rs:118-119 | an Immediate operand designates the executing cell itself |
| Semantics.Step | src/main.rs:114-146 | a step succeeds exactly when the pointer is inside the core and the cell there is executable (supported operands, and DAT or MOV.I); otherwise it names the fault, with operand faults taking precedence over modifier and instruction faults; on success the core keeps its length and the next pointer is `iptr + 1` modulo the length, hence inside the core |
| Semantics.Source | src/main.rs:135 | the source cell of a MOV.I is `(iptr + aptr) % len`, a valid core index |
| Semantics.Destination | src/main.rs:136 | the destination cell of a MOV.I is `(iptr + bptr) % len`, a valid core index |
| Semantics.StepDat | src/main.rs:129-145 | DAT with supported operands leaves the whole core unchanged and advances the pointer; it does not halt |
| Semantics.StepMovI | src/main.rs:132-138 | MOV.I overwrites exactly the destination cell, with the source cell's value from before the step; every other cell and the length are unchanged |
| Semantics.StepMovIIdempotent | src/main.rs:132-138 | executing the same MOV.I again at the same pointer, when it does not overwrite itself, leaves the core as the first execution left it |
| Semantics.InitialCore | src/main.rs:84-87 | a new core has exactly `size` cells, each `DAT.F #0, #0` |
| Semantics.Load | src/main.rs:89-91 | loading succeeds exactly when the program fits; then cell `i` is the program's cell `i` below the program's length and the old cell above it, and the length is unchanged; otherwise it is the slice fault |
| Semantics.RunFor | src/main.rs:93-112 | a run that does not abort keeps the core's length and, after at least one step, leaves the pointer inside the core |
| Semantics.RunForSplit | src/main.rs:93-112 | running `m + n` steps is running `m` steps and then `n` more from where they stopped |
| Semantics.StableCoreRuns | src/main.rs:94-111 | if every step leaves the core as it is, any number of steps succeeds and moves the pointer that many cells round the core |
| Semantics.DatCoreNeverHalts | src/main.rs:129-145 | a core holding only DATs with supported operands never aborts and never changes; after `n` steps the pointer is `iptr + n` modulo the length |
| Semantics.FreshCoreNeverHalts | src/main.rs:84-87 | a newly created core runs forever from any pointer inside it, unchanged |
| Semantics.ImpFirstStep | src/main.rs:153-158 | on a 16-cell core loaded with `MOV.I $0, $1`, one step copies cell 0 onto cell 1, leaves every other cell alone and returns pointer 1 |
| Semantics.ImpTrailStep | src/main.rs:132-138 | one step of the imp at the head of its trail extends the trail by one cell and moves the pointer one cell on |
| Semantics.ImpCrawls | src/main.rs:153-158 | from the loaded core, the imp crawls one cell per step, copying itself, until it reaches the last cell |
| Semantics.ImpFilledCoreIsStable | src/main.rs:132-138 | once every cell holds the imp, a step changes no cell |
| Semantics.ImpRunsForever | src/main.rs:153-158 | the imp loaded alone into a new core of any positive size (one cell included, where it copies itself onto itself) never aborts; after `n` steps the pointer is at `n` modulo the core size |
| Semantics.ImpLoaded | src/main.rs:154-157 | loading the imp into a new core succeeds and leaves the imp in cell 0 and `DAT.F #0, #0` everywhere else |
| Semantics.ImpFilledRuns | src/main.rs:153-158 | from the last cell of a core full of imps, any number of steps leaves the core unchanged and moves the pointer that many cells round |
| Semantics.ImpFillsThenRuns | src/main.rs:153-158 | after the first `size - 1` steps the imp fills the core, and from then on the pointer after `n` steps is `n` modulo the size |
| Machine.Mars.constructor | src/main.rs:84-87 | the new machine's core is a fresh array equal to `InitialCore(size)` and the pointer is 0 |
| Machine.Mars.Load | src/main.rs:89-91 | overwrites the core in place exactly as `Semantics.Load` describes, or reports the slice fault and writes nothing |
| Machine.Mars.Execute | src/main.rs:114-146 | the new array contents and the returned pointer are those of `Semantics.Step` on the old contents; a fault leaves the core untouched |
| Machine.Mars.Run | src/main.rs:93-112 | storing each step's next pointer into `iptr` for `steps` steps gives the core and pointer of `Semantics.RunFor`, or its first fault |
| Machine.ImpScenario | src/main.rs:153-158 | after loading the imp into a new 16-cell machine and executing one step, the next pointer is 1 and cells 0 and 1 both hold the imp |

## Left out

- Machine.Mars.Run: the machine's run loop never ends and prints the core with ANSI colour escapes and sleeps 100 ms before each next step; the model runs a given number of steps and leaves out the printing and the delay, which are display only.
- `main`'s final `println!` and the `#![feature(...)]` attributes: toolchain and output details with no effect on the machine.
- `usize` overflow: pointers and operand values are unbounded naturals, so the wrap-around of `iptr + add` at the machine word size is not modelled; with realistic core sizes and operand values it does not occur.
- A panic unwinds the process; the model instead returns the fault and, for `Execute` and `Load`, leaves the core as it was (the machine writes nothing before it aborts).
- Not in the machine, so not in the model: default-modifier inference, the indirect and pre/post-increment addressing modes, negative offsets, the arithmetic, jump, compare and split instructions, halting on `DAT`, loading at an origin other than cell 0, and more than one process.
