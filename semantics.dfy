/** The machine's behaviour as functions on values: pointer arithmetic, operand
    resolution, one execution step, loading, and a bounded run; with the
    properties of each. The class in module Machine is proved against these. */
module Semantics {
  import opened Redcode

  /** Pointer arithmetic on the circular core: `add` cells on from `iptr`,
      wrapping at `len`. */
  function AddIptr(iptr: nat, add: nat, len: nat): (r: nat)
    requires len > 0
    ensures r < len
    ensures (iptr + add - r) % len == 0
    ensures iptr + add < len ==> r == iptr + add
  {
    var x := iptr + add;
    DivMod(x, len);
    MultipleMod(x / len, len);
    x % len
  }

  lemma DivMod(x: nat, len: nat)
    requires len > 0
    ensures x == len * (x / len) + x % len && 0 <= x % len < len
  {
  }

  lemma MultipleMod(q: nat, len: nat)
    requires len > 0
    ensures (len * q) % len == 0
  {
    ShiftMod(q, 0, len);
  }

  /** Adding whole turns of the core does not move a position. */
  lemma {:induction false} ShiftMod(q: nat, y: nat, len: nat)
    requires len > 0
    ensures (len * q + y) % len == y % len
    decreases q
  {
    if q > 0 {
      ShiftMod(q - 1, y, len);
      var z := len * (q - 1) + y;
      assert len * q + y == z + len;
      OneTurn(z, len);
    }
  }

  lemma OneTurn(z: nat, len: nat)
    requires len > 0
    ensures (z + len) % len == z % len
  {
    var q, r := z / len, z % len;
    assert z + len == len * (q + 1) + r;
    ModUnique(z + len, len, q + 1, r);
  }

  /** Euclidean division is unique: a remainder in range is the remainder. */
  lemma ModUnique(x: int, len: int, q: int, r: int)
    requires len > 0 && 0 <= r < len && x == len * q + r
    ensures x % len == r
  {
    var q0, r0 := x / len, x % len;
    assert x == len * q0 + r0;
    assert len * (q0 - q) == r - r0;
    if q0 > q {
      AtLeastOneTurn(len, q0 - q);
    } else if q0 < q {
      AtLeastOneTurn(len, q - q0);
    }
  }

  lemma AtLeastOneTurn(len: int, d: int)
    requires len > 0 && d >= 1
    ensures len * d >= len
  {
    assert len * d == len * (d - 1) + len;
  }

  /** Two moves around the core are one move by the sum. */
  lemma AddIptrTwice(iptr: nat, a: nat, b: nat, len: nat)
    requires len > 0
    ensures AddIptr(AddIptr(iptr, a, len), b, len) == AddIptr(iptr, a + b, len)
  {
    var x := iptr + a;
    DivMod(x, len);
    ShiftMod(x / len, x % len + b, len);
  }

  /** Operand resolution: the offset, from the executing cell, that a field
      designates. Immediate is offset 0 and Direct its value; any other mode
      aborts. */
  function Resolve(p: Param): (r: Result<nat>)
    ensures r.Ok? <==> Supported(p.addr)
    ensures r.Err? ==> r.fault == AddressNotImplemented
    ensures p.addr == Immediate ==> r == Ok(0)
    ensures p.addr == Direct ==> r == Ok(p.val)
  {
    match p.addr
    case Immediate => Ok(0)
    case Direct => Ok(p.val)
    case _ => Err(AddressNotImplemented)
  }

  /** An Immediate operand designates the executing cell itself. */
  lemma ImmediateIsSelf(iptr: nat, p: Param, len: nat)
    requires iptr < len && p.addr == Immediate
    ensures Resolve(p).Ok? && AddIptr(iptr, Resolve(p).value, len) == iptr
  {
  }

  /** One fetch/decode/execute step at pointer `iptr`: the new core and the next
      pointer, or the fault that aborts the machine. Both operands are resolved
      before the instruction is examined; DAT changes nothing; MOV.I copies the
      whole source cell (read from the core before the step) over the
      destination; the next pointer is always one cell on. */
  function Step(core: seq<Cell>, iptr: nat): (r: Result<(seq<Cell>, nat)>)
    ensures r.Ok? <==> iptr < |core| && Executable(core[iptr])
    ensures iptr >= |core| ==> r == Err(IndexOutOfBounds)
    ensures iptr < |core| && !OperandsSupported(core[iptr]) ==> r == Err(AddressNotImplemented)
    ensures iptr < |core| && OperandsSupported(core[iptr]) && core[iptr].ins == MOV && core[iptr].modifier != I
      ==> r == Err(ModifierNotImplemented)
    ensures iptr < |core| && OperandsSupported(core[iptr]) && core[iptr].ins != DAT && core[iptr].ins != MOV
      ==> r == Err(InstructionNotImplemented)
    ensures r.Ok? ==> |r.value.0| == |core| && r.value.1 < |core|
    ensures r.Ok? ==> r.value.1 == AddIptr(iptr, 1, |core|)
  {
    if iptr >= |core| then Err(IndexOutOfBounds)
    else
      var cell := core[iptr];
      match Resolve(cell.a)
      case Err(f) => Err(f)
      case Ok(aptr) =>
        match Resolve(cell.b)
        case Err(f) => Err(f)
        case Ok(bptr) =>
          var next := AddIptr(iptr, 1, |core|);
          match cell.ins
          case DAT => Ok((core, next))
          case MOV =>
            if cell.modifier == I then
              var src := AddIptr(iptr, aptr, |core|);
              var dst := AddIptr(iptr, bptr, |core|);
              Ok((core[dst := core[src]], next))
            else Err(ModifierNotImplemented)
          case _ => Err(InstructionNotImplemented)
  }

  /** The core cell designated by the A (source) operand of the cell at `iptr`. */
  function Source(core: seq<Cell>, iptr: nat): (k: nat)
    requires iptr < |core| && Executable(core[iptr])
    ensures k < |core|
    ensures k == (iptr + Resolve(core[iptr].a).value) % |core|
  {
    AddIptr(iptr, Resolve(core[iptr].a).value, |core|)
  }

  /** The core cell designated by the B (destination) operand of the cell at `iptr`. */
  function Destination(core: seq<Cell>, iptr: nat): (k: nat)
    requires iptr < |core| && Executable(core[iptr])
    ensures k < |core|
    ensures k == (iptr + Resolve(core[iptr].b).value) % |core|
  {
    AddIptr(iptr, Resolve(core[iptr].b).value, |core|)
  }

  /** The predicates of the data model name exactly the cells that pass the
      step without a fault: operand resolution succeeds for both operands
      exactly when they are supported, and a cell executes (here, alone in a
      core of one cell) exactly when it is executable. */
  lemma CellPanicFree(c: Cell)
    ensures OperandsSupported(c) <==> Resolve(c.a).Ok? && Resolve(c.b).Ok?
    ensures Executable(c) <==> Step([c], 0).Ok?
  {
  }

  /** DAT with supported operands leaves the whole core unchanged and moves on
      to the next cell: it does not stop the machine. */
  lemma StepDat(core: seq<Cell>, iptr: nat)
    requires iptr < |core| && core[iptr].ins == DAT
    requires OperandsSupported(core[iptr])
    ensures Step(core, iptr) == Ok((core, AddIptr(iptr, 1, |core|)))
  {
  }

  /** MOV.I overwrites exactly one cell, the destination, with the value the
      source cell had before the step; every other cell keeps its value. */
  lemma StepMovI(core: seq<Cell>, iptr: nat)
    requires iptr < |core| && core[iptr].ins == MOV && core[iptr].modifier == I
    requires OperandsSupported(core[iptr])
    ensures Step(core, iptr).Ok?
    ensures var after := Step(core, iptr).value.0;
      && |after| == |core|
      && after[Destination(core, iptr)] == core[Source(core, iptr)]
      && forall j :: 0 <= j < |core| && j != Destination(core, iptr) ==> after[j] == core[j]
  {
  }

  /** Executing the same MOV.I again at the same pointer changes nothing more,
      unless its destination is the instruction itself. */
  lemma StepMovIIdempotent(core: seq<Cell>, iptr: nat)
    requires iptr < |core| && core[iptr].ins == MOV && core[iptr].modifier == I
    requires OperandsSupported(core[iptr])
    requires Destination(core, iptr) != iptr
    ensures Step(core, iptr).Ok?
    ensures Step(Step(core, iptr).value.0, iptr) == Step(core, iptr)
  {
    var src, dst := Source(core, iptr), Destination(core, iptr);
    var after := core[dst := core[src]];
    assert Step(core, iptr) == Ok((after, AddIptr(iptr, 1, |core|)));
    assert after[iptr] == core[iptr];
    assert after[dst := after[src]] == after;
  }

  /** The core of a new machine: `size` copies of `DAT.F #0, #0`. */
  function InitialCore(size: nat): (r: seq<Cell>)
    ensures |r| == size
    ensures forall i :: 0 <= i < size ==> r[i] == DefaultCell()
  {
    seq(size, _ => DefaultCell())
  }

  /** Loading a program: it overwrites the prefix of the core of its own length;
      a program longer than the core is refused and nothing is written. */
  function Load(core: seq<Cell>, program: seq<Cell>): (r: Result<seq<Cell>>)
    ensures r.Ok? <==> |program| <= |core|
    ensures r.Err? ==> r.fault == SliceOutOfRange
    ensures r.Ok? ==> |r.value| == |core|
    ensures r.Ok? ==> forall i :: 0 <= i < |program| ==> r.value[i] == program[i]
    ensures r.Ok? ==> forall i :: |program| <= i < |core| ==> r.value[i] == core[i]
  {
    if |program| > |core| then Err(SliceOutOfRange)
    else Ok(program + core[|program|..])
  }

  /** `n` steps of the machine from pointer `iptr`, each from where the previous
      one left the core and the pointer; the first fault ends the run. */
  function RunFor(core: seq<Cell>, iptr: nat, n: nat): (r: Result<(seq<Cell>, nat)>)
    ensures r.Ok? ==> |r.value.0| == |core|
    ensures r.Ok? && n > 0 ==> r.value.1 < |core|
    decreases n
  {
    if n == 0 then Ok((core, iptr))
    else
      match Step(core, iptr)
      case Err(f) => Err(f)
      case Ok(s) => RunFor(s.0, s.1, n - 1)
  }

  /** Running `m + n` steps is running `m` steps and then `n` more. */
  lemma {:induction false} RunForSplit(core: seq<Cell>, iptr: nat, m: nat, n: nat)
    ensures RunFor(core, iptr, m + n) ==
      match RunFor(core, iptr, m)
      case Err(f) => Err(f)
      case Ok(s) => RunFor(s.0, s.1, n)
    decreases m
  {
    if m > 0 {
      match Step(core, iptr)
      case Err(f) =>
      case Ok(s) =>
        RunForSplit(s.0, s.1, m - 1, n);
        assert m + n - 1 == (m - 1) + n;
    }
  }

  /** A core in which every step leaves the core as it is runs forever: after any
      number of steps the pointer has just moved that many cells round. */
  lemma {:induction false} StableCoreRuns(core: seq<Cell>, iptr: nat, n: nat)
    requires iptr < |core|
    requires forall p :: 0 <= p < |core| ==> Step(core, p) == Ok((core, AddIptr(p, 1, |core|)))
    ensures RunFor(core, iptr, n) == Ok((core, AddIptr(iptr, n, |core|)))
    decreases n
  {
    if n > 0 {
      var next := AddIptr(iptr, 1, |core|);
      StableCoreRuns(core, next, n - 1);
      AddIptrTwice(iptr, 1, n - 1, |core|);
    }
  }

  /** DAT does not halt: a core holding only DATs with supported operands never
      faults, never changes, and the pointer advances one cell per step. */
  lemma DatCoreNeverHalts(core: seq<Cell>, iptr: nat, n: nat)
    requires iptr < |core|
    requires forall j :: 0 <= j < |core| ==>
      core[j].ins == DAT && OperandsSupported(core[j])
    ensures RunFor(core, iptr, n) == Ok((core, AddIptr(iptr, n, |core|)))
  {
    forall p | 0 <= p < |core|
      ensures Step(core, p) == Ok((core, AddIptr(p, 1, |core|)))
    {
      StepDat(core, p);
    }
    StableCoreRuns(core, iptr, n);
  }

  /** In particular a freshly created core runs forever from any pointer. */
  lemma FreshCoreNeverHalts(size: nat, iptr: nat, n: nat)
    requires iptr < size
    ensures RunFor(InitialCore(size), iptr, n) == Ok((InitialCore(size), AddIptr(iptr, n, size)))
  {
    DatCoreNeverHalts(InitialCore(size), iptr, n);
  }

  /** `MOV.I $0, $1`: copies itself into the next cell. */
  function Imp(): (c: Cell)
    ensures Executable(c) && c.ins == MOV && c.modifier == I
    ensures c.a == Param(Direct, 0) && c.b == Param(Direct, 1)
  {
    Cell(MOV, I, Param(Direct, 0), Param(Direct, 1))
  }

  /** The core after the imp has crawled to cell `k`: cells 0..k hold the imp,
      the rest the initial `DAT.F #0, #0`. */
  function ImpTrail(size: nat, k: nat): (r: seq<Cell>)
    ensures |r| == size
  {
    seq(size, i => if i <= k then Imp() else DefaultCell())
  }

  /** Scenario: loading the imp alone into a new core of 16 cells gives a core
      whose first step copies cell 0 onto cell 1 and returns pointer 1. */
  lemma ImpFirstStep()
    ensures Load(InitialCore(16), [Imp()]).Ok?
    ensures var loaded := Load(InitialCore(16), [Imp()]).value;
      && Step(loaded, 0).Ok?
      && Step(loaded, 0).value.1 == 1
      && Step(loaded, 0).value.0[1] == loaded[0] == Imp()
      && forall j :: 0 <= j < 16 && j != 1 ==> Step(loaded, 0).value.0[j] == loaded[j]
  {
    var loaded := Load(InitialCore(16), [Imp()]).value;
    StepMovI(loaded, 0);
  }

  /** One step of the imp at the front of its trail extends the trail by one cell. */
  lemma ImpTrailStep(size: nat, k: nat)
    requires k + 1 < size
    ensures Step(ImpTrail(size, k), k) == Ok((ImpTrail(size, k + 1), k + 1))
  {
    var core := ImpTrail(size, k);
    assert core[k] == Imp();
    assert Source(core, k) == k && Destination(core, k) == k + 1;
    assert core[k + 1 := core[k]] == ImpTrail(size, k + 1);
  }

  /** The imp crawls forward one cell per step, copying itself as it goes. */
  lemma {:induction false} ImpCrawls(size: nat, k: nat, m: nat)
    requires k + m < size
    ensures RunFor(ImpTrail(size, k), k, m) == Ok((ImpTrail(size, k + m), k + m))
    decreases m
  {
    if m > 0 {
      ImpTrailStep(size, k);
      ImpCrawls(size, k + 1, m - 1);
    }
  }

  /** Once the imp fills the core, every step copies an imp onto an imp. */
  lemma ImpFilledCoreIsStable(size: nat, p: nat)
    requires p < size
    ensures Step(ImpTrail(size, size), p) == Ok((ImpTrail(size, size), AddIptr(p, 1, size)))
  {
    var core := ImpTrail(size, size);
    assert core[p] == Imp();
    assert core[Destination(core, p) := core[Source(core, p)]] == core;
  }

  /** Scenario: the imp loaded alone into a new core of any size of at least
      one cell never aborts (in a core of one cell it copies itself onto itself); after `n` steps the pointer is at `n mod size`. */
  lemma ImpRunsForever(size: nat, n: nat)
    requires size >= 1
    ensures Load(InitialCore(size), [Imp()]).Ok?
    ensures var loaded := Load(InitialCore(size), [Imp()]).value;
      RunFor(loaded, 0, n).Ok? && RunFor(loaded, 0, n).value.1 == n % size
  {
    ImpLoaded(size);
    if n < size {
      ImpCrawls(size, 0, n);
      ModUnique(n, size, 0, n);
    } else {
      ImpFillsThenRuns(size, n);
    }
  }

  /** Past the first `size - 1` steps the imp has filled the core and goes on
      round it. */
  lemma ImpFillsThenRuns(size: nat, n: nat)
    requires 1 <= size <= n + 1
    ensures RunFor(ImpTrail(size, 0), 0, n) == Ok((ImpTrail(size, size), n % size))
  {
    ImpCrawls(size, 0, size - 1);
    ImpTrailFull(size);
    var rest := n - (size - 1);
    RunForSplit(ImpTrail(size, 0), 0, size - 1, rest);
    ImpFilledRuns(size, rest);
    assert size - 1 + rest == n;
  }

  lemma ImpTrailFull(size: nat)
    requires size >= 1
    ensures ImpTrail(size, size - 1) == ImpTrail(size, size)
  {
  }

  /** Loading the imp into a new core gives the trail that ends at cell 0. */
  lemma ImpLoaded(size: nat)
    requires size >= 1
    ensures Load(InitialCore(size), [Imp()]) == Ok(ImpTrail(size, 0))
  {
    assert Load(InitialCore(size), [Imp()]).value == ImpTrail(size, 0);
  }

  /** From the last cell of a core full of imps, `m` steps leave the core as it
      is and bring the pointer to `m - 1` modulo the size. */
  lemma ImpFilledRuns(size: nat, m: nat)
    requires size >= 1
    ensures RunFor(ImpTrail(size, size), size - 1, m) == Ok((ImpTrail(size, size), (size - 1 + m) % size))
  {
    var filled := ImpTrail(size, size);
    forall p | 0 <= p < size
      ensures Step(filled, p) == Ok((filled, AddIptr(p, 1, size)))
    {
      ImpFilledCoreIsStable(size, p);
    }
    StableCoreRuns(filled, size - 1, m);
  }
}
