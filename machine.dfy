/** The MARS as the stateful object it is: a core array overwritten in place and
    an instruction pointer. Every method is proved against the functions of
    module Semantics. */
module Machine {
  import opened Redcode
  import Semantics

  class Mars {
    /** The circular core; its length is fixed when the machine is created. */
    var core: array<Cell>
    /** The pointer of the single process, advanced by Run. */
    var iptr: nat

    /** A machine of `size` cells, each `DAT.F #0, #0`, with the pointer at 0. */
    constructor (size: nat)
      ensures fresh(core)
      ensures core[..] == Semantics.InitialCore(size)
      ensures iptr == 0
    {
      core := new Cell[size](_ => DefaultCell());
      iptr := 0;
    }

    /** Overwrites the prefix of the core with `program`. A program longer than
        the core aborts before anything is written. */
    method Load(program: seq<Cell>) returns (r: Result<()>)
      modifies core
      ensures r.Ok? <==> |program| <= core.Length
      ensures r.Ok? ==> core[..] == Semantics.Load(old(core[..]), program).value
      ensures r.Err? ==> r.fault == SliceOutOfRange && core[..] == old(core[..])
    {
      if |program| > core.Length {
        return Err(SliceOutOfRange);
      }
      forall i | 0 <= i < |program| {
        core[i] := program[i];
      }
      r := Ok(());
    }

    /** One fetch/decode/execute step at pointer `at`. Returns the next pointer,
        or the fault at which the machine aborts (the core is then as it was). */
    method Execute(at: nat) returns (r: Result<nat>)
      modifies core
      ensures r.Ok? <==> Semantics.Step(old(core[..]), at).Ok?
      ensures r.Ok? ==> Semantics.Step(old(core[..]), at) == Ok((core[..], r.value))
      ensures r.Err? ==> Semantics.Step(old(core[..]), at) == Err(r.fault)
      ensures r.Err? ==> core[..] == old(core[..])
    {
      if at >= core.Length {
        return Err(IndexOutOfBounds);
      }
      var cell := core[at];
      var a := Semantics.Resolve(cell.a);
      if a.Err? {
        return Err(a.fault);
      }
      var b := Semantics.Resolve(cell.b);
      if b.Err? {
        return Err(b.fault);
      }
      match cell.ins {
        case DAT =>
        case MOV =>
          if cell.modifier == I {
            var src := Semantics.AddIptr(at, a.value, core.Length);
            var dst := Semantics.AddIptr(at, b.value, core.Length);
            core[dst] := core[src];
          } else {
            return Err(ModifierNotImplemented);
          }
        case _ =>
          return Err(InstructionNotImplemented);
      }
      r := Ok(Semantics.AddIptr(at, 1, core.Length));
    }

    /** Runs the machine for `steps` steps from the current pointer, storing each
        next pointer back into `iptr`; the first fault ends the run. */
    method Run(steps: nat) returns (r: Result<()>)
      modifies this`iptr, core
      ensures r.Ok? <==> Semantics.RunFor(old(core[..]), old(iptr), steps).Ok?
      ensures r.Ok? ==> Semantics.RunFor(old(core[..]), old(iptr), steps) == Ok((core[..], iptr))
      ensures r.Err? ==> Semantics.RunFor(old(core[..]), old(iptr), steps) == Err(r.fault)
    {
      var n := 0;
      while n < steps
        invariant n <= steps
        invariant Semantics.RunFor(old(core[..]), old(iptr), steps) == Semantics.RunFor(core[..], iptr, steps - n)
      {
        var next := Execute(iptr);
        if next.Err? {
          return Err(next.fault);
        }
        iptr := next.value;
        n := n + 1;
      }
      r := Ok(());
    }
  }

  /** The machine's own scenario: a new core of 16 cells, loaded with the imp
      `MOV.I $0, $1`; one step copies cell 0 onto cell 1 and returns pointer 1. */
  method ImpScenario() returns (next: nat, first: Cell, second: Cell)
    ensures next == 1
    ensures first == second == Semantics.Imp()
  {
    var mars := new Mars(16);
    var loaded := mars.Load([Semantics.Imp()]);
    Semantics.ImpFirstStep();
    var r := mars.Execute(0);
    next := r.value;
    first, second := mars.core[0], mars.core[1];
  }
}
