/** The data model of the toy MARS: the closed Redcode enumerations and the
    cell that fills every location of the core. */
module Redcode {

  /** Addressing modes of an operand field. Only `Immediate` (#) and `Direct` ($)
      are understood by the execution step; the other three are declared but
      make every instruction that carries them fail. */
  datatype Address = Immediate | Direct | Indirect | PreIncIndirect | PostIncIndirect

  /** The instruction set as declared. There is no NOP. */
  datatype Instruction = DAT | MOV | ADD | SUB | MUL | DIV | MOD | JMP | JMZ | JMN | DJN | CMP | SLT | SPL

  /** Field modifiers; the step implements only `I` (whole-cell copy) for MOV. */
  datatype Modifier = A | B | AB | BA | F | X | I

  /** An operand: an addressing mode and an unsigned value (a machine `usize`,
      modelled as an unbounded natural number). */
  datatype Param = Param(addr: Address, val: nat)

  /** One location of the core: instruction, modifier and the A and B operands. */
  datatype Cell = Cell(ins: Instruction, modifier: Modifier, a: Param, b: Param)

  /** The reasons for which the machine aborts (each is a panic in the machine). */
  datatype Fault =
    | AddressNotImplemented      // an operand whose mode is neither # nor $
    | ModifierNotImplemented     // MOV with a modifier other than I
    | InstructionNotImplemented  // any instruction other than DAT and MOV
    | IndexOutOfBounds           // executing at a pointer past the end of the core
    | SliceOutOfRange            // loading a program longer than the core

  datatype Result<T> = Ok(value: T) | Err(fault: Fault)

  /** `DAT.F #0, #0`, the cell a new core is filled with. */
  function DefaultCell(): (c: Cell)
    ensures c.ins == DAT && c.modifier == F
    ensures c.a == c.b == Param(Immediate, 0)
    ensures Executable(c)
  {
    Cell(DAT, F, Param(Immediate, 0), Param(Immediate, 0))
  }

  /** A mode the operand resolver understands. */
  predicate Supported(m: Address)
    ensures !Supported(m) <==> m in {Indirect, PreIncIndirect, PostIncIndirect}
  {
    m == Immediate || m == Direct
  }

  /** Both operands of the cell have a supported mode. */
  predicate OperandsSupported(c: Cell) {
    Supported(c.a.addr) && Supported(c.b.addr)
  }

  /** A cell the step executes without aborting: both operand modes are
      supported, and the instruction is DAT or MOV.I. */
  predicate Executable(c: Cell) {
    OperandsSupported(c) && (c.ins == DAT || (c.ins == MOV && c.modifier == I))
  }
}
