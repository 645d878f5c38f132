/** The register IR of src/lir/lir.hh: opcodes, runtime values and instructions. */
module Lir {

  type U32 = x: int | 0 <= x < 0x1_0000_0000

  /** UINT32_MAX marks an absent register. */
  const NONE: U32 := 0xFFFF_FFFF

  /** The opcodes the optimizer names, two that it should, and `Other` for the rest of the enumeration. */
  datatype Op =
    | Mov | LoadConst | Copy
    | Add | Sub | Mul | Div | Mod | Neg
    | And | Or | Xor
    | CmpEQ | CmpNEQ | CmpLT | CmpLE | CmpGT | CmpGE
    | Jump | JumpIf | JumpIfFalse | Label
    | Call | CallVoid | CallIndirect | CallBuiltin | CallVariadic
    | Return | Ret
    | PrintInt | PrintUint | PrintFloat | PrintBool | PrintString
    | Store | ChannelSend | ChannelRecv | ChannelClose | Await | AsyncCall
    | ChannelOffer | ChannelPoll    // not named as side effects
    | Other(code: nat)

  /** A runtime value: an integer of any width, nil, a boolean or some boxed object. */
  datatype Value = Int(n: int) | Nil | Boolean(b: bool) | Boxed(id: nat)

  const MIN_SMI: int := -0x1000_0000_0000_0000
  const MAX_SMI: int := 0x0FFF_FFFF_FFFF_FFFF

  /** IS_INT: only integers of 61 bits carry the small-integer tag. */
  predicate IsSmallInt(v: Value) {
    v.Int? && MIN_SMI <= v.n <= MAX_SMI
  }

  datatype Inst = Inst(op: Op, dst: U32, a: U32, b: U32, imm: U32,
                       constVal: Value, callee: string, args: seq<U32>)
  {
    predicate IsJump() { op.Jump? || op.JumpIf? || op.JumpIfFalse? }
    predicate IsReturn() { op.Return? || op.Ret? }
  }
}
