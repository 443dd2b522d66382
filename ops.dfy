/**
 * The instruction set. In the source a compiled instruction is a pair of a
 * handler function pointer and an `int iextra`; here the closed set of
 * handlers is a datatype whose constructors carry `iextra` only where the
 * handler reads it.
 */
module Opcodes {
  import opened Int32Arith

  datatype Op =
    | Push(value: int32)     // handler `add`: push `iextra`
    | Plus                   // `+`
    | Minus                  // `-`
    | Mult                   // `*`
    | Div                    // `/`, handler `dev`
    | Mod                    // `%`
    | Neg                    // `#`
    | Read                   // `r`
    | Write                  // `w`
    | EndStr                 // `n`
    | Del                    // `;`
    | ToTop(depth: int32)    // `dN`, handler `totop`
    | Swap(depth: int32)     // `sN`
    | Halt                   // the terminator, whose handler is NULL
}
