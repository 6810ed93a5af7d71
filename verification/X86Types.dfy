/** Registers, operand widths and 32-bit words shared by the modules of the model. */
module X86Types {
  datatype Width = W8 | W16 | W32

  datatype Reg = EAX | ECX | EDX | EBX | ESP | EBP | ESI | EDI

  datatype Option<+T> = None | Some(value: T)

  /** An unsigned 32-bit value. */
  type Word = x: int | 0 <= x < 0x1_0000_0000

  function Modulus(width: Width): nat {
    match width
    case W8 => 0x100
    case W16 => 0x1_0000
    case W32 => 0x1_0000_0000
  }

  function WidthMask(width: Width): Word {
    Modulus(width) - 1
  }

  function SignMask(width: Width): Word {
    Modulus(width) / 2
  }

  /** Wrap an integer to 32 bits. */
  function U32(x: int): Word {
    x % 0x1_0000_0000
  }
}
