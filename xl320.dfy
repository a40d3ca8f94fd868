/** The control-table registers the driver knows for the XL-320 motor. Each
    register type declared for it answers a fixed address and a fixed width
    in bytes; the model lists them as one enumeration and maps each to that
    pair. */
module XL320 {

  import Motors

  /** The six supported registers. */
  datatype XL320Register =
    | ID
    | TorqueEnable
    | PresentPosition
    | GoalPosition
    | MovingSpeed
    | TorqueLimit

  /** The address and width the register type answers. Every supported
      register is one or two bytes wide and lies in the first 256 bytes of
      the control table, so its address fits the low byte alone. */
  function RegisterOf(r: XL320Register): (reg: Motors.Register)
    ensures reg.length == 1 || reg.length == 2
    ensures reg.address + reg.length <= 0x100
    ensures Motors.Unpack(reg.address).1 == 0
  {
    match r
    case ID => Motors.Register(0x03, 1)
    case TorqueEnable => Motors.Register(0x18, 1)
    case PresentPosition => Motors.Register(0x25, 2)
    case GoalPosition => Motors.Register(0x1E, 2)
    case MovingSpeed => Motors.Register(0x20, 2)
    case TorqueLimit => Motors.Register(0x23, 2)
  }

  /** The bytes `[address, address + length)` a register occupies. */
  predicate Occupies(r: XL320Register, a: nat)
  {
    RegisterOf(r).address <= a < RegisterOf(r).address + RegisterOf(r).length
  }

  /** The one-byte registers are the id and the torque switch; the
      position, speed and torque-limit registers are two-byte words. */
  lemma RegisterWidths(r: XL320Register)
    ensures RegisterOf(r).length == 1 <==> r == ID || r == TorqueEnable
    ensures RegisterOf(r).length == 2 <==> r != ID && r != TorqueEnable
  {
  }

  /** No two registers share a byte of the control table, so writing one
      never changes another. */
  lemma RegistersDisjoint(r: XL320Register, s: XL320Register, a: nat)
    requires r != s
    ensures !(Occupies(r, a) && Occupies(s, a))
  {
  }

  /** Distinct registers have distinct addresses: a register is known by
      its address. */
  lemma RegisterAddressesDistinct(r: XL320Register, s: XL320Register)
    requires RegisterOf(r).address == RegisterOf(s).address
    ensures r == s
  {
  }
}
