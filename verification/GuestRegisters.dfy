/** The guest register file, by name and by the numbers that the native core uses. */
module GuestRegisters {
  import opened Canonical

  type Flags = n: nat | n < 0x1_0000_0000 && n % 0x1000_0000 == 0
  type U128 = n: nat | n < 0x1_0000_0000_0000_0000_0000_0000_0000_0000

  datatype Lanes = Lanes(low: U64, high: U64)

  datatype A64State = A64State(
    x: seq<U64>, sp: U64, pc: U64, tpidr: U64, tpidrro: U64, nzcv: Flags, fpcr: U32, fpsr: U32, vectors: seq<Lanes>)
  {
    predicate Valid() {
      |x| == 31 && |vectors| == 32
    }
  }

  datatype Register = General(index: nat) | StackPointer | Zero | Pc | Tpidr | TpidrRo | Nzcv | Fpcr | Fpsr {
    predicate Valid() {
      General? ==> index < 31
    }

    /** Values the register can hold. */
    predicate Holds(value: U64) {
      match this
      case Nzcv => value < U32_LIMIT && value % 0x1000_0000 == 0
      case Fpcr => value < U32_LIMIT
      case Fpsr => value < U32_LIMIT
      case _ => true
    }

    /** The number of the register on the native side. */
    function Number(): (n: nat)
      requires Valid() && !Zero?
      ensures n < 38
    {
      match this
      case General(index) => index
      case StackPointer => 31
      case Pc => 32
      case Tpidr => 33
      case TpidrRo => 34
      case Nzcv => 35
      case Fpcr => 36
      case Fpsr => 37
    }
  }

  function Get(s: A64State, r: Register): U64
    requires s.Valid() && r.Valid()
  {
    match r
    case General(index) => s.x[index]
    case StackPointer => s.sp
    case Zero => 0
    case Pc => s.pc
    case Tpidr => s.tpidr
    case TpidrRo => s.tpidrro
    case Nzcv => s.nzcv
    case Fpcr => s.fpcr
    case Fpsr => s.fpsr
  }

  function Set(s: A64State, r: Register, value: U64): (s': A64State)
    requires s.Valid() && r.Valid() && r.Holds(value)
    ensures s'.Valid()
  {
    match r
    case General(index) => s.(x := s.x[index := value])
    case StackPointer => s.(sp := value)
    case Zero => s
    case Pc => s.(pc := value)
    case Tpidr => s.(tpidr := value)
    case TpidrRo => s.(tpidrro := value)
    case Nzcv => s.(nzcv := value)
    case Fpcr => s.(fpcr := value)
    case Fpsr => s.(fpsr := value)
  }

  /** A write is seen by reads of the same register only, and the zero register never changes. */
  lemma GetSet(s: A64State, r: Register, value: U64, other: Register)
    requires s.Valid() && r.Valid() && r.Holds(value) && other.Valid()
    ensures Get(Set(s, r, value), other) == if other == r && !r.Zero? then value else Get(s, other)
  {
  }

  // ----- the native side -----

  /** Reads a register by number. */
  function NativeRead(s: A64State, number: nat): U64
    requires s.Valid() && number < 38
  {
    if number < 31 then s.x[number]
    else if number == 31 then s.sp
    else if number == 32 then s.pc
    else if number == 33 then s.tpidr
    else if number == 34 then s.tpidrro
    else if number == 35 then s.nzcv
    else if number == 36 then s.fpcr
    else s.fpsr
  }

  /** Writes a register by number; the last three keep the low 32 bits. */
  function NativeWrite(s: A64State, number: nat, value: U64): A64State
    requires s.Valid() && number < 38 && (number == 35 ==> (value % U32_LIMIT) % 0x1000_0000 == 0)
  {
    if number < 31 then s.(x := s.x[number := value])
    else if number == 31 then s.(sp := value)
    else if number == 32 then s.(pc := value)
    else if number == 33 then s.(tpidr := value)
    else if number == 34 then s.(tpidrro := value)
    else if number == 35 then s.(nzcv := value % U32_LIMIT)
    else if number == 36 then s.(fpcr := value % U32_LIMIT)
    else s.(fpsr := value % U32_LIMIT)
  }

  /** Numbers reach the same registers as names. */
  lemma NumbersAgree(s: A64State, r: Register, value: U64)
    requires s.Valid() && r.Valid() && !r.Zero? && r.Holds(value)
    ensures NativeRead(s, r.Number()) == Get(s, r)
    ensures NativeWrite(s, r.Number(), value) == Set(s, r, value)
  {
  }

  // ----- vectors -----

  const TWO_64: nat := 0x1_0000_0000_0000_0000

  function Wide(lanes: Lanes): U128 {
    lanes.low + TWO_64 * lanes.high
  }

  function Split(value: U128): Lanes {
    Lanes(value % TWO_64, value / TWO_64)
  }

  lemma SplitWide(lanes: Lanes, value: U128)
    ensures Split(Wide(lanes)) == lanes && Wide(Split(value)) == value
  {
  }
}
