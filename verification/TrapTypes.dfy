/**
  Trap causes and types, error codes and the records that carry them.
 */
module TrapTypes {
  import opened Wrappers

  datatype TrapType =
    | TimerInterrupt | ExternalInterrupt | SoftwareInterrupt | SystemCall
    | InstructionPageFault | LoadPageFault | StorePageFault
    | InstructionAccessFault | LoadAccessFault | StoreAccessFault
    | IllegalInstruction | Breakpoint | InstructionMisaligned | LoadMisaligned | StoreMisaligned | Unknown

  const TRAP_TYPES: nat := 16

  /** Declaration order, which is the order of the trap map. */
  function Index(t: TrapType): (i: nat)
    ensures i < TRAP_TYPES
  {
    match t
    case TimerInterrupt => 0
    case ExternalInterrupt => 1
    case SoftwareInterrupt => 2
    case SystemCall => 3
    case InstructionPageFault => 4
    case LoadPageFault => 5
    case StorePageFault => 6
    case InstructionAccessFault => 7
    case LoadAccessFault => 8
    case StoreAccessFault => 9
    case IllegalInstruction => 10
    case Breakpoint => 11
    case InstructionMisaligned => 12
    case LoadMisaligned => 13
    case StoreMisaligned => 14
    case Unknown => 15
  }

  /** `from_index` inverts the declaration order and rejects everything else. */
  function FromIndex(i: nat): (t: Option<TrapType>)
    ensures i < TRAP_TYPES ==> t.Some? && Index(t.value) == i
    ensures i >= TRAP_TYPES ==> t.None?
  {
    if i == 0 then Some(TimerInterrupt)
    else if i == 1 then Some(ExternalInterrupt)
    else if i == 2 then Some(SoftwareInterrupt)
    else if i == 3 then Some(SystemCall)
    else if i == 4 then Some(InstructionPageFault)
    else if i == 5 then Some(LoadPageFault)
    else if i == 6 then Some(StorePageFault)
    else if i == 7 then Some(InstructionAccessFault)
    else if i == 8 then Some(LoadAccessFault)
    else if i == 9 then Some(StoreAccessFault)
    else if i == 10 then Some(IllegalInstruction)
    else if i == 11 then Some(Breakpoint)
    else if i == 12 then Some(InstructionMisaligned)
    else if i == 13 then Some(LoadMisaligned)
    else if i == 14 then Some(StoreMisaligned)
    else if i == 15 then Some(Unknown)
    else None
  }

  // ---------------------------------------------------------------- scause

  const INTERRUPT_BIT: nat := 0x8000_0000_0000_0000

  /** A machine word. */
  type word = w: nat | w < 0x1_0000_0000_0000_0000

  /** The `scause` register: the top bit tells interrupts from exceptions. */
  type Cause = word

  type Registers = x: seq<word> | |x| == 32 witness seq(32, _ => 0)

  /** What the entry code saves and trap handlers read and edit: general registers and four CSRs. */
  datatype TrapContext = TrapContext(x: Registers, sstatus: word, sepc: word, scause: Cause, stval: word)

  predicate IsInterrupt(c: Cause) { c / INTERRUPT_BIT % 2 != 0 }

  function Code(c: Cause): nat { c % INTERRUPT_BIT }

  function ToTrapType(c: Cause): TrapType {
    var code := Code(c);
    if IsInterrupt(c) then
      if code == 1 then SoftwareInterrupt
      else if code == 5 then TimerInterrupt
      else if code == 9 then ExternalInterrupt
      else Unknown
    else if code == 0 then InstructionMisaligned
    else if code == 1 then InstructionAccessFault
    else if code == 2 then IllegalInstruction
    else if code == 3 then Breakpoint
    else if code == 4 then LoadMisaligned
    else if code == 5 then LoadAccessFault
    else if code == 6 then StoreMisaligned
    else if code == 7 then StoreAccessFault
    else if code == 8 || code == 9 then SystemCall
    else if code == 12 then InstructionPageFault
    else if code == 13 then LoadPageFault
    else if code == 15 then StorePageFault
    else Unknown
  }

  /** The numbered supervisor interrupts and exceptions, as `scause` values, by the trap type meant for them. */
  function CausesOf(t: TrapType): set<Cause> {
    match t
    case SoftwareInterrupt => {INTERRUPT_BIT + 1}
    case TimerInterrupt => {INTERRUPT_BIT + 5}
    case ExternalInterrupt => {INTERRUPT_BIT + 9}
    case InstructionMisaligned => {0}
    case InstructionAccessFault => {1}
    case IllegalInstruction => {2}
    case Breakpoint => {3}
    case LoadMisaligned => {4}
    case LoadAccessFault => {5}
    case StoreMisaligned => {6}
    case StoreAccessFault => {7}
    case SystemCall => {8, 9}
    case InstructionPageFault => {12}
    case LoadPageFault => {13}
    case StorePageFault => {15}
    case Unknown => {}
  }

  /** Every value of the register is classified by its numbered cause, and is unknown exactly when it has none. */
  lemma TypeIffCause(c: Cause, t: TrapType)
    ensures !t.Unknown? ==> (ToTrapType(c) == t <==> c in CausesOf(t))
    ensures ToTrapType(c) == Unknown <==> forall u :: c !in CausesOf(u)
  {
    CauseParts(c);
    if ToTrapType(c) != Unknown {
      assert c in CausesOf(ToTrapType(c));
    }
  }

  lemma CauseParts(c: Cause)
    ensures c == Code(c) + if IsInterrupt(c) then INTERRUPT_BIT else 0
  {
  }

  // ---------------------------------------------------------------- error codes

  datatype ErrorLevel = Fatal | Critical | Error | Warning | Info
  datatype ErrorSource =
    | UnknownSource | Generic | Trap | MemorySource | Process | FileSystem | Device | Network | Syscall

  function LevelBits(l: ErrorLevel): bv32 {
    match l
    case Fatal => 0
    case Critical => 1
    case Error => 2
    case Warning => 3
    case Info => 4
  }

  function SourceBits(s: ErrorSource): bv32 {
    match s
    case UnknownSource => 0
    case Generic => 1
    case Trap => 2
    case MemorySource => 3
    case Process => 4
    case FileSystem => 5
    case Device => 6
    case Network => 7
    case Syscall => 8
  }

  datatype ErrorCode = ErrorCode(bits: bv32) {

    function Source(): ErrorSource {
      var b := bits >> 24;
      if b == 1 then Generic
      else if b == 2 then Trap
      else if b == 3 then MemorySource
      else if b == 4 then Process
      else if b == 5 then FileSystem
      else if b == 6 then Device
      else if b == 7 then Network
      else if b == 8 then Syscall
      else UnknownSource
    }

    function Level(): ErrorLevel {
      var b := (bits >> 16) & 0xFF;
      if b == 0 then Fatal
      else if b == 1 then Critical
      else if b == 2 then Error
      else if b == 3 then Warning
      else if b == 4 then Info
      else Error
    }

    function Number(): bv16 { (bits & 0xFFFF) as bv16 }

    predicate IsFatal() { Level() == Fatal }
  }

  function NewCode(source: ErrorSource, level: ErrorLevel, number: bv16): ErrorCode {
    ErrorCode((SourceBits(source) << 24) | (LevelBits(level) << 16) | (number as bv32))
  }

  /** Packing loses nothing, and a code is fatal exactly when it was made so. */
  lemma PackUnpack(source: ErrorSource, level: ErrorLevel, number: bv16)
    ensures NewCode(source, level, number).Source() == source
    ensures NewCode(source, level, number).Level() == level
    ensures NewCode(source, level, number).Number() == number
    ensures NewCode(source, level, number).IsFatal() <==> level == Fatal
  {
    hide ErrorCode.Number;
    var s, l := SourceBits(source), LevelBits(level);
    TopByte(s, l, number as bv32);
    NextByte(s, l, number as bv32);
    NumberKept(source, level, number);
  }

  lemma TopByte(s: bv32, l: bv32, n: bv32)
    requires s <= 8 && l <= 4 && n <= 0xFFFF
    ensures ((s << 24) | (l << 16) | n) >> 24 == s
  {
  }

  lemma NextByte(s: bv32, l: bv32, n: bv32)
    requires s <= 8 && l <= 4 && n <= 0xFFFF
    ensures (((s << 24) | (l << 16) | n) >> 16) & 0xFF == l
  {
  }

  lemma LowWord(s: bv32, l: bv32, n: bv16)
    ensures (((s << 24) | (l << 16) | (n as bv32)) & 0xFFFF) as bv16 == n
  {
  }

  lemma NumberKept(source: ErrorSource, level: ErrorLevel, number: bv16)
    ensures NewCode(source, level, number).Number() == number
  {
    LowWord(SourceBits(source), LevelBits(level), number);
  }

  /** What is read from arbitrary bits: the named source and level, or the defaults for bytes that name none. */
  lemma UnpackAny(c: ErrorCode)
    ensures var b := c.bits >> 24; if 1 <= b <= 8 then SourceBits(c.Source()) == b else c.Source() == UnknownSource
    ensures var b := (c.bits >> 16) & 0xFF; if b <= 4 then LevelBits(c.Level()) == b else c.Level() == Error
  {
  }

  /** What is reported: code, faulting address, instruction pointer and time (the message text is not modelled). */
  datatype SystemError = SystemError(code: ErrorCode, address: Option<nat>, ip: nat, timestamp: nat)
  datatype ErrorResult = Handled | Partial | Unhandled
  datatype ErrorLogEntry = ErrorLogEntry(error: SystemError, result: ErrorResult)
}
