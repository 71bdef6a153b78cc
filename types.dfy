/** Machine-level vocabulary shared by the kernel monitor model: 32-bit words
    and their wrap-around arithmetic, page-table entry bits, C strings, and the
    abstract console events the commands emit. */
module Jos {

  datatype Option<T> = None | Some(value: T)

  /** 2^32: uintptr_t, size_t and physaddr_t are 32 bits wide on x86. */
  const WORD_MOD: int := 0x1_0000_0000

  /** An unsigned 32-bit word used as an integer (an address or a count). */
  type Word = x: int | 0 <= x < WORD_MOD

  /** 32-bit addition and subtraction with wrap-around, as unsigned C arithmetic does. */
  function AddWrap(a: Word, b: Word): (r: Word)
    ensures a + b < WORD_MOD ==> r == a + b
    ensures a + b >= WORD_MOD ==> r == a + b - WORD_MOD
  {
    (a + b) % WORD_MOD
  }

  function SubWrap(a: Word, b: Word): (r: Word)
    ensures b <= a ==> r == a - b
    ensures a < b ==> r == a - b + WORD_MOD
  {
    (a - b) % WORD_MOD
  }

  /** A word read as a two's-complement int32, as `%d` prints it. */
  function Signed(w: Word): (r: int)
    ensures -0x8000_0000 <= r < 0x8000_0000
    ensures r % WORD_MOD == w
  {
    if w < 0x8000_0000 then w else w - WORD_MOD
  }

  /** A page-table entry (pte_t) and the flag constants of the x86 MMU headers. */
  type Pte = bv32

  const PTE_P: Pte := 0x1
  const PTE_W: Pte := 0x2
  const PTE_U: Pte := 0x4

  /** PTE_ADDR: the physical-frame field of an entry (the low 12 bits cleared). */
  function PteAddr(pte: Pte): Pte
  {
    pte & !0xFFF
  }

  predicate Present(pte: Pte) { pte & PTE_P != 0 }

  const PGSIZE: int := 4096

  predicate PageAligned(va: Word) { va % PGSIZE == 0 }

  /** The page-aligned address of the page holding `va`. */
  function PageBase(va: Word): (r: Word)
    ensures PageAligned(r) && r <= va < r + PGSIZE
  {
    va - va % PGSIZE
  }

  /** A C string: the characters before its terminating NUL. */
  type CString = s: string | '\0' !in s

  /** What a debug-info lookup returns for an instruction address (struct Eipdebuginfo). */
  datatype EipDebugInfo = EipDebugInfo(
    file: string, line: int, fnName: CString, fnNameLen: nat, fnAddr: Word)

  /** One line of a backtrace. */
  datatype Frame = Frame(
    ebp: Word, eip: Word, args: seq<Word>,
    file: string, line: int, fnName: string, offset: int)

  /** How one page shows in a mapping listing. */
  datatype PageStatus = Unmapped | Mapped(paddr: Pte, perms: string)

  /** What the monitor prints, abstracted from the text of each message. */
  datatype Event =
    | HelpLine(name: string, desc: string)
    | KernSymbols(start: Word, entry: Word, etext: Word, edata: Word, end: Word)
    | KernInfoLine(footprintKB: int)
    | BacktraceHeader
    | FrameLine(frame: Frame)
    | Usage(command: string)
    | BadAddress(argIndex: nat)
    | Misaligned(addr: Word)
    | MappingsHeader(start: Word, end: Word)
    | PageRow(va: Word, status: PageStatus)
    | NotMapped(addr: Word)
    | PermsSet(addr: Word, perms: string)
    | TooManyArgs
    | UnknownCommand(name: string)

  /** A command's return status together with what it printed. */
  datatype Reply = Reply(status: int, events: seq<Event>)
}
