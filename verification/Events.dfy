/** Trace entries: a 64-bit address word whose top three bits are flags, and a cycle count.

Bit operations on the address word are written as arithmetic on its value: testing bit `b` is the
parity of `w / 2^b`, masking the flags away is `w % 2^61`. */
module Events {
  const TWO_64: int := 0x1_0000_0000_0000_0000

  type u64 = w: int | 0 <= w < TWO_64

  const BIT_63: u64 := 0x8000_0000_0000_0000
  const BIT_62: u64 := 0x4000_0000_0000_0000
  const BIT_61: u64 := 0x2000_0000_0000_0000

  /** FUNTRACE_RETURN_BIT: the returning function logged its own address. */
  const RETURN_FLAG: u64 := BIT_63
  /** FUNTRACE_RETURN_WITH_CALLER_ADDRESS_BIT: the return logged the caller's address (XRay). */
  const CALLER_RETURN_FLAG: u64 := BIT_62
  const CATCH_FLAGS: u64 := BIT_63 + BIT_62
  const THROW_FLAG: u64 := BIT_61

  /** The flags are the top three bits of a word. */
  lemma TopBits()
    ensures 2 * BIT_63 == TWO_64 && 2 * BIT_62 == BIT_63 && 2 * BIT_61 == BIT_62
    ensures TWO_64 == 0x1_0000_0000 * 0x1_0000_0000
    ensures RETURN_FLAG == BIT_63 && CALLER_RETURN_FLAG == BIT_62 && THROW_FLAG == BIT_61
  {
  }

  datatype Entry = Entry(address: u64, cycle: u64)

  datatype Kind = Call | OwnReturn | CallerReturn | Catch

  predicate ReturnBit(w: u64) { w / BIT_63 % 2 == 1 }

  predicate CallerBit(w: u64) { w / BIT_62 % 2 == 1 }

  /** The function would have logged a return had it been unwound by a throw. */
  predicate ReturnsUponThrow(w: u64) { w / BIT_61 % 2 == 1 }

  /** The decoder's classification, in its order of tests. */
  function KindOf(w: u64): Kind {
    var isCatch := ReturnBit(w) && CallerBit(w);
    var retWithCaller := CallerBit(w) && !isCatch;
    var ret := (ReturnBit(w) || retWithCaller) && !isCatch;
    if isCatch then Catch
    else if !ret then Call
    else if retWithCaller then CallerReturn
    else OwnReturn
  }

  function CodeAddress(w: u64): u64 { w % BIT_61 }

  /** What the runtime stores for `ptr | flags`, the flags being one of the four combinations it uses. */
  function Word(ptr: u64, kind: Kind, returnsUponThrow: bool): (w: u64)
    requires ptr < BIT_61
  {
    match kind
    case Call => if returnsUponThrow then ptr + THROW_FLAG else ptr
    case OwnReturn => ptr + RETURN_FLAG
    case CallerReturn => ptr + CALLER_RETURN_FLAG
    case Catch => ptr + CATCH_FLAGS
  }

  /** Reader and writer agree on the flag bits, so a logged word decodes to the event that was logged. */
  lemma WordRoundTrip(ptr: u64, kind: Kind, returnsUponThrow: bool)
    requires ptr < BIT_61
    ensures var w := Word(ptr, kind, returnsUponThrow);
            && KindOf(w) == kind
            && CodeAddress(w) == ptr
            && (ReturnsUponThrow(w) <==> kind == Call && returnsUponThrow)
  {
    assert BIT_62 == 2 * BIT_61 && BIT_63 == 4 * BIT_61;
    var w := Word(ptr, kind, returnsUponThrow);
    var q := match kind
      case Call => if returnsUponThrow then 1 else 0
      case OwnReturn => 4
      case CallerReturn => 2
      case Catch => 6;
    assert w == q * BIT_61 + ptr;
  }

  /** The part of the symbol information the decoder looks at: the demangled name it compares, and the
  address that tells apart two symbols of the same name (clones of one function). */
  datatype Sym = Sym(func: string, staticAddr: u64)

  const UNKNOWN_SYM: Sym := Sym("??", 0)

  /** What symbol lookup answers for each code address: the ELF and DWARF machinery, taken as a table. */
  type SymTab = map<u64, Sym>

  function SymAt(tab: SymTab, addr: u64): Sym { if addr in tab then tab[addr] else UNKNOWN_SYM }

  function SymOf(tab: SymTab, e: Entry): Sym { SymAt(tab, CodeAddress(e.address)) }

  function NameOf(tab: SymTab, e: Entry): string { SymOf(tab, e).func }

  /** Events come in the order of their cycles. */
  ghost predicate Sorted(events: seq<Entry>) {
    forall i, j :: 0 <= i < j < |events| ==> events[i].cycle <= events[j].cycle
  }
}
