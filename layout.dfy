/** Layout of the MC9S12XE D-Flash region used for EEPROM emulation, and the
    value types shared by the classifier, the end-block locator and the replayer. */
module Layout {

  const NB_BLOCKS := 128      // number of flash erase blocks
  const BLOCKSIZE := 256      // bytes in one flash block
  const HEADERSIZE := 4       // bytes in a block header
  const CMDSIZE := 4          // bytes in one EEPROM update command
  const CMDS_PER_BLOCK := 63  // (BLOCKSIZE - HEADERSIZE) / CMDSIZE

  const EESIZE := 2048        // 16-bit words in the simulated EEPROM

  const BLOCK_VALID := 0xFACF
  const BLOCK_EMPTY := 0xFFFF
  const BLOCK_EMPTY_CLEARED := 0xFFFF
  const CMD_VALID := 0xB800
  const CMD_EMPTY := 0xF800
  const ERASED_WORD := 0xFFFF

  type byte = b: int | 0 <= b < 0x100
  type word = w: int | 0 <= w < 0x1_0000
  type EeAddress = a: int | 0 <= a < EESIZE

  /** The classification of one flash block. */
  datatype Kind = Empty | New | Valid | Last | Invalid

  /** One recorded EEPROM update: word `addr` takes `value`. */
  datatype Command = Command(addr: EeAddress, value: word)

  datatype Option<T> = None | Some(value: T)

  /** The two exceptions the converter raises. */
  datatype Error = TooShort | AllBlocksNew

  datatype Result<T> = Ok(value: T) | Err(error: Error)

  /** Big-endian 16-bit word from two bytes, as `struct.unpack(">H", ...)`. */
  function Word(hi: byte, lo: byte): (w: word)
  {
    hi * 0x100 + lo
  }

  /** The high byte of a word, `w >> 8`. */
  function HighByte(w: word): byte
  {
    w / 0x100
  }

  /** The low byte of a word, `w & 0xFF`. */
  function LowByte(w: word): byte
  {
    w % 0x100
  }

  /** Packing a word into its two bytes and unpacking them again gives back
      the word, and the other way round. */
  lemma WordBytesRoundTrip(w: word, hi: byte, lo: byte)
    ensures Word(HighByte(w), LowByte(w)) == w
    ensures HighByte(Word(hi, lo)) == hi && LowByte(Word(hi, lo)) == lo
  {
  }

  /** The 5-bit command tag of a slot's first field, `field & 0xF800`. */
  function Tag(field: word): word
  {
    field - field % 0x800
  }

  /** The 11-bit address of a slot's first field, `field & ~0xF800`. */
  function AddressBits(field: word): EeAddress
  {
    field % 0x800
  }

  /** A 16-bit field is its top five bits times 0x800 plus its low eleven
      bits, and the masks `& 0xF800` and `& ~0xF800` select exactly those parts. */
  lemma MaskParts(f: bv16)
    ensures f == (f / 0x800) * 0x800 + f % 0x800
    ensures f / 0x800 < 0x20 && f % 0x800 < 0x800
    ensures f & 0xF800 == (f / 0x800) * 0x800 && f & !0xF800 == f % 0x800
  {
  }

  /** The same split of a 16-bit field, read as integers. */
  lemma MaskPartsInt(q: bv16, r: bv16)
    requires q < 0x20 && r < 0x800
    ensures (q * 0x800 + r) as int == (q as int) * 0x800 + r as int
    ensures (q * 0x800) as int == (q as int) * 0x800
    ensures r as int < 0x800
  {
  }

  /** Integer division by 0x800 undoes a split into a multiple of 0x800 and a
      smaller remainder. */
  lemma SplitMod(x: int, a: int, b: int)
    requires 0 <= a && 0 <= b < 0x800 && x == a * 0x800 + b
    ensures x % 0x800 == b && x - x % 0x800 == a * 0x800
  {
  }

  /** `Tag` and `AddressBits` are the masks `field & 0xF800` and
      `field & ~0xF800` of a 16-bit slot field. */
  lemma TagIsMask(f: bv16)
    ensures (f & 0xF800) as int == Tag(f as int)
    ensures (f & !0xF800) as int == AddressBits(f as int)
  {
    var q, r := f / 0x800, f % 0x800;
    MaskParts(f);
    MaskPartsInt(q, r);
    SplitMod(f as int, q as int, r as int);
  }

  /** A block that is erased or only header-stamped: no commands yet. */
  predicate Free(k: Kind)
  {
    k == Empty || k == New
  }
}
