/** Masks and shifts on 16-bit words as division and remainder. */
module BitArithmetic {

  lemma BitNine(f: bv16)
    ensures (f & 0x0100) as int == f as int / 256 % 2 * 256
  {
    var high, bit, low := f >> 9, (f >> 8) & 1, f & 0xFF;
    assert f as int == high as int * 512 + bit as int * 256 + low as int;
    assert (f & 0x0100) as int == bit as int * 256;
    assert 0 <= low as int < 256 && 0 <= bit as int <= 1;
    Digits(f as int, high as int, bit as int, low as int);
  }

  lemma Digits(n: int, high: int, bit: int, low: int)
    requires n == high * 512 + bit * 256 + low && 0 <= low < 256 && 0 <= bit <= 1
    ensures n / 256 % 2 * 256 == bit * 256
  {
    assert n / 256 == high * 2 + bit;
  }

  lemma LowDigit(f: bv16)
    ensures (f & 0x000F) as int == f as int % 16
  {
    var high, low := f / 16, f % 16;
    assert f & 0x000F == low;
    TwoDigits(f);
    LastDigit(f as int, high as int, low as int);
  }

  lemma TwoDigits(f: bv16)
    ensures f as int == (f / 16) as int * 16 + (f % 16) as int
  {
  }

  lemma LastDigit(n: int, high: int, low: int)
    requires n == high * 16 + low && 0 <= low < 16
    ensures n % 16 == low
  {
  }
}

/** The arithmetic on bytes and 16-bit words in the other modules is the program's bit arithmetic. */
module Bits {
  import opened Bytes
  import opened Decoder
  import opened Parser
  import opened Builder
  import opened BitArithmetic

  /** The pointer mark and the 14-bit offset of a pointer. */
  lemma PointerBits(a: bv8, b: bv8)
    ensures (a & 0xC0 == 0xC0) <==> a as int >= POINTER_MARK
    ensures a as int >= POINTER_MARK ==>
              Target([a as int, b as int], 0) == (((a & 0x3F) as bv16 << 8) | (b as bv16)) as int
  {
    if a & 0xC0 == 0xC0 {
      assert (((a & 0x3F) as bv16 << 8) | (b as bv16)) as int == (a as int - 0xC0) * 256 + b as int;
    }
  }

  /** The flags that are tested or copied; n is the value of the word f. */
  lemma FlagBits(f: bv16, n: u16)
    requires n == f as int
    ensures (f & 0x8000 != 0) <==> n >= FLAG_QR
    ensures RecursionDesired(n) == (f & 0x0100) as int
    ensures Rcode(n) == (f & 0x000F) as int
  {
    BitNine(f);
    LowDigit(f);
  }

  /** The flags of an error response are QR, the query's RD and the code, one over the other. */
  lemma ErrorFlagBits(f: bv16, rcode: bv16, query: Header, code: byte)
    requires code == rcode as int && code <= REFUSED && query.flags == f as int
    ensures ErrorHeader(query, code).flags == (0x8000 | (f & 0x0100) | rcode) as int
  {
    BitNine(f);
    assert (0x8000 | (f & 0x0100) | rcode) as int == 0x8000 + (f & 0x0100) as int + rcode as int;
  }
}
