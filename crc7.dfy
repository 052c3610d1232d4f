/**
 * CRC-7 as used by SD/MMC framing (section 4.5 of the SD Physical Layer
 * Simplified Specification): generator x^7 + x^3 + 1 (0x09), register
 * initialised to zero, message bits fed most significant bit first, no
 * reflection and no final xor (the variant catalogued as CRC-7/MMC).
 */
module Crc7 {
  import opened Bytes

  /** The shift register, coefficient of x^6 first. */
  type Register = r: seq<bool> | |r| == 7 witness [false, false, false, false, false, false, false]

  const Init: Register := [false, false, false, false, false, false, false]

  /** Shifts one message bit into the register. */
  function Step(reg: Register, bit: bool): Register {
    var feedback := reg[0] != bit;
    var shifted := reg[1..] + [false];
    // x^3 sits at index 3 and x^0 at index 6 of the shifted register
    if feedback then shifted[3 := !shifted[3]][6 := true] else shifted
  }

  /** The register after feeding `bits` in order, starting from `reg`. */
  function Feed(reg: Register, bits: seq<bool>): Register {
    if bits == [] then reg else Step(Feed(reg, bits[..|bits| - 1]), bits[|bits| - 1])
  }

  /** libscrc.crc7 of a byte string: the final register read as a 7-bit number. */
  function Crc7(data: seq<Byte>): (c: nat)
    ensures c < 128
  {
    ValueOf(Feed(Init, BytesToBits(data)))
  }

  lemma {:induction false} FeedAppend(reg: Register, a: seq<bool>, b: seq<bool>)
    ensures Feed(reg, a + b) == Feed(Feed(reg, a), b)
  {
    if b == [] {
      assert a + b == a;
    } else {
      var init := b[..|b| - 1];
      FeedAppend(reg, a, init);
      assert (a + b)[..|a + b| - 1] == a + init;
      assert (a + b)[|a + b| - 1] == b[|b| - 1];
    }
  }

  /** Feeding the register its own leading bits shifts them out with no feedback. */
  lemma {:induction false} FeedOwnBits(reg: Register, j: nat)
    requires j <= 7
    ensures Feed(reg, reg[..j]) == reg[j..] + ZeroBits(j)
  {
    if j > 0 {
      FeedOwnBits(reg, j - 1);
      assert reg[..j][..j - 1] == reg[..j - 1];
      var before := reg[j - 1..] + ZeroBits(j - 1);
      assert before[0] == reg[j - 1];
      assert before[1..] + [false] == reg[j..] + ZeroBits(j);
    }
  }

  /**
   * What a receiver relies on: running the CRC over a message followed by
   * the message's own 7 CRC bits leaves the register at zero.
   */
  lemma Residue(data: seq<Byte>)
    ensures Feed(Init, BytesToBits(data) + BitsOf(Crc7(data), 7)) == Init
  {
    var reg := Feed(Init, BytesToBits(data));
    BitsOfValue(reg);
    FeedAppend(Init, BytesToBits(data), reg);
    FeedOwnBits(reg, 7);
    assert reg[..7] == reg;
  }
}
