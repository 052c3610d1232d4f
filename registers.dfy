/**
 * The register encoder of the SD card model: the CRC7 trailer, the CID
 * (card identification) register and the CSD (card-specific data) register,
 * and the register values the card model is built with.
 */
module Registers {
  import opened Errors
  import opened Bytes
  import Crc7

  // ---------------------------------------------------------------- trailer

  /**
   * crc_and_last_bit: a single byte holding the CRC7 of the payload in its
   * upper seven bits and the stop bit, 1, in its lowest bit. `(crc << 1) | 1`
   * always fits the one byte `to_bytes` asks for, since the CRC is below 128.
   */
  function CrcAndLastBit(payload: seq<Byte>): (trailer: seq<Byte>)
    ensures |trailer| == 1
    ensures trailer[0] % 2 == 1 && trailer[0] / 2 == Crc7.Crc7(payload)
  {
    [Crc7.Crc7(payload) * 2 + 1]
  }

  /**
   * What a host checks on a received register: the last bit (the stop bit)
   * is 1, and the CRC7 run over every bit before it ends at zero.
   */
  predicate TrailerChecks(reg: seq<Byte>) {
    && reg != []
    && var bits := BytesToBits(reg);
    && bits[|bits| - 1]
    && Crc7.Feed(Crc7.Init, bits[..|bits| - 1]) == Crc7.Init
  }

  /** Whatever the payload, payload + trailer passes the host's check. */
  lemma TrailerAccepted(payload: seq<Byte>)
    ensures TrailerChecks(payload + CrcAndLastBit(payload))
  {
    var c := Crc7.Crc7(payload);
    var trailer := CrcAndLastBit(payload);
    var reg := payload + trailer;
    assert reg[..|reg| - 1] == payload;
    assert BitsOf(trailer[0], 8) == BitsOf(c, 7) + [true];
    var bits := BytesToBits(reg);
    assert bits == BytesToBits(payload) + BitsOf(c, 7) + [true];
    assert bits[..|bits| - 1] == BytesToBits(payload) + BitsOf(c, 7);
    Crc7.Residue(payload);
  }

  // ---------------------------------------------------------------- CID

  predicate IsAscii(s: string) {
    forall i :: 0 <= i < |s| ==> s[i] as int < 128
  }

  /** bytes(s, 'ascii'): one byte per character, UnicodeEncodeError outside 0 .. 127. */
  function Ascii(s: string): (r: Result<seq<Byte>>)
    ensures r.Ok? <==> IsAscii(s)
    ensures r.Ok? ==> |r.value| == |s| && forall i :: 0 <= i < |s| ==> r.value[i] == s[i] as int
  {
    if IsAscii(s) then Ok(seq(|s|, i requires 0 <= i < |s| && IsAscii(s) => s[i] as int))
    else Err(UnicodeEncodeError)
  }

  /** `(RSV << 3 | MDT).to_bytes(2, 'big')`: fits exactly when both operands fit 16 bits. */
  function DateField(rsv: nat, mdt: nat): (r: Result<seq<Byte>>)
    ensures r.Ok? <==> rsv < 0x2000 && mdt < 0x1_0000
    ensures r.Ok? ==> |r.value| == 2 && FromBigEndian(r.value) == BitOr(rsv * 8, mdt)
  {
    if rsv * 8 < 0x1_0000 && mdt < 0x1_0000 then
      assert Pow(2, 8) == 0x100 && Pow(2, 16) == 0x1_0000;
      BitOrBits(rsv * 8, mdt, 16);
      ToBytes(BitOr(rsv * 8, mdt), 2)
    else
      ToBytes(BitOr(rsv * 8, mdt), 2)
  }

  /**
   * compute_CID: MID (1 byte), OID (2), PNM (one byte per character), PRV (1),
   * PSN (4) and the date field `RSV << 3 | MDT` (2), all big-endian, then the
   * trailer over those bytes. `to_bytes` raises OverflowError for a value that
   * does not fit; Python's `|` of a negative operand is negative, which
   * `to_bytes` also refuses. The conversions run in argument order, so the
   * first failing one decides the exception.
   */
  function ComputeCid(mid: int, oid: int, pnm: string, prv: int, psn: int, rsv: int, mdt: int)
    : (r: Result<seq<Byte>>)
    ensures r.Ok? <==>
      && 0 <= mid < 0x100 && 0 <= oid < 0x1_0000 && IsAscii(pnm) && 0 <= prv < 0x100
      && 0 <= psn < 0x1_0000_0000 && 0 <= rsv < 0x2000 && 0 <= mdt < 0x1_0000
    ensures r == Err(UnicodeEncodeError) <==>
      0 <= mid < 0x100 && 0 <= oid < 0x1_0000 && !IsAscii(pnm)
    ensures r.Err? && r.error != UnicodeEncodeError ==> r.error == OverflowError
    ensures r.Ok? ==>
      var n, reg := |pnm|, r.value;
      && |reg| == 11 + n
      && reg[0] == mid
      && FromBigEndian(reg[1..3]) == oid
      && (forall i :: 0 <= i < n ==> reg[3 + i] == pnm[i] as int)
      && reg[3 + n] == prv
      && FromBigEndian(reg[4 + n..8 + n]) == psn
      && FromBigEndian(reg[8 + n..10 + n]) == BitOr(rsv * 8, mdt)
      && reg[10 + n..] == CrcAndLastBit(reg[..10 + n])
  {
    var midBytes :- ToBytes(mid, 1);
    var oidBytes :- ToBytes(oid, 2);
    var pnmBytes :- Ascii(pnm);
    var prvBytes :- ToBytes(prv, 1);
    var psnBytes :- ToBytes(psn, 4);
    var dateBytes :- if rsv < 0 || mdt < 0 then Err(OverflowError) else DateField(rsv, mdt);
    var partial := midBytes + oidBytes + pnmBytes + prvBytes + psnBytes + dateBytes;
    var n, reg := |pnm|, partial + CrcAndLastBit(partial);
    FieldSlices(midBytes, oidBytes, pnmBytes, prvBytes, psnBytes, dateBytes, CrcAndLastBit(partial));
    Ok(reg)
  }

  /** Where each field of the CID lies in the joined register. */
  lemma FieldSlices(m: seq<Byte>, o: seq<Byte>, p: seq<Byte>, v: seq<Byte>, s: seq<Byte>, d: seq<Byte>, t: seq<Byte>)
    requires |m| == 1 && |o| == 2 && |v| == 1 && |s| == 4 && |d| == 2
    ensures var reg, n := m + o + p + v + s + d + t, |p|;
      && reg[1..3] == o && reg[4 + n..8 + n] == s && reg[8 + n..10 + n] == d
  {
    var reg, n := m + o + p + v + s + d + t, |p|;
    assert reg[1..3] == o;
    assert reg[4 + n..8 + n] == s;
    assert reg[8 + n..10 + n] == d;
  }

  /**
   * With every field in range and a five-character ASCII product name the CID
   * register is the 16 bytes of the SD layout and its trailer passes the
   * host's check.
   */
  lemma CidRegister(mid: int, oid: int, pnm: string, prv: int, psn: int, rsv: int, mdt: int)
    requires 0 <= mid < 0x100 && 0 <= oid < 0x1_0000 && IsAscii(pnm) && |pnm| == 5
    requires 0 <= prv < 0x100 && 0 <= psn < 0x1_0000_0000 && 0 <= rsv < 0x2000 && 0 <= mdt < 0x1_0000
    ensures ComputeCid(mid, oid, pnm, prv, psn, rsv, mdt).Ok?
    ensures |ComputeCid(mid, oid, pnm, prv, psn, rsv, mdt).value| == 16
    ensures TrailerChecks(ComputeCid(mid, oid, pnm, prv, psn, rsv, mdt).value)
  {
    var reg := ComputeCid(mid, oid, pnm, prv, psn, rsv, mdt).value;
    assert reg == reg[..15] + CrcAndLastBit(reg[..15]);
    TrailerAccepted(reg[..15]);
  }

  /**
   * The date field is `RSV << 3 | MDT`, so RSV shares bits with MDT instead of
   * sitting above MDT's twelve bits: a reserved value of 1 vanishes into an
   * MDT whose bit 3 is already set, and the two registers are identical.
   */
  lemma DateFieldOverlap(mid: int, oid: int, pnm: string, prv: int, psn: int)
    ensures ComputeCid(mid, oid, pnm, prv, psn, 1, 8) == ComputeCid(mid, oid, pnm, prv, psn, 0, 8)
  {
    assert BitOr(8, 8) == 8 == BitOr(0, 8);
  }

  // ---------------------------------------------------------------- CSD

  /** The 29 arguments of compute_CSD, in argument order; each is a bit string, MSB first. */
  datatype CsdFields = CsdFields(
    csdStructure: seq<bool>,  // CSD_STRUCTURE, 2 bits
    rsv1: seq<bool>,  // RSV1, 6 bits
    taac: seq<bool>,  // TAAC, 8 bits
    nsac: seq<bool>,  // NSAC, 8 bits
    transSpeed: seq<bool>,  // TRANS_SPEED, 8 bits
    ccc: seq<bool>,  // CCC, 12 bits
    readBlLen: seq<bool>,  // READ_BL_LEN, 4 bits
    readBlPartial: seq<bool>,  // READ_BL_PARTIAL, 1 bit
    writeBlkMisalign: seq<bool>,  // WRITE_BLK_MISALIGN, 1 bit
    readBlkMisalign: seq<bool>,  // READ_BLK_MISALIGN, 1 bit
    dsrImp: seq<bool>,  // DSR_IMP, 1 bit
    rsv2: seq<bool>,  // RSV2, 6 bits
    cSize: seq<bool>,  // C_SIZE, 22 bits
    rsv3: seq<bool>,  // RSV3, 1 bit
    eraseBlkEn: seq<bool>,  // ERASE_BLK_EN, 1 bit
    sectorSize: seq<bool>,  // SECTOR_SIZE, 7 bits
    wpGrpSize: seq<bool>,  // WP_GRP_SIZE, 7 bits
    wpGrpEnable: seq<bool>,  // WP_GRP_ENABLE, 1 bit
    rsv4: seq<bool>,  // RSV4, 2 bits
    r2wFactor: seq<bool>,  // R2W_FACTOR, 3 bits
    writeBlLen: seq<bool>,  // WRITE_BL_LEN, 4 bits
    writeBlLen2: seq<bool>,  // WRITE_BL_LEN2, 1 bit
    rsv5: seq<bool>,  // RSV5, 5 bits
    fileFormatGrp: seq<bool>,  // FILE_FORMAT_GRP, 1 bit
    copy: seq<bool>,  // COPY, 1 bit
    permWriteProtect: seq<bool>,  // PERM_WRITE_PROTECT, 1 bit
    tmpWriteProtect: seq<bool>,  // TMP_WRITE_PROTECT, 1 bit
    fileFormat: seq<bool>,  // FILE_FORMAT, 2 bits
    rsv6: seq<bool>   // RSV6, 2 bits
  )

  /** The field widths of the CSD layout; they add up to 120 bits. */
  predicate WellFormed(f: CsdFields) {
    && |f.csdStructure| == 2
    && |f.rsv1| == 6
    && |f.taac| == 8
    && |f.nsac| == 8
    && |f.transSpeed| == 8
    && |f.ccc| == 12
    && |f.readBlLen| == 4
    && |f.readBlPartial| == 1
    && |f.writeBlkMisalign| == 1
    && |f.readBlkMisalign| == 1
    && |f.dsrImp| == 1
    && |f.rsv2| == 6
    && |f.cSize| == 22
    && |f.rsv3| == 1
    && |f.eraseBlkEn| == 1
    && |f.sectorSize| == 7
    && |f.wpGrpSize| == 7
    && |f.wpGrpEnable| == 1
    && |f.rsv4| == 2
    && |f.r2wFactor| == 3
    && |f.writeBlLen| == 4
    && |f.writeBlLen2| == 1
    && |f.rsv5| == 5
    && |f.fileFormatGrp| == 1
    && |f.copy| == 1
    && |f.permWriteProtect| == 1
    && |f.tmpWriteProtect| == 1
    && |f.fileFormat| == 2
    && |f.rsv6| == 2
  }

  /** The fields concatenated in argument order: the bitarray `bitCSD`. */
  function CsdBits(f: CsdFields): (bits: seq<bool>)
    ensures WellFormed(f) ==> |bits| == 120
  {
    f.csdStructure
      + f.rsv1
      + f.taac
      + f.nsac
      + f.transSpeed
      + f.ccc
      + f.readBlLen
      + f.readBlPartial
      + f.writeBlkMisalign
      + f.readBlkMisalign
      + f.dsrImp
      + f.rsv2
      + f.cSize
      + f.rsv3
      + f.eraseBlkEn
      + f.sectorSize
      + f.wpGrpSize
      + f.wpGrpEnable
      + f.rsv4
      + f.r2wFactor
      + f.writeBlLen
      + f.writeBlLen2
      + f.rsv5
      + f.fileFormatGrp
      + f.copy
      + f.permWriteProtect
      + f.tmpWriteProtect
      + f.fileFormat
      + f.rsv6
  }

  /** Reads the 29 fields back out of a CSD bit string at their fixed offsets. */
  function ParseCsd(bits: seq<bool>): (f: CsdFields)
    requires |bits| >= 120
    ensures WellFormed(f)
  {
    CsdFields(
      bits[0..2], bits[2..8], bits[8..16], bits[16..24], bits[24..32], bits[32..44],
      bits[44..48], bits[48..49], bits[49..50], bits[50..51], bits[51..52], bits[52..58],
      bits[58..80], bits[80..81], bits[81..82], bits[82..89], bits[89..96], bits[96..97],
      bits[97..99], bits[99..102], bits[102..106], bits[106..107], bits[107..112],
      bits[112..113], bits[113..114], bits[114..115], bits[115..116], bits[116..118],
      bits[118..120]
    )
  }

  /** If `bits` starts with `a + x`, the slice after `a` of the length of `x` is `x`. */
  lemma Peel(bits: seq<bool>, a: seq<bool>, x: seq<bool>)
    requires |a| + |x| <= |bits| && bits[..|a| + |x|] == a + x
    ensures bits[..|a|] == a && bits[|a|..|a| + |x|] == x
  {
    assert bits[..|a|] == bits[..|a| + |x|][..|a|];
    assert bits[|a|..|a| + |x|] == bits[..|a| + |x|][|a|..];
  }

  /** Reading the fields back from their concatenation gives them back: no gap, no overlap. */
  lemma ParseCsdBits(f: CsdFields)
    requires WellFormed(f)
    ensures ParseCsd(CsdBits(f)) == f
  {
    // prefix[k] is the concatenation of the first k + 1 fields
    var prefix0 := f.csdStructure;
    var prefix1 := prefix0 + f.rsv1;
    var prefix2 := prefix1 + f.taac;
    var prefix3 := prefix2 + f.nsac;
    var prefix4 := prefix3 + f.transSpeed;
    var prefix5 := prefix4 + f.ccc;
    var prefix6 := prefix5 + f.readBlLen;
    var prefix7 := prefix6 + f.readBlPartial;
    var prefix8 := prefix7 + f.writeBlkMisalign;
    var prefix9 := prefix8 + f.readBlkMisalign;
    var prefix10 := prefix9 + f.dsrImp;
    var prefix11 := prefix10 + f.rsv2;
    var prefix12 := prefix11 + f.cSize;
    var prefix13 := prefix12 + f.rsv3;
    var prefix14 := prefix13 + f.eraseBlkEn;
    var prefix15 := prefix14 + f.sectorSize;
    var prefix16 := prefix15 + f.wpGrpSize;
    var prefix17 := prefix16 + f.wpGrpEnable;
    var prefix18 := prefix17 + f.rsv4;
    var prefix19 := prefix18 + f.r2wFactor;
    var prefix20 := prefix19 + f.writeBlLen;
    var prefix21 := prefix20 + f.writeBlLen2;
    var prefix22 := prefix21 + f.rsv5;
    var prefix23 := prefix22 + f.fileFormatGrp;
    var prefix24 := prefix23 + f.copy;
    var prefix25 := prefix24 + f.permWriteProtect;
    var prefix26 := prefix25 + f.tmpWriteProtect;
    var prefix27 := prefix26 + f.fileFormat;
    var prefix28 := prefix27 + f.rsv6;
    var bits := CsdBits(f);
    assert bits[..|prefix28|] == prefix28;
    Peel(bits, prefix27, f.rsv6);
    Peel(bits, prefix26, f.fileFormat);
    Peel(bits, prefix25, f.tmpWriteProtect);
    Peel(bits, prefix24, f.permWriteProtect);
    Peel(bits, prefix23, f.copy);
    Peel(bits, prefix22, f.fileFormatGrp);
    Peel(bits, prefix21, f.rsv5);
    Peel(bits, prefix20, f.writeBlLen2);
    Peel(bits, prefix19, f.writeBlLen);
    Peel(bits, prefix18, f.r2wFactor);
    Peel(bits, prefix17, f.rsv4);
    Peel(bits, prefix16, f.wpGrpEnable);
    Peel(bits, prefix15, f.wpGrpSize);
    Peel(bits, prefix14, f.sectorSize);
    Peel(bits, prefix13, f.eraseBlkEn);
    Peel(bits, prefix12, f.rsv3);
    Peel(bits, prefix11, f.cSize);
    Peel(bits, prefix10, f.rsv2);
    Peel(bits, prefix9, f.dsrImp);
    Peel(bits, prefix8, f.readBlkMisalign);
    Peel(bits, prefix7, f.writeBlkMisalign);
    Peel(bits, prefix6, f.readBlPartial);
    Peel(bits, prefix5, f.readBlLen);
    Peel(bits, prefix4, f.ccc);
    Peel(bits, prefix3, f.transSpeed);
    Peel(bits, prefix2, f.nsac);
    Peel(bits, prefix1, f.taac);
    Peel(bits, prefix0, f.rsv1);
    assert bits[..|f.csdStructure|] == f.csdStructure;
  }

  /**
   * compute_CSD: the fields concatenated in argument order, packed into bytes
   * most significant bit first (bitarray pads the last byte with zero bits),
   * then the trailer over those bytes.
   */
  function ComputeCsd(f: CsdFields): (reg: seq<Byte>)
    ensures |reg| == (|CsdBits(f)| + 7) / 8 + 1
    ensures BytesToBits(reg[..|reg| - 1]) == CsdBits(f) + ZeroBits(PadLength(|CsdBits(f)|))
    ensures reg[|reg| - 1..] == CrcAndLastBit(reg[..|reg| - 1])
  {
    var payload := PackBits(CsdBits(f));
    var reg := payload + CrcAndLastBit(payload);
    assert reg[..|reg| - 1] == payload;
    reg
  }

  /**
   * With every field at its width the register is 16 bytes, its first 15
   * bytes decode to exactly the given fields, and its trailer passes the
   * host's check.
   */
  lemma CsdRoundTrip(f: CsdFields)
    requires WellFormed(f)
    ensures |ComputeCsd(f)| == 16
    ensures ParseCsd(BytesToBits(ComputeCsd(f)[..15])) == f
    ensures TrailerChecks(ComputeCsd(f))
  {
    var bits := CsdBits(f);
    assert PadLength(|bits|) == 0;
    assert bits + ZeroBits(0) == bits;
    ParseCsdBits(f);
    var payload := PackBits(bits);
    assert ComputeCsd(f) == payload + CrcAndLastBit(payload);
    assert ComputeCsd(f)[..15] == payload;
    TrailerAccepted(payload);
  }

  // ---------------------------------------------------------------- the card's registers

  /** bitarray('0101…'): one bit per character, '1' a set bit (only '0' and '1' occur here). */
  function BitString(s: string): (bits: seq<bool>)
    ensures |bits| == |s| && forall i :: 0 <= i < |s| ==> (bits[i] <==> s[i] == '1')
  {
    seq(|s|, i requires 0 <= i < |s| => s[i] == '1')
  }

  /** `bitarray().frombytes(v.to_bytes(n, 'big'))`: the n bytes of v as 8n bits. */
  function FromBytes(v: nat, n: nat): (bits: seq<bool>)
    requires v < Pow(256, n)
    ensures |bits| == 8 * n && ValueOf(bits) == v
  {
    var bs := BigEndian(v, n);
    ValueOfBytes(bs);
    BytesToBits(bs)
  }

  /**
   * `bits[-k:]`. For 0 < k <= |bits| it is the last k bits, which read as the
   * value modulo 2^k. Python reads `-0` as 0, so `bits[-0:]` is the whole
   * string, and a k beyond the length is clamped to the whole string too.
   */
  function Last(bits: seq<bool>, k: nat): (tail: seq<bool>)
    ensures |tail| <= |bits| && tail == bits[|bits| - |tail|..]
    ensures 0 < k <= |bits| ==> |tail| == k && ValueOf(tail) == ValueOf(bits) % Pow(2, k)
    ensures k == 0 || |bits| < k ==> tail == bits
  {
    if k == 0 || |bits| < k then bits
    else
      LowBits(bits, k);
      bits[|bits| - k..]
  }

  const MID: int := 0x41         // manufacturer ID
  const OID: int := 0x3432       // OEM ID
  const PNM: string := "SDCIT"   // product name
  const PRV: int := 0x30         // product revision
  const PSN: int := 0x12345678   // product serial number
  const RSV: int := 0x0          // reserved
  const MDT: int := 0x112        // manufacturing date

  /** The card's CID register, as the model class computes it once. */
  const CID: Result<seq<Byte>> := ComputeCid(MID, OID, PNM, PRV, PSN, RSV, MDT)

  // The card's CSD fields, each built the way the model class builds it.

  const CSD_STRUCTURE: seq<bool> := BitString("01")
  const RSV1: seq<bool> := BitString("000000")
  const TAAC: seq<bool> := FromBytes(0x0e, 1)
  const NSAC: seq<bool> := FromBytes(0x00, 1)
  const TRANS_SPEED: seq<bool> := FromBytes(0x5a, 1)
  const CCC: seq<bool> := Last(FromBytes(0x5b5, 2), 12)
  const READ_BL_LEN: seq<bool> := Last(FromBytes(0x9, 1), 4)
  const READ_BL_PARTIAL: seq<bool> := BitString("0")
  const WRITE_BLK_MISALIGN: seq<bool> := BitString("0")
  const READ_BLK_MISALIGN: seq<bool> := BitString("0")
  const DSR_IMP: seq<bool> := BitString("0")
  const RSV2: seq<bool> := BitString("000000")
  const C_SIZE: seq<bool> := Last(FromBytes(0x00127F, 3), 22)
  const RSV3: seq<bool> := BitString("0")
  const ERASE_BLK_EN: seq<bool> := BitString("1")
  const SECTOR_SIZE: seq<bool> := Last(FromBytes(0x7f, 1), 7)
  const WP_GRP_SIZE: seq<bool> := BitString("0000000")
  const WP_GRP_ENABLE: seq<bool> := BitString("0")
  const RSV4: seq<bool> := BitString("00")
  const R2W_FACTOR: seq<bool> := Last(FromBytes(0x02, 1), 3)
  const WRITE_BL_LEN: seq<bool> := Last(FromBytes(0x09, 1), 4)
  const WRITE_BL_LEN2: seq<bool> := BitString("0")
  const RSV5: seq<bool> := BitString("00000")
  const FILE_FORMAT_GRP: seq<bool> := BitString("0")
  const COPY: seq<bool> := BitString("0")
  const PERM_WRITE_PROTECT: seq<bool> := BitString("0")
  const TMP_WRITE_PROTECT: seq<bool> := BitString("0")
  const FILE_FORMAT: seq<bool> := BitString("00")
  const RSV6: seq<bool> := BitString("00")

  const DefaultCsd: CsdFields := CsdFields(
    CSD_STRUCTURE, RSV1, TAAC, NSAC, TRANS_SPEED, CCC, READ_BL_LEN, READ_BL_PARTIAL,
    WRITE_BLK_MISALIGN, READ_BLK_MISALIGN, DSR_IMP, RSV2, C_SIZE, RSV3, ERASE_BLK_EN,
    SECTOR_SIZE, WP_GRP_SIZE, WP_GRP_ENABLE, RSV4, R2W_FACTOR, WRITE_BL_LEN, WRITE_BL_LEN2,
    RSV5, FILE_FORMAT_GRP, COPY, PERM_WRITE_PROTECT, TMP_WRITE_PROTECT, FILE_FORMAT, RSV6)

  /** The card's numeric CSD fields read back as the values they were built from, cut to their widths. */
  lemma DefaultCsdValues()
    ensures ValueOf(TAAC) == 0x0e && ValueOf(NSAC) == 0x00 && ValueOf(TRANS_SPEED) == 0x5a
    ensures ValueOf(CCC) == 0x5b5 && ValueOf(READ_BL_LEN) == 0x9 && ValueOf(C_SIZE) == 0x127f
    ensures ValueOf(SECTOR_SIZE) == 0x7f && ValueOf(R2W_FACTOR) == 0x2 && ValueOf(WRITE_BL_LEN) == 0x9
  {
    SmallPowers();
    CccValue();
    ReadBlLenValue();
    CSizeValue();
    SectorSizeValue();
    R2wFactorValue();
    WriteBlLenValue();
  }

  lemma CccValue()
    ensures ValueOf(CCC) == 0x5b5
  {
    SmallPowers();
    TruncatedValue(0x5b5, 2, 12);
  }

  lemma ReadBlLenValue()
    ensures ValueOf(READ_BL_LEN) == 0x9
  {
    SmallPowers();
    TruncatedValue(0x9, 1, 4);
  }

  lemma CSizeValue()
    ensures ValueOf(C_SIZE) == 0x127f
  {
    SmallPowers();
    TruncatedValue(0x127f, 3, 22);
  }

  lemma SectorSizeValue()
    ensures ValueOf(SECTOR_SIZE) == 0x7f
  {
    SmallPowers();
    TruncatedValue(0x7f, 1, 7);
  }

  lemma R2wFactorValue()
    ensures ValueOf(R2W_FACTOR) == 0x2
  {
    SmallPowers();
    TruncatedValue(0x2, 1, 3);
  }

  lemma WriteBlLenValue()
    ensures ValueOf(WRITE_BL_LEN) == 0x9
  {
    SmallPowers();
    TruncatedValue(0x9, 1, 4);
  }

  /** The powers the card's field widths need. */
  lemma SmallPowers()
    ensures Pow(256, 1) == 0x100 && Pow(256, 2) == 0x1_0000 && Pow(256, 3) == 0x100_0000
    ensures Pow(2, 3) == 0x8 && Pow(2, 4) == 0x10 && Pow(2, 7) == 0x80
    ensures Pow(2, 12) == 0x1000 && Pow(2, 22) == 0x40_0000
  {
    assert Pow(2, 6) == 0x40;
    assert Pow(2, 12) == 0x1000;
    assert Pow(2, 18) == 0x4_0000;
  }

  /** `bits[-k:]` of `v.to_bytes(n)` read as a number is `v` modulo 2^k. */
  lemma TruncatedValue(v: nat, n: nat, k: nat)
    requires v < Pow(256, n) && 0 < k <= 8 * n
    ensures ValueOf(Last(FromBytes(v, n), k)) == v % Pow(2, k)
  {
  }

  /** The card's CSD register. */
  const CSD: seq<Byte> := ComputeCsd(DefaultCsd)

  /**
   * The card's CSD: every default field has its layout width (together 120
   * bits), the register is 16 bytes, decodes back to those fields and carries
   * a valid trailer.
   */
  lemma DefaultCsdRegister()
    ensures WellFormed(DefaultCsd) && TrailerChecks(CSD)
    ensures |CSD| == 16 && ParseCsd(BytesToBits(CSD[..15])) == DefaultCsd
  {
    CsdRoundTrip(DefaultCsd);
  }

  /** The 15 payload bytes of an in-range CID, as a concatenation of its encoded fields. */
  lemma CidPayload(mid: int, oid: int, pnm: string, prv: int, psn: int, rsv: int, mdt: int)
    requires 0 <= mid < 0x100 && 0 <= oid < 0x1_0000 && IsAscii(pnm) && |pnm| == 5
    requires 0 <= prv < 0x100 && 0 <= psn < 0x1_0000_0000 && 0 <= rsv < 0x2000 && 0 <= mdt < 0x1_0000
    ensures ComputeCid(mid, oid, pnm, prv, psn, rsv, mdt).Ok?
    ensures ComputeCid(mid, oid, pnm, prv, psn, rsv, mdt).value[..15] ==
      [mid] + BigEndian(oid, 2) + Ascii(pnm).value + [prv] + BigEndian(psn, 4)
        + BigEndian(BitOr(rsv * 8, mdt), 2)
  {
    var reg := ComputeCid(mid, oid, pnm, prv, psn, rsv, mdt).value;
    BigEndianOfValue(reg[1..3]);
    BigEndianOfValue(reg[9..13]);
    BigEndianOfValue(reg[13..15]);
    assert reg[3..8] == Ascii(pnm).value;
  }

  /** The card's CID is a 16-byte register with a valid trailer. */
  lemma DefaultCidRegister()
    ensures CID.Ok? && |CID.value| == 16 && TrailerChecks(CID.value)
  {
    CidRegister(MID, OID, PNM, PRV, PSN, RSV, MDT);
  }

  /** The default CID fields encoded one by one and joined. */
  lemma DefaultFieldBytes()
    ensures [MID] + BigEndian(OID, 2) + Ascii(PNM).value + [PRV] + BigEndian(PSN, 4)
        + BigEndian(BitOr(RSV * 8, MDT), 2)
      == [0x41, 0x34, 0x32, 0x53, 0x44, 0x43, 0x49, 0x54, 0x30, 0x12, 0x34, 0x56, 0x78, 0x01, 0x12]
  {
    DefaultFieldPieces();
  }

  /** Each default CID field on its own. */
  lemma DefaultFieldPieces()
    ensures BigEndian(OID, 2) == [0x34, 0x32]
    ensures Ascii(PNM).value == [0x53, 0x44, 0x43, 0x49, 0x54]
    ensures BigEndian(PSN, 4) == [0x12, 0x34, 0x56, 0x78]
    ensures BigEndian(BitOr(RSV * 8, MDT), 2) == [0x01, 0x12]
  {
    assert BigEndian(OID, 2) == [0x34, 0x32];
    assert Ascii(PNM).value == [0x53, 0x44, 0x43, 0x49, 0x54];
    assert BigEndian(PSN, 4) == [0x12, 0x34, 0x56, 0x78];
    assert BigEndian(BitOr(RSV * 8, MDT), 2) == [0x01, 0x12];
  }

  /** The card's CID payload: MID, OID, "SDCIT", PRV, PSN and the date field, in that order. */
  lemma DefaultCidPayload()
    ensures CID.Ok?
    ensures CID.value[..15] ==
      [0x41, 0x34, 0x32, 0x53, 0x44, 0x43, 0x49, 0x54, 0x30, 0x12, 0x34, 0x56, 0x78, 0x01, 0x12]
  {
    CidPayload(MID, OID, PNM, PRV, PSN, RSV, MDT);
    DefaultFieldBytes();
  }
}
