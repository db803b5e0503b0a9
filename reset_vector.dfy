/**
 * The Quard Star reset vector: ten 32-bit words placed little-endian at the
 * mask-ROM base. Six instructions read the hart id into a0, load the
 * device-tree address into a1 and the entry address into t0, and jump there;
 * four data words hold the entry address (low, high), the device-tree
 * address and a zero pad. The label fw_dyn, whose address goes into a2,
 * lies just past the blob.
 */
module ResetVector {
  import opened Wrappers
  import opened RiscV
  import opened LittleEndian

  const RESET_VEC_WORDS: nat := 10
  /** Byte offset of the `start` label: the entry address, word 6. */
  const START_OFFSET: bv32 := 24
  /** Byte offset of the `fdt_laddr` label: the device-tree address, word 8. */
  const FDT_OFFSET: bv32 := 32
  /** Byte offset of the `fw_dyn` label, one past the last word. */
  const FW_DYN_OFFSET: bv32 := 40

  /** The six instructions of the stub; the loads are LW on 32-bit harts and LD otherwise. */
  function Program(is32: bool): seq<Instr>
  {
    var width := if is32 then Word else Double;
    [ Auipc(T0, 0),
      Addi(A2, T0, FW_DYN_OFFSET),
      Csrrs(A0, CSR_MHARTID, X0),
      Load(width, A1, T0, FDT_OFFSET),
      Load(width, T0, T0, START_OFFSET),
      Jalr(X0, T0, 0) ]
  }

  /** The upper half of the entry address, left zero for 32-bit harts. */
  function StartHi32(is32: bool, startAddr: bv64): bv32
  {
    if is32 then 0 else (startAddr >> 32) as bv32
  }

  /** The ten words, before serialisation; hart width, entry address and FDT address are the only inputs. */
  function ResetVec(is32: bool, startAddr: bv64, fdtLoadAddr: bv32): (r: seq<bv32>)
    ensures |r| == RESET_VEC_WORDS
  {
    [ 0x00000297,
      0x02828613,
      0xf1402573,
      if is32 then 0x0202a583 else 0x0202b583,
      if is32 then 0x0182a283 else 0x0182b283,
      0x00028067,
      (startAddr & 0xFFFF_FFFF) as bv32,
      StartHi32(is32, startAddr),
      fdtLoadAddr,
      0x00000000 ]
  }

  /** The serialised ROM image. */
  function ResetVecBlob(is32: bool, startAddr: bv64, fdtLoadAddr: bv32): (blob: seq<bv8>)
    ensures |blob| == 4 * RESET_VEC_WORDS
  {
    LeBytes(ResetVec(is32, startAddr, fdtLoadAddr))
  }

  /**
   * Words 0, 1, 2, 5 and 9 are the same whatever the inputs, words 3 and 4
   * depend on the hart width alone, and word 8 is the device-tree address.
   */
  lemma ResetVecInputDependence(is32: bool, startAddr: bv64, fdtLoadAddr: bv32,
                                otherIs32: bool, otherStart: bv64, otherFdt: bv32)
    ensures var r, q := ResetVec(is32, startAddr, fdtLoadAddr), ResetVec(otherIs32, otherStart, otherFdt);
      r[0] == q[0] && r[1] == q[1] && r[2] == q[2] && r[5] == q[5] && r[9] == q[9] == 0 &&
      (is32 == otherIs32 ==> r[3] == q[3] && r[4] == q[4]) &&
      r[8] == fdtLoadAddr
  {
  }

  /**
   * The first six words are exactly the encodings of the stub's six
   * instructions, and each of them decodes back to that instruction.
   */
  lemma ResetVecEncodesProgram(is32: bool, startAddr: bv64, fdtLoadAddr: bv32, k: nat)
    requires k < |Program(is32)|
    ensures WellFormed(Program(is32)[k])
    ensures ResetVec(is32, startAddr, fdtLoadAddr)[k] == Encode(Program(is32)[k])
    ensures Decode(ResetVec(is32, startAddr, fdtLoadAddr)[k]) == Some(Program(is32)[k])
  {
    DecodeEncode(Program(is32)[k]);
  }

  /**
   * What the decoded words do, read back from the ROM words themselves:
   * t0 gets the stub's own address; a2 gets t0 + 40, just past the ten
   * words (the `fw_dyn` label); a1 is loaded from t0 + 32, word 8, which
   * holds the device-tree address; t0 is reloaded from t0 + 24, word 6,
   * which holds the entry address (see `EntryWordsRejoin`); the last instruction jumps to t0 and
   * writes no link register. The loads are as wide as the hart.
   */
  lemma StubAddressesDataWords(is32: bool, startAddr: bv64, fdtLoadAddr: bv32)
    ensures var r := ResetVec(is32, startAddr, fdtLoadAddr);
      var width := if is32 then Word else Double;
      Decode(r[0]) == Some(Auipc(T0, 0)) &&
      Decode(r[1]) == Some(Addi(A2, T0, (4 * |r|) as bv32)) &&
      Decode(r[2]) == Some(Csrrs(A0, CSR_MHARTID, X0)) &&
      Decode(r[3]) == Some(Load(width, A1, T0, 4 * 8)) && r[8] == fdtLoadAddr &&
      Decode(r[4]) == Some(Load(width, T0, T0, 4 * 6)) &&
      Decode(r[5]) == Some(Jalr(X0, T0, 0))
  {
    var r := ResetVec(is32, startAddr, fdtLoadAddr);
    var p := Program(is32);
    forall k | 0 <= k < 6
      ensures Decode(r[k]) == Some(p[k])
    {
      ResetVecEncodesProgram(is32, startAddr, fdtLoadAddr, k);
    }
  }

  /**
   * The two width variants of words 3 and 4 differ in the funct3 field only:
   * 010 (LW) for 32-bit harts, 011 (LD) otherwise.
   */
  lemma LoadWidthOnlyInFunct3(startAddr: bv64, fdtLoadAddr: bv32, k: nat)
    requires k == 3 || k == 4
    ensures var w32, w64 := ResetVec(true, startAddr, fdtLoadAddr)[k], ResetVec(false, startAddr, fdtLoadAddr)[k];
      Funct3(w32) == FUNCT3_LW && Funct3(w64) == FUNCT3_LD && w32 & !(0x7 << 12) == w64 & !(0x7 << 12)
  {
  }

  /**
   * Word 6 is the entry address modulo 2^32 on either width; on 64-bit harts
   * words 6 and 7 rejoin to the full entry address.
   */
  lemma EntryWordsRejoin(is32: bool, startAddr: bv64, fdtLoadAddr: bv32)
    ensures ResetVec(is32, startAddr, fdtLoadAddr)[6] as bv64 == startAddr & 0xFFFF_FFFF
    ensures var r := ResetVec(false, startAddr, fdtLoadAddr);
      (r[6] as bv64) | ((r[7] as bv64) << 32) == startAddr
  {
  }

  /** On 32-bit harts only the low half of the entry address reaches the ROM. */
  lemma Rv32KeepsLowHalf(startAddr: bv64, otherStart: bv64, fdtLoadAddr: bv32)
    requires startAddr & 0xFFFF_FFFF == otherStart & 0xFFFF_FFFF
    ensures ResetVec(true, startAddr, fdtLoadAddr) == ResetVec(true, otherStart, fdtLoadAddr)
    ensures ResetVec(true, startAddr, fdtLoadAddr)[7] == 0
  {
  }

  /** Reading the ROM image back word by word returns the ten words. */
  lemma BlobDecodes(is32: bool, startAddr: bv64, fdtLoadAddr: bv32)
    ensures Words(ResetVecBlob(is32, startAddr, fdtLoadAddr)) == ResetVec(is32, startAddr, fdtLoadAddr)
  {
    WordsOfLeBytes(ResetVec(is32, startAddr, fdtLoadAddr));
  }

  /**
   * Builds the reset vector in a local ten-word array, patches words 3 and 4
   * for the hart width, then serialises it little-endian into the ROM buffer
   * that is placed at `romBase`. `romSize` and `kernelEntry` are accepted and
   * ignored, as in the board code.
   */
  method SetupRomResetVec(is32: bool, startAddr: bv64, romBase: bv64, romSize: bv64,
                          kernelEntry: bv64, fdtLoadAddr: bv32)
    returns (blob: seq<bv8>, blobBase: bv64)
    ensures blob == ResetVecBlob(is32, startAddr, fdtLoadAddr)
    ensures blobBase == romBase
  {
    var startAddrHi32: bv32 := 0x00000000;
    if !is32 {
      startAddrHi32 := (startAddr >> 32) as bv32;
    }
    var resetVec := new bv32[10];
    resetVec[0] := 0x00000297;  // auipc t0, %pcrel_hi(fw_dyn)
    resetVec[1] := 0x02828613;  // addi  a2, t0, %pcrel_lo(1b)
    resetVec[2] := 0xf1402573;  // csrr  a0, mhartid
    resetVec[3] := 0;
    resetVec[4] := 0;
    resetVec[5] := 0x00028067;  // jr    t0
    resetVec[6] := (startAddr & 0xFFFF_FFFF) as bv32;
    resetVec[7] := startAddrHi32;
    resetVec[8] := fdtLoadAddr;
    resetVec[9] := 0x00000000;
    if is32 {
      resetVec[3] := 0x0202a583;  // lw a1, 32(t0)
      resetVec[4] := 0x0182a283;  // lw t0, 24(t0)
    } else {
      resetVec[3] := 0x0202b583;  // ld a1, 32(t0)
      resetVec[4] := 0x0182b283;  // ld t0, 24(t0)
    }
    ghost var expected := ResetVec(is32, startAddr, fdtLoadAddr);
    ghost var written := [resetVec[0], resetVec[1], resetVec[2], resetVec[3], resetVec[4],
                          resetVec[5], resetVec[6], resetVec[7], resetVec[8], resetVec[9]];
    assert resetVec[..] == written;
    assert written == expected;
    blob := CopyLittleEndian(resetVec);
    blobBase := romBase;
  }

  /**
   * The copy loop of the reset-vector builder: each word is stored in
   * little-endian byte order, giving the byte image the ROM loader receives.
   */
  method CopyLittleEndian(words: array<bv32>) returns (blob: seq<bv8>)
    ensures blob == LeBytes(words[..])
  {
    var rom := new bv8[4 * words.Length];
    for i := 0 to words.Length
      modifies rom
      invariant rom[..4 * i] == LeBytes(words[..i])
    {
      var le := Le32(words[i]);  // cpu_to_le32
      var at := 4 * i;
      ghost var done := rom[..at];
      rom[at], rom[at + 1], rom[at + 2], rom[at + 3] := le[0], le[1], le[2], le[3];
      assert rom[..at + 4] == done + le;
      assert words[..i + 1] == words[..i] + [words[i]];
      LeBytesAppend(words[..i], words[i]);
    }
    assert words[..words.Length] == words[..];
    blob := rom[..];
  }
}
