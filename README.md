# Quard Star board: reset vector, memory map and socket set-up

This project models the core of the QEMU board file for the Quard Star
RISC-V machine (`hw/riscv/quard_star.c`) and proves properties of the model
in Dafny. The model covers three parts of that file.

- **Reset vector** (`quard_star_setup_rom_reset_vec`). The board writes ten
  32-bit words into the mask ROM (MROM) and registers them with the ROM
  loader at the MROM base.
  - Words 0-5 are a six-instruction stub:
    - `auipc t0` puts the stub's own address in t0.
    - `addi a2, t0, 40` puts the `fw_dyn` label in a2.
    - `csrr a0, mhartid` puts the hart id in a0.
    - Two loads (`lw` on 32-bit harts, `ld` otherwise) fetch the device-tree address into a1 and the entry address into t0.
    - `jr t0` jumps to the entry address.
  - Words 6-9 are data: the entry address (low word, then high word), the device-tree address and a zero pad.
  - The words are serialised little-endian into a 40-byte blob.
  - The module `ResetVector` gives this both as a pure specification (`ResetVec`, `ResetVecBlob`) and as the board's imperative code. `SetupRomResetVec` fills a ten-word array and patches words 3 and 4 for the hart width. `CopyLittleEndian` is the loop that turns the array into bytes.
  - The module `RiscV` encodes and decodes the instruction formats the stub uses.
  - The module `LittleEndian` holds the byte layout and its inverse.
- **Memory map** (`virt_memmap`). The table has four regions: MROM, SRAM, UART0 and DRAM. DRAM's table size of zero is replaced by the machine's RAM size when it is mapped. This is the module `MemoryMap`.
- **Machine initialisation** (`quard_star_machine_init`). This is the module `QuardStar`.
  - The socket count is checked against the number of socket slots.
  - Each socket is checked in turn: hart-id contiguity, then a first hart id, then a hart count. Each socket that passes is configured immediately as a hart array (CPU type, `hartid-base`, `num-harts`).
  - The first failure stops initialisation.
  - On success the board maps DRAM, SRAM and MROM. It then installs the reset vector at the MROM base, with entry address 0 and device-tree address 0.
  - The machine is the class `QuardStarMachine`:
    - `soc` is its array of socket slots.
    - `mappings` lists the address ranges it has mapped.
    - `roms` lists the blobs it has registered.
  - `InitSockets` is the pure specification of the socket loop.

The NUMA helpers that the board calls are not part of this model. Their results are inputs, one `SocketInfo` per socket:

- whether the socket's hart ids are contiguous
- its first hart id, with a negative value meaning none was found
- its hart count, with a negative value meaning none was found

The hart width of socket 0 (`riscv_is_32bit`) is also an input, `is32`. So are the number of socket slots (the constructor's `socketsMax`), the CPU type and the RAM size.

Initialisation is not all-or-nothing. Socket i is created (`hw/riscv/quard_star.c:132-142`) before socket i+1 is checked, so a failure at a later socket leaves the earlier ones created. `InitSocketsStopsAtFirstFailure` states this.

The error message for too many sockets says the count "should be less than" the maximum, but the comparison at `hw/riscv/quard_star.c:107` accepts a count equal to it. The model follows the comparison, as stated by `TooManySocketsIff`.

## Model

| member | source | states |
|---|---|---|
| LittleEndian.Le32 | hw/riscv/quard_star.c:87-90 | the little-endian image of one word is four bytes long |
| LittleEndian.Le32Bytes | hw/riscv/quard_star.c:87-90 | byte k of a word's little-endian image is bits 8k..8k+7 of the word |
| LittleEndian.Word32OfLe32 | hw/riscv/quard_star.c:87-90 | reassembling a word's four little-endian bytes gives the word back |
| LittleEndian.Le32OfWord32 | hw/riscv/quard_star.c:87-90 | any four bytes are the little-endian image of the word they assemble to |
| LittleEndian.LeBytes | hw/riscv/quard_star.c:87-93 | serialising n words gives exactly 4n bytes |
| LittleEndian.Words | hw/riscv/quard_star.c:87-93 | reading bytes back four at a time gives a quarter as many words |
| LittleEndian.LeBytesSlice | hw/riscv/quard_star.c:87-93 | bytes 4i..4i+3 of the blob are the little-endian image of word i |
| LittleEndian.LeBytesElem | hw/riscv/quard_star.c:87-93 | byte 4i+k of the blob is byte k of word i |
| LittleEndian.LeBytesWordAt | hw/riscv/quard_star.c:87-93 | the four bytes at offset 4i reassemble to word i |
| LittleEndian.LeBytesAppend | hw/riscv/quard_star.c:88-90 | serialising one more word appends exactly its four bytes, which is the step of the copy loop |
| LittleEndian.WordsOfLeBytes | hw/riscv/quard_star.c:87-93 | decoding the serialised words returns the same words |
| LittleEndian.LeBytesOfWords | hw/riscv/quard_star.c:87-93 | serialising the decoded words returns the same bytes, so the two maps are inverse |
| RiscV.DecodeEncode | hw/riscv/quard_star.c:67-84 | every well-formed instruction of the stub's kinds decodes back to itself after encoding |
| RiscV.EncodeDecode | hw/riscv/quard_star.c:67-84 | every word that decodes is well formed and re-encodes to the same word |
| ResetVector.ResetVec | hw/riscv/quard_star.c:66-85 | the reset vector is exactly ten words |
| ResetVector.ResetVecBlob | hw/riscv/quard_star.c:66-93 | the blob is exactly 40 bytes |
| ResetVector.ResetVecInputDependence | hw/riscv/quard_star.c:66-85 | for any two inputs: words 0, 1, 2, 5 and 9 agree (word 9 is 0); words 3-4 agree when the widths do; word 8 is the device-tree address |
| ResetVector.ResetVecEncodesProgram | hw/riscv/quard_star.c:67-84 | words 0-5 are the encodings of auipc, addi, csrr mhartid, two loads and jr, and each decodes back to that instruction |
| ResetVector.StubAddressesDataWords | hw/riscv/quard_star.c:67-84 | the decoded stub: t0 = own address; a2 = t0+40 (fw_dyn, past the ten words); a1 loaded from t0+32 (word 8, the FDT address); t0 from t0+24 (word 6); jump to t0 without link; loads as wide as the hart |
| ResetVector.LoadWidthOnlyInFunct3 | hw/riscv/quard_star.c:79-85 | words 3 and 4 have funct3 010 (lw) on 32-bit harts and 011 (ld) otherwise, and the two variants are equal outside bits 12-14 |
| ResetVector.EntryWordsRejoin | hw/riscv/quard_star.c:60-64 | word 6 is the entry address mod 2^32; on 64-bit harts words 6 and 7 rejoin to the full entry address |
| ResetVector.Rv32KeepsLowHalf | hw/riscv/quard_star.c:60-64 | on 32-bit harts word 7 is 0 and entry addresses with the same low 32 bits give the same reset vector |
| ResetVector.BlobDecodes | hw/riscv/quard_star.c:66-93 | reading the 40-byte blob back word by word returns the ten words |
| ResetVector.SetupRomResetVec | hw/riscv/quard_star.c:53-94 | filling the array, patching words 3-4 for the width and copying it out yields exactly `ResetVecBlob(is32, start, fdt)`, placed at the ROM base; ROM size and kernel entry have no effect |
| ResetVector.CopyLittleEndian | hw/riscv/quard_star.c:87-90 | the copy loop turns the word array into its little-endian byte image |
| MemoryMap.VirtMemmap | hw/riscv/quard_star.c:45-51 | the four-entry table; only DRAM has the zero placeholder size, DRAM sits at 0x80000000, and every other entry ends at or below that base |
| MemoryMap.Resolved | hw/riscv/quard_star.c:146-159 | a mapped region keeps its table base; DRAM takes the RAM size, the others their table size |
| MemoryMap.RegionsDisjoint | hw/riscv/quard_star.c:45-51 | any two distinct regions are disjoint, for every RAM size |
| MemoryMap.RegionsOrdered | hw/riscv/quard_star.c:45-51 | the regions are ordered MROM, SRAM, UART0, DRAM, and MROM ends exactly where SRAM begins |
| MemoryMap.FixedRegionsBelowDram | hw/riscv/quard_star.c:45-51 | every address of MROM, SRAM or UART0 lies below the DRAM base 0x80000000 |
| MemoryMap.ResetVecFitsMrom | hw/riscv/quard_star.c:45-51 | every byte of the 40-byte blob, placed at the MROM base, lies inside MROM |
| QuardStar.CheckSocket | hw/riscv/quard_star.c:114-129 | a socket passes iff its hart ids are contiguous and its first hart id and hart count are non-negative; contiguity is reported first, then the hart-id base, then the hart count; each error names the socket |
| QuardStar.Configure | hw/riscv/quard_star.c:136-141 | a socket's hart array gets the machine's CPU type, `hartid-base` = the socket's first hart id and `num-harts` = its hart count; for a socket that passed its checks both are non-negative |
| QuardStar.ConfigureFrom | hw/riscv/quard_star.c:113-143 | the loop from socket i creates at most one hart array per remaining socket |
| QuardStar.InitSockets | hw/riscv/quard_star.c:107-143 | the number of created hart arrays is bounded by the socket count and by the slot count |
| QuardStar.ConfigureFromStops | hw/riscv/quard_star.c:113-143 | when sockets i..k-1 pass and k fails, the loop from i reports k's error and has created exactly the arrays of i..k-1 |
| QuardStar.ConfigureFromCompletes | hw/riscv/quard_star.c:113-143 | when every socket from i on passes, the loop reports no error and creates one array per socket, in order |
| QuardStar.ConfigureFromErrorFree | hw/riscv/quard_star.c:113-143 | if the loop from i reports no error, every socket from i on passed its checks |
| QuardStar.TooManySocketsIff | hw/riscv/quard_star.c:107-111 | the too-many-sockets error occurs iff the count exceeds the slot count (equality is accepted), and then nothing is created |
| QuardStar.InitSocketsSucceeds | hw/riscv/quard_star.c:107-143 | success iff the count fits and every socket passes; then array i has the CPU type, socket i's first hart id and its hart count |
| QuardStar.InitSocketsStopsAtFirstFailure | hw/riscv/quard_star.c:113-143 | if socket k is the first to fail, its error is reported and the arrays of sockets 0..k-1 remain created |
| QuardStar.BoardMappings | hw/riscv/quard_star.c:146-159 | three mappings in the order DRAM, SRAM, MROM; DRAM at 0x80000000 with the RAM size, SRAM and MROM with their table ranges; the three ranges are pairwise disjoint |
| QuardStar.BoardResetVecData | hw/riscv/quard_star.c:166-169 | the board passes the MROM base 0 as entry address and 0 as FDT address, so data words 6-9 are all zero |
| QuardStar.QuardStarMachine.constructor | hw/riscv/quard_star.c:96-105 | a new machine has `socketsMax` empty socket slots and nothing mapped or registered |
| QuardStar.QuardStarMachine.RealizeSockets | hw/riscv/quard_star.c:113-143 | the socket loop returns the error `InitSockets` specifies, fills the first slots with its created arrays and leaves the other slots untouched |
| QuardStar.QuardStarMachine.MachineInit | hw/riscv/quard_star.c:96-170 | returns the error `InitSockets` specifies with the slots filled as it says. On error nothing is mapped or registered. Otherwise DRAM (RAM size), SRAM and MROM are mapped in that order, and the blob for entry 0 and FDT 0 is registered at address 0 |

## Left out

- The emulator's object model is not modelled: child creation, property setters, realisation, class and instance initialisation, and type registration (`hw/riscv/quard_star.c:132-142,172-212`). A created socket is modelled as a `HartArray` value in its slot.
- Memory regions are recorded as (region, base, size) entries in order. Nothing models the emulator's address space or the region objects themselves. The ROM loader call is likewise recorded as a (name, address, bytes) entry.
- `cpu_to_le32` and the host byte order are not modelled. The copy loop writes the little-endian bytes of each word into a byte buffer, which is the image the ROM loader receives on any host. The source instead rewrites the word array in place.
- The NUMA helpers `riscv_socket_count`, `riscv_socket_check_hartids`, `riscv_socket_first_hartid`, `riscv_socket_hart_count` and `riscv_is_32bit` are not part of this model. Their results are inputs, and so is `QUARD_STAR_SOCKETS_MAX`.
- `error_report` and `exit(1)` become a returned `InitError` naming the socket and the failure. The message text is not modelled.
- The numbers in the too-many-sockets message are not modelled. `TooManySockets` records the count and the maximum.
- ResetVector.StubAddressesDataWords: states what each decoded instruction reads and writes. It does not execute the stub, because there is no model of the harts' register file or of memory loads. The claim that the jump lands on the entry address rests on t0 being loaded from word 6, together with `EntryWordsRejoin`.
- The entry address and the device-tree address are fixed-width values: `bv64` for `hwaddr` and `bv32` for the `uint32_t` device-tree address. The 32-bit truncation of the entry address into word 6 is written out explicitly.
- MemoryMap.RegionsDisjoint: addresses are unbounded naturals. A RAM size that runs DRAM past 2^64 is not excluded, and the source does not check it either.
- Interrupt controllers, device wiring, virtio, flash and the firmware-configuration device do not occur in this board file, so they are not modelled.
