/**
 * Machine initialisation of the Quard Star board: the socket count is
 * bounded, each socket is validated and its hart array configured in turn
 * (stopping at the first socket that fails), then DRAM, SRAM and the mask ROM
 * are mapped and the reset vector is placed at the start of the mask ROM.
 *
 * The per-socket facts that the NUMA helpers compute (whether the socket's
 * hart ids are contiguous, its first hart id and its hart count) are inputs
 * here, one `SocketInfo` per socket.
 */
module QuardStar {
  import opened Wrappers
  import opened ResetVector
  import opened MemoryMap

  /** What the machine knows about one socket; negative ids and counts mean "not found". */
  datatype SocketInfo = SocketInfo(hartIdsContiguous: bool, firstHartId: int, hartCount: int)

  /** A configured hart array: its CPU type and its `hartid-base` and `num-harts` properties. */
  datatype HartArray = HartArray(cpuType: string, hartIdBase: int, numHarts: int)

  /** The reasons machine initialisation gives up, each naming the socket at fault. */
  datatype InitError =
    | TooManySockets(count: nat, max: nat)
    | DiscontinuousHartIds(socket: nat)
    | NoHartIdBase(socket: nat)
    | NoHartCount(socket: nat)

  /** The hart arrays created so far, and the error that stopped the loop if any. */
  datatype Outcome = Outcome(created: seq<HartArray>, error: Option<InitError>)

  /**
   * The three checks on socket `i`, in the order the board makes them;
   * the first that fails is reported.
   */
  function CheckSocket(i: nat, info: SocketInfo): (r: Option<InitError>)
    ensures r.None? <==> info.hartIdsContiguous && info.firstHartId >= 0 && info.hartCount >= 0
    ensures !info.hartIdsContiguous ==> r == Some(DiscontinuousHartIds(i))
    ensures info.hartIdsContiguous && info.firstHartId < 0 ==> r == Some(NoHartIdBase(i))
    ensures info.hartIdsContiguous && info.firstHartId >= 0 && info.hartCount < 0 ==> r == Some(NoHartCount(i))
    ensures r.Some? ==> !r.value.TooManySockets? && r.value.socket == i
  {
    if !info.hartIdsContiguous then Some(DiscontinuousHartIds(i))
    else if info.firstHartId < 0 then Some(NoHartIdBase(i))
    else if info.hartCount < 0 then Some(NoHartCount(i))
    else None
  }

  /** The hart array built for a socket that passed its checks. */
  function Configure(cpuType: string, info: SocketInfo): (h: HartArray)
    ensures h.cpuType == cpuType && h.hartIdBase == info.firstHartId && h.numHarts == info.hartCount
    ensures CheckSocket(0, info).None? ==> h.hartIdBase >= 0 && h.numHarts >= 0
  {
    HartArray(cpuType, info.firstHartId, info.hartCount)
  }

  /** Every socket before `k` passes its checks. */
  ghost predicate AllPassBefore(sockets: seq<SocketInfo>, k: nat)
    requires k <= |sockets|
  {
    forall j :: 0 <= j < k ==> CheckSocket(j, sockets[j]).None?
  }

  /** Sockets `i`, `i+1`, ... are checked and configured one at a time. */
  function ConfigureFrom(cpuType: string, sockets: seq<SocketInfo>, i: nat): (o: Outcome)
    requires i <= |sockets|
    ensures |o.created| <= |sockets| - i
    decreases |sockets| - i
  {
    if i == |sockets| then Outcome([], None)
    else match CheckSocket(i, sockets[i])
      case Some(e) => Outcome([], Some(e))
      case None =>
        var rest := ConfigureFrom(cpuType, sockets, i + 1);
        Outcome([Configure(cpuType, sockets[i])] + rest.created, rest.error)
  }

  /** The socket part of machine initialisation, with `max` socket slots. */
  function InitSockets(max: nat, cpuType: string, sockets: seq<SocketInfo>): (o: Outcome)
    ensures |o.created| <= max && |o.created| <= |sockets|
  {
    if max < |sockets| then Outcome([], Some(TooManySockets(|sockets|, max)))
    else ConfigureFrom(cpuType, sockets, 0)
  }

  /**
   * From socket `i` on: if sockets `i..k-1` pass and socket `k` fails, the
   * loop creates exactly the arrays of `i..k-1` and reports socket `k`'s error.
   */
  lemma {:induction false} ConfigureFromStops(cpuType: string, sockets: seq<SocketInfo>, i: nat, k: nat)
    requires i <= k < |sockets|
    requires forall j :: i <= j < k ==> CheckSocket(j, sockets[j]).None?
    requires CheckSocket(k, sockets[k]).Some?
    ensures var o := ConfigureFrom(cpuType, sockets, i);
      o.error == CheckSocket(k, sockets[k]) && |o.created| == k - i &&
      forall j :: i <= j < k ==> o.created[j - i] == Configure(cpuType, sockets[j])
    decreases k - i
  {
    if i < k {
      ConfigureFromStops(cpuType, sockets, i + 1, k);
    }
  }

  /** From socket `i` on: if every remaining socket passes, all of them are created. */
  lemma {:induction false} ConfigureFromCompletes(cpuType: string, sockets: seq<SocketInfo>, i: nat)
    requires i <= |sockets|
    requires forall j :: i <= j < |sockets| ==> CheckSocket(j, sockets[j]).None?
    ensures var o := ConfigureFrom(cpuType, sockets, i);
      o.error.None? && |o.created| == |sockets| - i &&
      forall j :: i <= j < |sockets| ==> o.created[j - i] == Configure(cpuType, sockets[j])
    decreases |sockets| - i
  {
    if i < |sockets| {
      ConfigureFromCompletes(cpuType, sockets, i + 1);
    }
  }

  /** From socket `i` on: the loop reports no error only if every remaining socket passes. */
  lemma {:induction false} ConfigureFromErrorFree(cpuType: string, sockets: seq<SocketInfo>, i: nat, j: nat)
    requires i <= j < |sockets|
    requires ConfigureFrom(cpuType, sockets, i).error.None?
    ensures CheckSocket(j, sockets[j]).None?
    decreases |sockets| - i
  {
    if i < j {
      ConfigureFromErrorFree(cpuType, sockets, i + 1, j);
    }
  }

  /**
   * The socket count is refused, before any socket is looked at, exactly
   * when it exceeds the number of slots; a count equal to it is accepted.
   */
  lemma TooManySocketsIff(max: nat, cpuType: string, sockets: seq<SocketInfo>)
    ensures InitSockets(max, cpuType, sockets).error == Some(TooManySockets(|sockets|, max))
        <==> max < |sockets|
    ensures max < |sockets| ==> InitSockets(max, cpuType, sockets).created == []
  {
    if |sockets| <= max {
      if AllPassBefore(sockets, |sockets|) {
        ConfigureFromCompletes(cpuType, sockets, 0);
      } else {
        var k := FirstFailing(sockets);
        ConfigureFromStops(cpuType, sockets, 0, k);
      }
    }
  }

  /**
   * Initialisation succeeds exactly when the count fits and every socket
   * passes its three checks; then socket `i` gets hart array `i`, with the
   * socket's first hart id and hart count.
   */
  lemma InitSocketsSucceeds(max: nat, cpuType: string, sockets: seq<SocketInfo>)
    ensures InitSockets(max, cpuType, sockets).error.None?
        <==> |sockets| <= max && AllPassBefore(sockets, |sockets|)
    ensures InitSockets(max, cpuType, sockets).error.None? ==>
      var created := InitSockets(max, cpuType, sockets).created;
      |created| == |sockets| &&
      forall i :: 0 <= i < |sockets| ==>
        created[i] == HartArray(cpuType, sockets[i].firstHartId, sockets[i].hartCount)
  {
    if |sockets| <= max && InitSockets(max, cpuType, sockets).error.None? {
      forall j | 0 <= j < |sockets|
        ensures CheckSocket(j, sockets[j]).None?
      {
        ConfigureFromErrorFree(cpuType, sockets, 0, j);
      }
    }
    if |sockets| <= max && AllPassBefore(sockets, |sockets|) {
      ConfigureFromCompletes(cpuType, sockets, 0);
    }
  }

  /**
   * When socket `k` is the first to fail, its error is reported and the
   * arrays of sockets `0..k-1` stay created: construction is not undone.
   */
  lemma InitSocketsStopsAtFirstFailure(max: nat, cpuType: string, sockets: seq<SocketInfo>, k: nat)
    requires |sockets| <= max
    requires k < |sockets| && AllPassBefore(sockets, k)
    requires CheckSocket(k, sockets[k]).Some?
    ensures var o := InitSockets(max, cpuType, sockets);
      o.error == CheckSocket(k, sockets[k]) && |o.created| == k &&
      forall j :: 0 <= j < k ==> o.created[j] == Configure(cpuType, sockets[j])
  {
    ConfigureFromStops(cpuType, sockets, 0, k);
  }

  /** The index of the first socket that fails, when one does. */
  function FirstFailing(sockets: seq<SocketInfo>): (k: nat)
    requires !AllPassBefore(sockets, |sockets|)
    ensures k < |sockets| && AllPassBefore(sockets, k) && CheckSocket(k, sockets[k]).Some?
  {
    var j :| 0 <= j < |sockets| && CheckSocket(j, sockets[j]).Some?;
    FirstFailingFrom(sockets, 0, j)
  }

  /** Searches sockets `i..` for the first failure, knowing socket `j` fails. */
  function FirstFailingFrom(sockets: seq<SocketInfo>, i: nat, j: nat): (k: nat)
    requires i <= j < |sockets| && CheckSocket(j, sockets[j]).Some?
    requires AllPassBefore(sockets, i)
    ensures i <= k <= j && AllPassBefore(sockets, k) && CheckSocket(k, sockets[k]).Some?
    decreases j - i
  {
    if CheckSocket(i, sockets[i]).Some? then i else FirstFailingFrom(sockets, i + 1, j)
  }

  /** A range mapped into the system address space. */
  datatype Mapping = Mapping(region: RegionId, range: MemMapEntry)

  /** A blob of bytes registered to be copied into guest memory at reset. */
  datatype RomBlob = RomBlob(name: string, addr: bv64, data: seq<bv8>)

  /** The mappings machine initialisation makes, in its order: DRAM, SRAM, MROM. */
  function BoardMappings(ramSize: nat): (m: seq<Mapping>)
    ensures |m| == 3 && m[0].region == Dram && m[1].region == Sram && m[2].region == Mrom
    ensures m[0].range == MemMapEntry(0x8000_0000, ramSize)
    ensures m[1].range == VirtMemmap(Sram) && m[2].range == VirtMemmap(Mrom)
    ensures forall a, b :: 0 <= a < b < |m| ==> Disjoint(m[a].range, m[b].range)
  {
    [ Mapping(Dram, Resolved(Dram, ramSize)),
      Mapping(Sram, Resolved(Sram, ramSize)),
      Mapping(Mrom, Resolved(Mrom, ramSize)) ]
  }

  /**
   * The board's reset vector: the entry address is the MROM base and the
   * device-tree address is zero, so all four data words are zero and the
   * stub jumps back to the start of the mask ROM.
   */
  lemma BoardResetVecData(is32: bool)
    ensures VirtMemmap(Mrom).base == 0
    ensures ResetVec(is32, 0, 0)[6..] == [0, 0, 0, 0]
  {
  }

  class QuardStarMachine {
    /** One slot per possible socket; a slot holds the hart array once it is created. */
    const soc: array<Option<HartArray>>
    /** Ranges added to the system address space, in order. */
    var mappings: seq<Mapping>
    /** Blobs registered with the ROM loader, in order. */
    var roms: seq<RomBlob>

    /** A machine with `socketsMax` empty socket slots and nothing mapped. */
    constructor(socketsMax: nat)
      ensures fresh(soc) && soc.Length == socketsMax
      ensures forall i :: 0 <= i < socketsMax ==> soc[i].None?
      ensures mappings == [] && roms == []
    {
      soc := new Option<HartArray>[socketsMax](_ => None);
      mappings := [];
      roms := [];
    }

    /**
     * The socket loop: checks each socket in turn, configuring its slot as
     * soon as it passes and stopping at the first failure. The outcome is
     * the one `InitSockets` specifies: its error is returned and its created
     * hart arrays fill the first slots; the other slots are untouched.
     */
    method RealizeSockets(cpuType: string, sockets: seq<SocketInfo>) returns (err: Option<InitError>)
      requires |sockets| <= soc.Length
      modifies soc
      ensures var o := InitSockets(soc.Length, cpuType, sockets);
        err == o.error &&
        (forall i :: 0 <= i < |o.created| ==> soc[i] == Some(o.created[i])) &&
        (forall i :: |o.created| <= i < soc.Length ==> soc[i] == old(soc[i]))
    {
      var i := 0;
      while i < |sockets|
        invariant 0 <= i <= |sockets|
        invariant AllPassBefore(sockets, i)
        invariant forall j :: 0 <= j < i ==> soc[j] == Some(Configure(cpuType, sockets[j]))
        invariant forall j :: i <= j < soc.Length ==> soc[j] == old(soc[j])
      {
        var info := sockets[i];
        if !info.hartIdsContiguous {
          err := Some(DiscontinuousHartIds(i));
          InitSocketsStopsAtFirstFailure(soc.Length, cpuType, sockets, i);
          return;
        }
        var baseHartId := info.firstHartId;
        if baseHartId < 0 {
          err := Some(NoHartIdBase(i));
          InitSocketsStopsAtFirstFailure(soc.Length, cpuType, sockets, i);
          return;
        }
        var hartCount := info.hartCount;
        if hartCount < 0 {
          err := Some(NoHartCount(i));
          InitSocketsStopsAtFirstFailure(soc.Length, cpuType, sockets, i);
          return;
        }
        soc[i] := Some(HartArray(cpuType, baseHartId, hartCount));
        i := i + 1;
      }
      err := None;
      InitSocketsSucceeds(soc.Length, cpuType, sockets);
    }

    /**
     * Board initialisation. Refuses more sockets than there are slots,
     * realises the sockets, then maps DRAM (with the machine's RAM size),
     * SRAM and MROM and registers the reset vector at the MROM base, built
     * for the width of the harts with entry address 0 and device-tree
     * address 0. On any error nothing is mapped or registered.
     */
    method MachineInit(is32: bool, cpuType: string, ramSize: nat, sockets: seq<SocketInfo>)
      returns (err: Option<InitError>)
      modifies this, soc
      ensures var o := InitSockets(soc.Length, cpuType, sockets);
        err == o.error &&
        (forall i :: 0 <= i < |o.created| ==> soc[i] == Some(o.created[i])) &&
        (forall i :: |o.created| <= i < soc.Length ==> soc[i] == old(soc[i]))
      ensures err.Some? ==> mappings == old(mappings) && roms == old(roms)
      ensures err.None? ==> mappings == old(mappings) + BoardMappings(ramSize)
      ensures err.None? ==> roms == old(roms) + [RomBlob("mrom.reset", 0, ResetVecBlob(is32, 0, 0))]
    {
      if soc.Length < |sockets| {
        err := Some(TooManySockets(|sockets|, soc.Length));
        return;
      }
      err := RealizeSockets(cpuType, sockets);
      if err.Some? {
        return;
      }
      mappings := mappings + [Mapping(Dram, MemMapEntry(VirtMemmap(Dram).base, ramSize))];
      mappings := mappings + [Mapping(Sram, VirtMemmap(Sram))];
      mappings := mappings + [Mapping(Mrom, VirtMemmap(Mrom))];
      var mrom := VirtMemmap(Mrom);
      var blob, blobBase := SetupRomResetVec(is32, mrom.base as bv64, mrom.base as bv64,
                                             mrom.size as bv64, 0x0, 0x0);
      roms := roms + [RomBlob("mrom.reset", blobBase, blob)];
    }
  }
}
