/** End-to-end safety of netboot over a network that loses, delays, duplicates and reorders. */
module NetbootSafety {
  import opened Common
  import opened Netboot

  predicate Covers(img: Image, a: nat) { img.addr <= a < img.addr + |img.data| }

  /** Where images overlap they agree. (Disjoint images trivially do.) */
  ghost predicate Consistent(cfg: Config) {
    forall j, k, a: nat | 0 <= j < |cfg.images| && 0 <= k < |cfg.images| && Covers(cfg.images[j], a) &&
        Covers(cfg.images[k], a) ::
      cfg.images[j].data[a - cfg.images[j].addr] == cfg.images[k].data[a - cfg.images[k].addr]
  }

  /** Memory holds what every image wants at address `a`. */
  ghost predicate RightAt(cfg: Config, mem: seq<Byte>, a: nat) {
    && a < |mem|
    && forall j | 0 <= j < |cfg.images| && Covers(cfg.images[j], a) ::
        mem[a] == cfg.images[j].data[a - cfg.images[j].addr]
  }

  ghost predicate RightIn(cfg: Config, mem: seq<Byte>, lo: nat, hi: nat) {
    forall a | lo <= a < hi :: RightAt(cfg, mem, a)
  }

  /** Every byte of every image is at its load address. */
  ghost predicate Loaded(cfg: Config, mem: seq<Byte>) {
    forall j | 0 <= j < |cfg.images| ::
      var img := cfg.images[j];
      img.addr + |img.data| <= |mem| && mem[img.addr..img.addr + |img.data|] == img.data
  }

  /** Nothing outside the images has been written. */
  ghost predicate OnlyImagesWritten(cfg: Config, mem0: seq<Byte>, mem: seq<Byte>) {
    && |mem| == |mem0|
    && forall a | 0 <= a < |mem| && mem[a] != mem0[a] :: exists j | 0 <= j < |cfg.images| :: Covers(cfg.images[j], a)
  }

  /** The chunk a WRITE carries, as a slice of an image. */
  ghost predicate IsChunk(cfg: Config, m: Msg) {
    exists j | 0 <= j < |cfg.images| :: ChunkOf(cfg.images[j], m)
  }

  ghost predicate ChunkOf(img: Image, m: Msg) {
    && img.addr <= m.arg && m.arg + |m.db| <= img.addr + |img.data|
    && m.db == img.data[m.arg - img.addr..m.arg - img.addr + |m.db|]
  }

  ghost predicate GoodPacket(cfg: Config, p: Packet) {
    && p.msg.magic == NB_MAGIC && |p.msg.db| <= NB_DATA_MAX
    && match p.port
       case Query => p.msg.cmd == NB_CMD_QUERY
       case Ctrl =>
         || (p.msg.cmd == NB_CMD_WRITE && IsChunk(cfg, p.msg))
         || (p.msg.cmd == NB_CMD_EXEC && cfg.images != [] && p.msg.arg == cfg.images[0].addr)
       case Other => false
  }

  /** The effect a processed packet has left behind. */
  ghost predicate Done(cfg: Config, d: Device, p: Packet) {
    d.Loading? && p.msg.cmd == NB_CMD_WRITE ==> RightIn(cfg, d.mem, p.msg.arg, p.msg.arg + |p.msg.db|)
  }

  /** Images `0..n` are in memory. */
  ghost predicate LoadedUpTo(cfg: Config, mem: seq<Byte>, n: nat) {
    forall j | 0 <= j < n && j < |cfg.images| ::
      RightIn(cfg, mem, cfg.images[j].addr, cfg.images[j].addr + |cfg.images[j].data|)
  }

  // ---- Sequence numbers ----

  /** Numbers are given out from 2 on, and the first 2^32 of them differ on the wire. */
  const DISTINCT := TWO32 + 2

  /** A datagram lost at number 2^32 + 2 can be taken for the first query, which got through. The
      EXEC that follows has the number after next, so this is how far the promise goes. */
  const SAFE := TWO32 + 4

  /** The number behind a wire number, as long as they differ. */
  function Number(wire: nat): nat { if wire < 2 then wire + TWO32 else wire }

  lemma NumberOfWire(sn: nat)
    requires 2 <= sn < DISTINCT
    ensures Number(Wire(sn)) == sn
  {
  }

  // ---- The invariant ----

  ghost predicate NetworkInv(cfg: Config, s: State) {
    && (forall p | p in s.toDevice :: GoodPacket(cfg, p) && Number(p.msg.sn) <= s.host.sn)
    && (forall p, q | p in s.toDevice && q in s.toDevice && p.msg.sn == q.msg.sn :: p == q)
    && (forall m | m in s.toHost :: Number(m.sn) <= s.host.sn)
    && (forall m, p | m in s.toHost && p in s.toDevice && p.msg.sn == m.sn :: Done(cfg, s.device, p))
  }

  ghost predicate DeviceInv(cfg: Config, s: State, mem0: seq<Byte>) {
    && |s.device.mem| == TWO32
    && OnlyImagesWritten(cfg, mem0, s.device.mem)
    && (s.device.Loading? ==>
          forall p | p in s.toDevice && p.msg.cmd == NB_CMD_EXEC :: LoadedUpTo(cfg, s.device.mem, |cfg.images|))
    && (s.device.Running? ==>
          LoadedUpTo(cfg, s.device.mem, |cfg.images|) && cfg.images != [] && s.device.entry == cfg.images[0].addr)
  }

  predicate InSession(pc: Pc) { pc.Reading? || pc.Sending? || pc.Waiting? }

  /** The host's position is backed by the device's memory: files before `image` are in, and
      the current one up to the bytes still in flight. */
  ghost predicate HostInv(cfg: Config, s: State) {
    var h := s.host;
    && (h.pc.Waiting? ==> Packet(Ctrl, h.msg) in s.toDevice && h.msg.sn == Wire(h.sn))
    && (InSession(h.pc) ==>
          if h.pc.Reading? then
            && h.image < |cfg.images| && h.offset <= |cfg.images[h.image].data| && !h.exec
            && Backed(cfg, s.device, h.image, h.offset)
          else if h.exec then
            && GoodPacket(cfg, Packet(Ctrl, h.msg)) && h.msg.cmd == NB_CMD_EXEC
            && Backed(cfg, s.device, |cfg.images|, 0)
          else
            && h.image < |cfg.images| && |h.msg.db| <= h.offset <= |cfg.images[h.image].data|
            && h.msg.magic == NB_MAGIC && h.msg.cmd == NB_CMD_WRITE && |h.msg.db| <= NB_DATA_MAX
            && ChunkOf(cfg.images[h.image], h.msg) && h.msg.arg + |h.msg.db| == cfg.images[h.image].addr + h.offset
            && Backed(cfg, s.device, h.image, h.offset - |h.msg.db|))
  }

  ghost predicate Backed(cfg: Config, d: Device, image: nat, offset: nat) {
    d.Loading? ==>
      && LoadedUpTo(cfg, d.mem, image)
      && (image < |cfg.images| ==> RightIn(cfg, d.mem, cfg.images[image].addr, cfg.images[image].addr + offset))
  }

  ghost predicate EarlyInv(cfg: Config, s: State, mem0: seq<Byte>) {
    NetworkInv(cfg, s) && DeviceInv(cfg, s, mem0) && HostInv(cfg, s)
  }

  /** What is left of it when a reply may already be mistaken: an EXEC that goes out below SAFE was
      prepared while replies could still be told apart. */
  ghost predicate LateInv(cfg: Config, s: State, mem0: seq<Byte>) {
    && (forall p | p in s.toDevice :: GoodPacket(cfg, p))
    && DeviceInv(cfg, s, mem0)
    && (s.host.sn <= DISTINCT && (s.host.pc.Sending? || s.host.pc.Waiting?) ==> Prepared(cfg, s))
  }

  ghost predicate Prepared(cfg: Config, s: State) {
    && GoodPacket(cfg, Packet(Ctrl, s.host.msg))
    && (s.host.msg.cmd == NB_CMD_EXEC && s.device.Loading? ==> LoadedUpTo(cfg, s.device.mem, |cfg.images|))
  }

  ghost predicate Inv(cfg: Config, s: State, mem0: seq<Byte>) {
    && 1 <= s.host.sn
    && (s.host.sn < DISTINCT ==> EarlyInv(cfg, s, mem0))
    && (DISTINCT <= s.host.sn < SAFE ==> LateInv(cfg, s, mem0))
  }

  // ---- Steps keep it ----

  lemma InPlace(mem: seq<Byte>, addr: nat, db: seq<Byte>)
    requires |mem| == TWO32 && addr + |db| <= TWO32
    ensures forall a | 0 <= a < TWO32 ::
              WriteBytes(mem, addr, db)[a] == if addr <= a < addr + |db| then db[a - addr] else mem[a]
  {
  }

  /** A chunk of an image never spoils what is already right, and makes its own range right. */
  lemma WriteChunk(cfg: Config, mem: seq<Byte>, m: Msg)
    requires cfg.Valid() && Consistent(cfg) && |mem| == TWO32 && IsChunk(cfg, m)
    ensures m.arg + |m.db| <= TWO32
    ensures var mem' := WriteBytes(mem, m.arg, m.db);
            && |mem'| == TWO32
            && (forall a | 0 <= a < TWO32 && RightAt(cfg, mem, a) :: RightAt(cfg, mem', a))
            && RightIn(cfg, mem', m.arg, m.arg + |m.db|)
            && (forall a | 0 <= a < TWO32 && mem'[a] != mem[a] :: exists j | 0 <= j < |cfg.images| ::
                Covers(cfg.images[j], a))
  {
    var i :| 0 <= i < |cfg.images| && ChunkOf(cfg.images[i], m);
    var img := cfg.images[i];
    var mem' := WriteBytes(mem, m.arg, m.db);
    InPlace(mem, m.arg, m.db);
    forall a | m.arg <= a < m.arg + |m.db|
      ensures RightAt(cfg, mem', a) && Covers(img, a)
    {
      assert mem'[a] == m.db[a - m.arg] == img.data[a - img.addr];
      forall j | 0 <= j < |cfg.images| && Covers(cfg.images[j], a)
        ensures mem'[a] == cfg.images[j].data[a - cfg.images[j].addr]
      {
        assert Covers(img, a);
      }
    }
    forall a | 0 <= a < TWO32 && !(m.arg <= a < m.arg + |m.db|)
      ensures mem'[a] == mem[a]
    {
    }
  }

  /** A better memory backs whatever the old one backed. */
  lemma BackedImproves(cfg: Config, mem: seq<Byte>, mem': seq<Byte>)
    requires cfg.Valid() && |mem| == |mem'| == TWO32
    requires forall a | 0 <= a < TWO32 && RightAt(cfg, mem, a) :: RightAt(cfg, mem', a)
    ensures forall n: nat :: LoadedUpTo(cfg, mem, n) ==> LoadedUpTo(cfg, mem', n)
    ensures forall lo: nat, hi: nat :: RightIn(cfg, mem, lo, hi) ==> RightIn(cfg, mem', lo, hi)
  {
    forall lo: nat, hi: nat | RightIn(cfg, mem, lo, hi)
      ensures RightIn(cfg, mem', lo, hi)
    {
      forall a | lo <= a < hi
        ensures RightAt(cfg, mem', a)
      {
        assert RightAt(cfg, mem, a);
      }
    }
    forall n: nat | LoadedUpTo(cfg, mem, n)
      ensures LoadedUpTo(cfg, mem', n)
    {
    }
  }

  /** `mem'` holds all that is right in `mem`, and more. */
  ghost predicate Improves(cfg: Config, mem: seq<Byte>, mem': seq<Byte>) {
    && (forall n: nat :: LoadedUpTo(cfg, mem, n) ==> LoadedUpTo(cfg, mem', n))
    && (forall lo: nat, hi: nat :: RightIn(cfg, mem, lo, hi) ==> RightIn(cfg, mem', lo, hi))
  }

  lemma DeliverImproves(cfg: Config, s: State, p: Packet, mem0: seq<Byte>)
    requires cfg.Valid() && Consistent(cfg) && DeviceInv(cfg, s, mem0) && GoodPacket(cfg, p)
    requires Next(cfg, s, Deliver(p)).Some?
    ensures var s' := Next(cfg, s, Deliver(p)).value;
            && DeviceInv(cfg, s', mem0) && Improves(cfg, s.device.mem, s'.device.mem)
            && Done(cfg, s'.device, p)
  {
    var s' := Next(cfg, s, Deliver(p)).value;
    if p.msg.cmd == NB_CMD_WRITE {
      WriteChunk(cfg, s.device.mem, p.msg);
    }
    BackedImproves(cfg, s.device.mem, s'.device.mem);
  }

  lemma DeliverKeepsPosition(cfg: Config, s: State, s': State)
    requires HostInv(cfg, s) && s'.host == s.host && s'.toDevice == s.toDevice
    requires s.device.Loading? && Improves(cfg, s.device.mem, s'.device.mem)
    ensures HostInv(cfg, s')
  {
    hide LoadedUpTo, RightIn, ChunkOf, GoodPacket;
  }

  lemma DeliverKeepsNetwork(cfg: Config, s: State, s': State, p: Packet, reply: Option<Msg>)
    requires NetworkInv(cfg, s) && p in s.toDevice && Done(cfg, s'.device, p)
    requires s'.host == s.host && s'.toDevice == s.toDevice
    requires reply.Some? ==> reply.value.sn == p.msg.sn
    requires s'.toHost == if reply.Some? then s.toHost + {reply.value} else s.toHost
    requires s.device.Loading? && Improves(cfg, s.device.mem, s'.device.mem)
    ensures NetworkInv(cfg, s')
  {
    hide GoodPacket, RightIn, LoadedUpTo;
    assert forall q | q in s.toDevice && Done(cfg, s.device, q) :: Done(cfg, s'.device, q);
  }

  lemma DeliverKeepsEarly(cfg: Config, s: State, p: Packet, mem0: seq<Byte>)
    requires cfg.Valid() && Consistent(cfg) && EarlyInv(cfg, s, mem0)
    requires Next(cfg, s, Deliver(p)).Some?
    ensures EarlyInv(cfg, Next(cfg, s, Deliver(p)).value, mem0)
  {
    hide HostInv, DeviceInv, Improves, Done, GoodPacket;
    var s' := Next(cfg, s, Deliver(p)).value;
    assert GoodPacket(cfg, p);
    DeliverImproves(cfg, s, p, mem0);
    DeliverKeepsPosition(cfg, s, s');
    DeliverKeepsNetwork(cfg, s, s', p, PktRxUdp(s.device.mem, p).reply);
  }

  lemma DeliverKeepsLate(cfg: Config, s: State, p: Packet, mem0: seq<Byte>)
    requires cfg.Valid() && Consistent(cfg) && LateInv(cfg, s, mem0)
    requires Next(cfg, s, Deliver(p)).Some?
    ensures LateInv(cfg, Next(cfg, s, Deliver(p)).value, mem0)
  {
    hide GoodPacket, DeviceInv, LoadedUpTo, RightIn;
    assert GoodPacket(cfg, p);
    DeliverImproves(cfg, s, p, mem0);
  }

  /** Whatever datagram arrives, however late and however often: the invariant stays. */
  lemma DeliverKeepsInv(cfg: Config, s: State, p: Packet, mem0: seq<Byte>)
    requires cfg.Valid() && Consistent(cfg) && Inv(cfg, s, mem0) && s.host.sn < SAFE
    requires Next(cfg, s, Deliver(p)).Some?
    ensures Inv(cfg, Next(cfg, s, Deliver(p)).value, mem0)
  {
    hide EarlyInv, LateInv;
    if s.host.sn < DISTINCT {
      DeliverKeepsEarly(cfg, s, p, mem0);
    } else {
      DeliverKeepsLate(cfg, s, p, mem0);
    }
  }

  /** Sending a packet under a fresh sequence number keeps the network and device invariants;
      EXEC may only be sent once everything is loaded. */
  lemma SendKeeps(cfg: Config, s: State, s': State, p: Packet, mem0: seq<Byte>)
    requires NetworkInv(cfg, s) && DeviceInv(cfg, s, mem0) && GoodPacket(cfg, p)
    requires s.host.sn < s'.host.sn && Number(p.msg.sn) == s'.host.sn
    requires s'.device == s.device && s'.toHost == s.toHost && s'.toDevice == s.toDevice + {p}
    requires p.msg.cmd == NB_CMD_EXEC && s.device.Loading? ==> LoadedUpTo(cfg, s.device.mem, |cfg.images|)
    ensures NetworkInv(cfg, s') && DeviceInv(cfg, s', mem0)
  {
  }

  lemma QuietKeeps(cfg: Config, s: State, s': State, mem0: seq<Byte>)
    requires NetworkInv(cfg, s) && DeviceInv(cfg, s, mem0) && s.host.sn <= s'.host.sn
    requires s'.device == s.device && s'.toHost == s.toHost && s'.toDevice == s.toDevice
    ensures NetworkInv(cfg, s') && DeviceInv(cfg, s', mem0)
  {
  }

  lemma TransmitKeeps(cfg: Config, s: State, mem0: seq<Byte>)
    requires cfg.Valid() && NetworkInv(cfg, s) && DeviceInv(cfg, s, mem0) && HostInv(cfg, s)
    requires s.host.pc.Sending? && 1 <= s.host.sn && s.host.sn + 1 < DISTINCT
    ensures var s' := Next(cfg, s, HostDoes(Transmit)).value;
            NetworkInv(cfg, s') && DeviceInv(cfg, s', mem0)
  {
    var s' := Next(cfg, s, HostDoes(Transmit)).value;
    if !s.host.exec {
      assert ChunkOf(cfg.images[s.host.image], s'.host.msg);
    }
    NumberOfWire(s.host.sn + 1);
    SendKeeps(cfg, s, s', Packet(Ctrl, s'.host.msg), mem0);
  }

  lemma HostKeepsNetwork(cfg: Config, s: State, e: Event, mem0: seq<Byte>)
    requires cfg.Valid() && NetworkInv(cfg, s) && DeviceInv(cfg, s, mem0) && HostInv(cfg, s)
    requires Next(cfg, s, HostDoes(e)).Some? && 1 <= s.host.sn && Next(cfg, s, HostDoes(e)).value.host.sn < DISTINCT
    ensures NetworkInv(cfg, Next(cfg, s, HostDoes(e)).value) && DeviceInv(cfg, Next(cfg, s, HostDoes(e)).value, mem0)
  {
    hide NetworkInv, DeviceInv, HostInv;
    var s' := Next(cfg, s, HostDoes(e)).value;
    match e
    case SendQuery =>
      NumberOfWire(s.host.sn + 1);
      SendKeeps(cfg, s, s', Packet(Query, Msg(NB_MAGIC, NB_CMD_QUERY, Wire(s'.host.sn), 0, NODENAME)), mem0);
    case Transmit => TransmitKeeps(cfg, s, mem0);
    case _ => QuietKeeps(cfg, s, s', mem0);
  }

  lemma SnMonotone(cfg: Config, s: State, step: Step)
    requires cfg.Valid() && Next(cfg, s, step).Some?
    ensures s.host.sn <= Next(cfg, s, step).value.host.sn
  {
  }

  /** Reading a chunk puts in flight exactly the bytes the file position has moved over; after
      the last file everything is backed, so EXEC may go out. */
  lemma ReadingKeepsPosition(cfg: Config, s: State, e: Event)
    requires cfg.Valid() && HostInv(cfg, s) && s.host.pc.Reading? && Next(cfg, s, HostDoes(e)).Some?
    ensures HostInv(cfg, Next(cfg, s, HostDoes(e)).value)
  {
    var h := s.host;
    var s' := Next(cfg, s, HostDoes(e)).value;
    if e.ReadChunk? {
      assert ChunkOf(cfg.images[h.image], s'.host.msg);
    } else if e.ReadEnd? {
      assert s.device.Loading? ==> LoadedUpTo(cfg, s.device.mem, h.image + 1);
    }
  }

  lemma SendingKeepsPosition(cfg: Config, s: State, e: Event)
    requires cfg.Valid() && HostInv(cfg, s) && s.host.pc.Sending? && Next(cfg, s, HostDoes(e)).Some?
    requires 1 <= s.host.sn && s.host.sn + 1 < DISTINCT
    ensures HostInv(cfg, Next(cfg, s, HostDoes(e)).value)
  {
    hide Backed, ChunkOf, IsChunk, Wire;
    var sn := Wire(s.host.sn + 1);
    SameChunk(cfg, s.host.msg, sn);
    SameSlice(cfg.images, s.host.msg, sn);
  }

  lemma SameSlice(images: seq<Image>, m: Msg, sn: nat)
    ensures forall img | img in images :: ChunkOf(img, m) ==> ChunkOf(img, m.(sn := sn))
  {
  }

  /** An accepted reply proves that the packet in flight was processed. */
  lemma WaitingKeepsPosition(cfg: Config, s: State, e: Event)
    requires cfg.Valid() && NetworkInv(cfg, s) && HostInv(cfg, s) && s.host.pc.Waiting? &&
        Next(cfg, s, HostDoes(e)).Some?
    requires s.host.sn < DISTINCT
    ensures HostInv(cfg, Next(cfg, s, HostDoes(e)).value)
  {
    var s' := Next(cfg, s, HostDoes(e)).value;
    if s'.host.pc.Reading? {
      assert e.reply in s.toHost && Done(cfg, s.device, Packet(Ctrl, s.host.msg));
    }
  }

  lemma HostKeepsEarly(cfg: Config, s: State, e: Event, mem0: seq<Byte>)
    requires cfg.Valid() && EarlyInv(cfg, s, mem0) && 1 <= s.host.sn < DISTINCT
    requires Next(cfg, s, HostDoes(e)).Some? && Next(cfg, s, HostDoes(e)).value.host.sn < DISTINCT
    ensures EarlyInv(cfg, Next(cfg, s, HostDoes(e)).value, mem0)
  {
    HostKeepsNetwork(cfg, s, e, mem0);
    match s.host.pc
    case Locating =>
      assert LoadedUpTo(cfg, s.device.mem, 0);
    case Reading => ReadingKeepsPosition(cfg, s, e);
    case Sending(_) => SendingKeepsPosition(cfg, s, e);
    case Waiting(_) => WaitingKeepsPosition(cfg, s, e);
  }

  lemma EarlyIsLate(cfg: Config, s: State, mem0: seq<Byte>)
    requires cfg.Valid() && EarlyInv(cfg, s, mem0)
    ensures LateInv(cfg, s, mem0)
  {
  }

  /** The last number that differs from all others on the wire is behind us, or just going. */
  lemma HostKeepsLate(cfg: Config, s: State, e: Event, mem0: seq<Byte>)
    requires cfg.Valid() && LateInv(cfg, s, mem0) && (s.host.sn < DISTINCT ==> HostInv(cfg, s))
    requires Next(cfg, s, HostDoes(e)).Some?
    requires DISTINCT <= Next(cfg, s, HostDoes(e)).value.host.sn < SAFE
    ensures LateInv(cfg, Next(cfg, s, HostDoes(e)).value, mem0)
  {
    hide HostInv, LoadedUpTo, IsChunk;
    match s.host.pc
    case Reading => ReadingPrepares(cfg, s, e);
    case Sending(_) => SameChunk(cfg, s.host.msg, Wire(s.host.sn + 1));
    case _ =>
  }

  lemma ReadingPrepares(cfg: Config, s: State, e: Event)
    requires cfg.Valid() && s.host.pc.Reading? && (s.host.sn < DISTINCT ==> HostInv(cfg, s))
    requires Next(cfg, s, HostDoes(e)).Some?
    ensures var s' := Next(cfg, s, HostDoes(e)).value;
            s'.host.pc.Sending? && s'.host.sn <= DISTINCT ==> Prepared(cfg, s')
  {
    var h := s.host;
    var s' := Next(cfg, s, HostDoes(e)).value;
    if e.ReadChunk? {
      assert ChunkOf(cfg.images[h.image], s'.host.msg);
    } else if e.ReadEnd? && h.sn < DISTINCT {
      assert s.device.Loading? ==> LoadedUpTo(cfg, s.device.mem, h.image + 1);
    }
  }

  lemma SameChunk(cfg: Config, m: Msg, sn: nat)
    ensures GoodPacket(cfg, Packet(Ctrl, m)) ==> GoodPacket(cfg, Packet(Ctrl, m.(sn := sn)))
  {
    if GoodPacket(cfg, Packet(Ctrl, m)) && m.cmd == NB_CMD_WRITE {
      var j :| 0 <= j < |cfg.images| && ChunkOf(cfg.images[j], m);
      assert ChunkOf(cfg.images[j], m.(sn := sn));
    }
  }

  lemma HostKeepsInv(cfg: Config, s: State, e: Event, mem0: seq<Byte>)
    requires cfg.Valid() && Inv(cfg, s, mem0) && s.host.sn < SAFE
    requires Next(cfg, s, HostDoes(e)).Some?
    ensures Inv(cfg, Next(cfg, s, HostDoes(e)).value, mem0)
  {
    hide LateInv, NetworkInv, DeviceInv, HostInv;
    var s' := Next(cfg, s, HostDoes(e)).value;
    SnMonotone(cfg, s, HostDoes(e));
    if s'.host.sn < DISTINCT {
      HostKeepsEarly(cfg, s, e, mem0);
    } else if s'.host.sn < SAFE {
      if s.host.sn < DISTINCT {
        EarlyIsLate(cfg, s, mem0);
      }
      HostKeepsLate(cfg, s, e, mem0);
    }
  }

  // ---- The theorem ----

  lemma LoadedUpToAll(cfg: Config, mem: seq<Byte>)
    requires cfg.Valid() && |mem| == TWO32
    ensures LoadedUpTo(cfg, mem, |cfg.images|) ==> Loaded(cfg, mem)
  {
    if LoadedUpTo(cfg, mem, |cfg.images|) {
      forall j | 0 <= j < |cfg.images|
        ensures var img := cfg.images[j]; mem[img.addr..img.addr + |img.data|] == img.data
      {
        var img := cfg.images[j];
        forall k | 0 <= k < |img.data|
          ensures mem[img.addr..img.addr + |img.data|][k] == img.data[k]
        {
          assert RightAt(cfg, mem, img.addr + k) && Covers(img, img.addr + k);
        }
      }
    }
  }

  lemma InitInv(cfg: Config, s: State, mem0: seq<Byte>)
    requires cfg.Valid() && Init(s, mem0)
    ensures Inv(cfg, s, mem0)
  {
  }

  lemma {:induction false} RunKeepsInv(cfg: Config, mem0: seq<Byte>, run: seq<State>, n: nat)
    requires cfg.Valid() && Consistent(cfg) && IsRun(cfg, mem0, run) && n < |run|
    ensures Inv(cfg, run[n], mem0)
    ensures forall i | 0 <= i <= n :: run[i].host.sn <= run[n].host.sn
  {
    if n > 0 {
      RunKeepsInv(cfg, mem0, run, n - 1);
      var s, s' := run[n - 1], run[n];
      var step :| Next(cfg, s, step) == Some(s');
      SnMonotone(cfg, s, step);
      hide EarlyInv, LateInv, Next;
      if s.host.sn < SAFE {
        match step
        case HostDoes(e) => HostKeepsInv(cfg, s, e, mem0);
        case Deliver(p) => DeliverKeepsInv(cfg, s, p, mem0);
      }
    } else {
      InitInv(cfg, run[0], mem0);
    }
  }

  /** Whatever the network does, however often sends are retried or whole sessions restarted:
      if the device ever starts executing, it starts at the first image's address, every byte
      of every image is in place, and no other byte of memory was touched. */
  lemma BootSafety(cfg: Config, mem0: seq<Byte>, run: seq<State>, n: nat)
    requires cfg.Valid() && Consistent(cfg) && IsRun(cfg, mem0, run) && n < |run|
    requires run[n].device.Running? && run[n].host.sn < SAFE
    ensures run[n].device.entry == cfg.images[0].addr
    ensures Loaded(cfg, run[n].device.mem)
    ensures OnlyImagesWritten(cfg, mem0, run[n].device.mem)
  {
    RunKeepsInv(cfg, mem0, run, n);
    LoadedUpToAll(cfg, run[n].device.mem);
  }
}
