/** The netboot protocol: messages (tools/netboot.h), the device's packet handler
    (boot/netboot.c) and the host's session loop (tools/netboot.c). */
module Netboot {
  import opened Common

  const NB_MAGIC := 0x1e5dae11
  const NB_CMD_QUERY := 0x56a938e6
  const NB_CMD_WRITE := 0x7b639621
  const NB_CMD_EXEC := 0xbdb9a844
  const NB_CMD_STATUS := 0x9e68e03b
  const NB_OK := 0
  const NB_ERR_BADCMD := 1
  const NB_DATA_MAX := 1024

  datatype Port = Query | Ctrl | Other

  /** `sn` is the sequence number (`seq` in C). A message is NB_MSG_MIN bytes of header and up to
      NB_DATA_MAX bytes of data. */
  datatype Msg = Msg(magic: nat, cmd: nat, sn: nat, arg: nat, db: seq<Byte>)

  datatype Packet = Packet(port: Port, msg: Msg)

  // "device", and the data of the reply to a query: "name=device" and its NUL
  const NODENAME: seq<Byte> := [0x64, 0x65, 0x76, 0x69, 0x63, 0x65]
  const NAME_REPLY: seq<Byte> := [0x6E, 0x61, 0x6D, 0x65, 0x3D] + NODENAME + [0]

  // ---- Device ----

  /** The byte that a copy of `db` to `addr` leaves at `a`; addresses wrap, as the handler sets no limit. */
  function WrittenByte(mem: seq<Byte>, addr: nat, db: seq<Byte>, a: nat): Byte
    requires a < |mem|
  {
    var k := (a - addr) % TWO32;
    if k < |db| then db[k] else mem[a]
  }

  function WriteBytes(mem: seq<Byte>, addr: nat, db: seq<Byte>): seq<Byte>
    requires |mem| == TWO32
  {
    seq(TWO32, a requires 0 <= a < TWO32 => WrittenByte(mem, addr, db, a))
  }

  function Status(m: Msg, arg: nat, db: seq<Byte>): Msg {
    Msg(NB_MAGIC, NB_CMD_STATUS, m.sn, arg, db)
  }

  /** What the handler does with a packet: the new memory, the reply, and the entry point
      when it leaves for the loaded program. */
  datatype Effect = Effect(mem: seq<Byte>, reply: Option<Msg>, entry: Option<nat>)

  function PktRxUdp(mem: seq<Byte>, p: Packet): Effect
    requires |mem| == TWO32
  {
    var m := p.msg;
    if |m.db| > NB_DATA_MAX || m.magic != NB_MAGIC then Effect(mem, None, None)
    else if p.port == Query then
      if m.cmd != NB_CMD_QUERY || m.db != NODENAME then Effect(mem, None, None)
      else Effect(mem, Some(Status(m, NB_OK, NAME_REPLY)), None)
    else if p.port != Ctrl then Effect(mem, None, None)
    else if m.cmd == NB_CMD_QUERY then Effect(mem, Some(Status(m, NB_OK, NAME_REPLY)), None)
    else if m.cmd == NB_CMD_WRITE then Effect(WriteBytes(mem, m.arg, m.db), Some(Status(m, NB_OK, [])), None)
    else if m.cmd == NB_CMD_EXEC then Effect(mem, Some(Status(m, NB_OK, [])), Some(m.arg))
    else Effect(mem, Some(Status(m, NB_ERR_BADCMD, [])), None)
  }

  // ---- Host ----

  datatype Image = Image(data: seq<Byte>, addr: nat)

  /** The images on the command line; `doExit` is the -x option. */
  datatype Config = Config(images: seq<Image>, doExit: bool) {
    ghost predicate Valid() {
      images != [] && forall j | 0 <= j < |images| :: images[j].addr + |images[j].data| <= TWO32
    }
  }

  datatype Pc =
    | Locating              // open_node
    | Reading               // send_file, about to read a chunk of image `image`
    | Sending(retry: nat)   // send_msg, top of the retry loop
    | Waiting(retry: nat)   // send_msg, in poll
    | Finished              // main has returned

  /** `sn` counts every increment of the 32-bit variable; the wire carries it modulo 2^32.
      `offset` is the file position; `exec` tells the message being sent is EXEC. */
  datatype Host = Host(pc: Pc, sn: nat, image: nat, offset: nat, msg: Msg, exec: bool)

  datatype Event =
    | SendQuery
    | HearStatus(status: Msg)
    | LocateFails
    | ReadChunk(len: nat)
    | ReadEnd
    | ReadError
    | Transmit
    | WriteFails
    | Timeout
    | HearReply(reply: Msg)

  function Wire(sn: nat): nat { sn % TWO32 }

  /** send_msg has given up or write failed: a failed file restarts the session, a failed
      EXEC is ignored. */
  function Failed(cfg: Config, h: Host): Host {
    if h.exec then SessionOver(cfg, h) else h.(pc := Locating)
  }

  function SessionOver(cfg: Config, h: Host): Host {
    h.(pc := if cfg.doExit then Finished else Locating)
  }

  function Retry(cfg: Config, h: Host, retry: nat): Host {
    if retry + 1 < 5 then h.(pc := Sending(retry + 1)) else Failed(cfg, h)
  }

  /** One step of the host: None when the event cannot happen here. */
  function HostStep(cfg: Config, h: Host, e: Event): Option<(Host, Option<Packet>)>
    requires cfg.Valid()
  {
    match h.pc
    case Locating => (
      match e
      case SendQuery =>
        var h' := h.(sn := h.sn + 1);
        Some((h', Some(Packet(Query, Msg(NB_MAGIC, NB_CMD_QUERY, Wire(h'.sn), 0, NODENAME)))))
      case HearStatus(m) =>
        if m.magic == NB_MAGIC && m.cmd == NB_CMD_STATUS && m.sn == Wire(h.sn)
        then Some((h.(pc := Reading, image := 0, offset := 0, exec := false), None))
        else Some((h, None))
      case LocateFails => Some((h.(pc := Finished), None))
      case _ => None
    )
    case Reading => (
      if h.image >= |cfg.images| || h.offset > |cfg.images[h.image].data| then None
      else
        var img := cfg.images[h.image];
        match e
        case ReadChunk(n) =>
          if !(1 <= n <= NB_DATA_MAX && h.offset + n <= |img.data|) then None
          else
            var chunk := img.data[h.offset..h.offset + n];
            Some((h.(pc := Sending(0), offset := h.offset + n,
                     msg := Msg(NB_MAGIC, NB_CMD_WRITE, Wire(h.sn), img.addr + h.offset, chunk)), None))
        case ReadEnd =>
          if h.offset != |img.data| then None
          else if h.image + 1 < |cfg.images| then Some((h.(image := h.image + 1, offset := 0), None))
          else
            Some((h.(pc := Sending(0), sn := h.sn + 1, exec := true, image := h.image + 1, offset := 0,
                     msg := Msg(NB_MAGIC, NB_CMD_EXEC, Wire(h.sn + 1), cfg.images[0].addr, [])), None))
        case ReadError => Some((h.(pc := Locating), None))
        case _ => None
    )
    case Sending(retry) => (
      var h' := h.(sn := h.sn + 1, msg := h.msg.(sn := Wire(h.sn + 1)));
      match e
      case Transmit => Some((h'.(pc := Waiting(retry)), Some(Packet(Ctrl, h'.msg))))
      case WriteFails => Some((Failed(cfg, h'), None))
      case _ => None
    )
    case Waiting(retry) => (
      match e
      case Timeout => Some((Retry(cfg, h, retry), None))
      case HearReply(m) =>
        if m.magic != NB_MAGIC || m.cmd != NB_CMD_STATUS || m.sn != Wire(h.sn) then Some((Retry(cfg, h, retry), None))
        else if m.arg != NB_OK then Some((Failed(cfg, h), None))
        else if h.exec then Some((SessionOver(cfg, h), None))
        else Some((h.(pc := Reading), None))
      case _ => None
    )
    case Finished => None
  }

  // ---- Host, device and network ----

  datatype Device = Loading(mem: seq<Byte>) | Running(mem: seq<Byte>, entry: nat)

  /** The network never forgets: any packet ever sent may arrive at any time, any number of
      times, in any order, or never. A reply may reach a later socket of the host than the one that
      asked, since port numbers are used again. */
  datatype State = State(host: Host, device: Device, toDevice: set<Packet>, toHost: set<Msg>)

  datatype Step = HostDoes(e: Event) | Deliver(p: Packet)

  function Next(cfg: Config, s: State, step: Step): Option<State>
    requires cfg.Valid()
  {
    match step
    case HostDoes(e) => (
      if (e.HearStatus? && e.status !in s.toHost) || (e.HearReply? && e.reply !in s.toHost) then None
      else
        match HostStep(cfg, s.host, e)
        case None => None
        case Some((h, out)) =>
          Some(s.(host := h, toDevice := if out.Some? then s.toDevice + {out.value} else s.toDevice))
    )
    case Deliver(p) =>
      if p !in s.toDevice || s.device.Running? || |s.device.mem| != TWO32 then None
      else
        var fx := PktRxUdp(s.device.mem, p);
        Some(s.(device := if fx.entry.Some? then Running(fx.mem, fx.entry.value) else Loading(fx.mem),
                toHost := if fx.reply.Some? then s.toHost + {fx.reply.value} else s.toHost))
  }

  ghost predicate Init(s: State, mem0: seq<Byte>) {
    && |mem0| == TWO32
    && s.host.pc == Locating && s.host.sn == 1
    && s.device == Loading(mem0)
    && s.toDevice == {} && s.toHost == {}
  }

  /** A run from an initial state with device memory `mem0`. */
  ghost predicate IsRun(cfg: Config, mem0: seq<Byte>, run: seq<State>)
    requires cfg.Valid()
  {
    && run != []
    && Init(run[0], mem0)
    && forall i | 0 <= i < |run| - 1 :: Moves(cfg, run[i], run[i + 1])
  }

  ghost predicate Moves(cfg: Config, s: State, s': State)
    requires cfg.Valid()
  {
    exists step :: Next(cfg, s, step) == Some(s')
  }
}
