/** The two netboot routines that work in place, proved against the protocol's step functions:
    the device's packet handler and the host's retry loop. */
module NetbootCode {
  import opened Common
  import opened Netboot

  /** A received message in its packet buffer. */
  class MsgBuffer {
    var magic: nat
    var cmd: nat
    var sn: nat
    var arg: nat
    var db: seq<Byte>

    function Value(): Msg
      reads this
    {
      Msg(magic, cmd, sn, arg, db)
    }
  }

  /** The device turns the message into its own reply and copies data straight into memory. */
  method HandlePacket(ram: array<Byte>, port: Port, msg: MsgBuffer) returns (reply: Option<Msg>, entry: Option<nat>)
    requires ram.Length == TWO32
    modifies ram, msg
    ensures var fx := PktRxUdp(old(ram[..]), Packet(port, old(msg.Value())));
            ram[..] == fx.mem && reply == fx.reply && entry == fx.entry
  {
    if |msg.db| > NB_DATA_MAX || msg.magic != NB_MAGIC {
      return None, None;
    }
    if port == Query {
      if msg.cmd != NB_CMD_QUERY || |msg.db| != |NODENAME| || msg.db != NODENAME {
        return None, None;
      }
      reply := QueryReply(msg);
      return reply, None;
    }
    if port != Ctrl {
      return None, None;
    }
    if msg.cmd == NB_CMD_QUERY {
      reply := QueryReply(msg);
      return reply, None;
    } else if msg.cmd == NB_CMD_WRITE {
      CopyIn(ram, msg.arg, msg.db);
      msg.cmd := NB_CMD_STATUS;
      msg.arg := NB_OK;
      return Some(msg.Value().(db := [])), None;
    } else if msg.cmd == NB_CMD_EXEC {
      entry := Some(msg.arg);
      msg.cmd := NB_CMD_STATUS;
      msg.arg := NB_OK;
      return Some(msg.Value().(db := [])), entry;
    } else {
      msg.cmd := NB_CMD_STATUS;
      msg.arg := NB_ERR_BADCMD;
      return Some(msg.Value().(db := [])), None;
    }
  }

  method QueryReply(msg: MsgBuffer) returns (reply: Option<Msg>)
    modifies msg
    ensures reply == Some(Msg(old(msg.magic), NB_CMD_STATUS, old(msg.sn), NB_OK, NAME_REPLY))
  {
    msg.db := NAME_REPLY;
    msg.cmd := NB_CMD_STATUS;
    msg.arg := NB_OK;
    return Some(msg.Value());
  }

  method CopyIn(ram: array<Byte>, addr: nat, db: seq<Byte>)
    requires ram.Length == TWO32 && |db| <= TWO32
    modifies ram
    ensures ram[..] == WriteBytes(old(ram[..]), addr, db)
  {
    ghost var was := ram[..];
    var i := 0;
    while i < |db|
      invariant 0 <= i <= |db|
      invariant forall a | 0 <= a < TWO32 :: ram[a] == WrittenByte(was, addr, db[..i], a)
    {
      forall a: nat | a < TWO32
        ensures WrittenByte(was, addr, db[..i + 1], a) ==
                if a == (addr + i) % TWO32 then db[i] else WrittenByte(was, addr, db[..i], a)
      {
        OffsetOf(addr, i, a);
      }
      ram[(addr + i) % TWO32] := db[i];
      i := i + 1;
    }
    assert db[..i] == db;
  }

  lemma OffsetOf(addr: nat, i: nat, a: nat)
    requires a < TWO32 && i < TWO32
    ensures (a - addr) % TWO32 == i <==> a == (addr + i) % TWO32
  {
  }

  // ---- The host's retry loop ----

  /** What one turn of the retry loop meets. */
  datatype Try = WriteError | NoAnswer | Answer(m: Msg)

  /** The protocol steps that the turns stand for, until the host leaves send_msg. */
  function Drive(cfg: Config, h: Host, tries: seq<Try>): (r: (Host, seq<Packet>))
    requires cfg.Valid()
    decreases tries
  {
    if tries == [] || !h.pc.Sending? then (h, [])
    else if tries[0].WriteError? then (HostStep(cfg, h, WriteFails).value.0, [])
    else
      var (h1, out) := HostStep(cfg, h, Transmit).value;
      var h2 := HostStep(cfg, h1, if tries[0].NoAnswer? then Timeout else HearReply(tries[0].m)).value.0;
      var (h3, more) := Drive(cfg, h2, tries[1..]);
      (h3, [out.value] + more)
  }

  predicate Accepted(t: Try, sn: nat) {
    t.Answer? && t.m.magic == NB_MAGIC && t.m.cmd == NB_CMD_STATUS && t.m.sn == sn
  }

  /** The host after one turn that put a datagram on the wire. */
  function After(cfg: Config, h: Host, t: Try): Host {
    var h' := h.(sn := h.sn + 1, msg := h.msg.(sn := Wire(h.sn + 1)));
    if !Accepted(t, h'.msg.sn) then Retry(cfg, h', if h.pc.Sending? then h.pc.retry else 0)
    else if t.m.arg != NB_OK then Failed(cfg, h')
    else if h.exec then SessionOver(cfg, h')
    else h'.(pc := Reading)
  }

  lemma Turn(cfg: Config, h: Host, tries: seq<Try>, k: nat)
    requires cfg.Valid() && k < |tries| && h.pc.Sending?
    ensures tries[k].WriteError? ==>
              Drive(cfg, h, tries[k..]) == (Failed(cfg, h.(sn := h.sn + 1, msg := h.msg.(sn := Wire(h.sn + 1)))), [])
    ensures !tries[k].WriteError? ==>
              var next := Drive(cfg, After(cfg, h, tries[k]), tries[k + 1..]);
              Drive(cfg, h, tries[k..]) == (next.0, [Packet(Ctrl, h.msg.(sn := Wire(h.sn + 1)))] + next.1)
  {
    assert tries[k..][1..] == tries[k + 1..];
  }

  /** Where a turn leaves the host. */
  lemma AfterTurn(cfg: Config, h: Host, t: Try)
    requires cfg.Valid() && h.pc.Sending? && h.pc.retry < 5
    ensures var g, sn := After(cfg, h, t), Wire(h.sn + 1);
            && g.sn == h.sn + 1 && g.exec == h.exec && g.msg == h.msg.(sn := sn)
            && g.pc == if !Accepted(t, sn)
                then (if h.pc.retry + 1 < 5 then Sending(h.pc.retry + 1) else Failed(cfg, h).pc)
                       else if t.m.arg != NB_OK then Failed(cfg, h).pc
                       else if h.exec then SessionOver(cfg, h).pc
                       else Reading
  {
  }

  lemma FailedPc(cfg: Config, h: Host, g: Host)
    requires g.exec == h.exec
    ensures Failed(cfg, g).pc == Failed(cfg, h).pc && SessionOver(cfg, g).pc == SessionOver(cfg, h).pc
    ensures !Failed(cfg, h).pc.Sending? && !SessionOver(cfg, h).pc.Sending?
  {
  }

  lemma FailedSn(cfg: Config, h: Host)
    ensures Failed(cfg, h).sn == h.sn
  {
  }

  lemma Stop(cfg: Config, h: Host, tries: seq<Try>)
    requires cfg.Valid() && !h.pc.Sending?
    ensures Drive(cfg, h, tries) == (h, [])
  {
  }

  lemma WireNext(sn: nat)
    ensures (Wire(sn) + 1) % TWO32 == Wire(sn + 1)
  {
  }

  // ---- A file ----

  /** What read() brings, and the answers met while the chunk is sent. */
  datatype Read = Chunk(n: nat, tries: seq<Try>) | EndOfFile | Error

  /** Results, from `input[k]` on, that read() may give from `offset` on. */
  predicate Reads(img: Image, offset: nat, input: seq<Read>, k: nat)
    decreases |input| - k
  {
    && k < |input|
    && match input[k]
       case Chunk(n, tries) =>
         1 <= n <= NB_DATA_MAX && offset + n <= |img.data| && |tries| >= 5 && Reads(img, offset + n, input, k + 1)
       case EndOfFile => offset == |img.data|
       case Error => true
  }

  predicate AtImage(cfg: Config, h: Host) {
    h.pc == Reading && !h.exec && h.image < |cfg.images| && h.offset <= |cfg.images[h.image].data|
  }

  lemma {:induction false} DriveKeepsPosition(cfg: Config, h: Host, tries: seq<Try>)
    requires cfg.Valid()
    ensures var end := Drive(cfg, h, tries).0;
            end.image == h.image && end.offset == h.offset && end.exec == h.exec && h.sn <= end.sn
    decreases tries
  {
    if tries != [] && h.pc.Sending? && !tries[0].WriteError? {
      var h1 := HostStep(cfg, h, Transmit).value.0;
      var h2 := HostStep(cfg, h1, if tries[0].NoAnswer? then Timeout else HearReply(tries[0].m)).value.0;
      DriveKeepsPosition(cfg, h2, tries[1..]);
    }
  }

  function NextChunk(cfg: Config, h: Host, n: nat): Host
    requires cfg.Valid() && AtImage(cfg, h) && 1 <= n <= NB_DATA_MAX && h.offset + n <= |cfg.images[h.image].data|
  {
    HostStep(cfg, h, ReadChunk(n)).value.0
  }

  /** The protocol steps behind one send_file: up to the end of the file, or out of the session. */
  function DriveFile(cfg: Config, h: Host, input: seq<Read>, k: nat): (r: (Host, seq<Packet>))
    requires cfg.Valid() && AtImage(cfg, h) && Reads(cfg.images[h.image], h.offset, input, k)
    decreases |input| - k
  {
    match input[k]
    case EndOfFile => (h, [])
    case Error => (HostStep(cfg, h, ReadError).value.0, [])
    case Chunk(n, tries) =>
      var h1 := NextChunk(cfg, h, n);
      var (h2, out) := Drive(cfg, h1, tries);
      DriveKeepsPosition(cfg, h1, tries);
      if h2.pc != Reading then (h2, out)
      else
        var (h3, more) := DriveFile(cfg, h2, input, k + 1);
        (h3, out + more)
  }

  lemma NextChunkIs(cfg: Config, h: Host, n: nat)
    requires cfg.Valid() && AtImage(cfg, h) && 1 <= n <= NB_DATA_MAX && h.offset + n <= |cfg.images[h.image].data|
    ensures var h1, img := NextChunk(cfg, h, n), cfg.images[h.image];
            && h1.pc == Sending(0) && h1.sn == h.sn && !h1.exec && Failed(cfg, h1).pc == Locating
            && h1.msg == Msg(NB_MAGIC, NB_CMD_WRITE, Wire(h.sn), img.addr + h.offset, img.data[h.offset..h.offset + n])
  {
  }

  /** One chunk of DriveFile. */
  lemma FileTurn(cfg: Config, h: Host, input: seq<Read>, k: nat)
    requires cfg.Valid() && AtImage(cfg, h) && Reads(cfg.images[h.image], h.offset, input, k) && input[k].Chunk?
    ensures var n, tries := input[k].n, input[k].tries;
            && 1 <= n <= NB_DATA_MAX && h.offset + n <= |cfg.images[h.image].data| && |tries| >= 5
            && var (h2, out) := Drive(cfg, NextChunk(cfg, h, n), tries);
            && h2.image == h.image && h2.offset == h.offset + n && h2.exec == h.exec &&
                (h2.pc == Reading ==> AtImage(cfg, h2))
            && Reads(cfg.images[h.image], h.offset + n, input, k + 1)
            && DriveFile(cfg, h, input, k) ==
                 if h2.pc != Reading then (h2, out)
                 else (DriveFile(cfg, h2, input, k + 1).0, out + DriveFile(cfg, h2, input, k + 1).1)
  {
    DriveKeepsPosition(cfg, NextChunk(cfg, h, input[k].n), input[k].tries);
  }

  /** Where send_msg stands: `sent` and what the turns from `retry` on bring make up `end`. */
  ghost predicate Trying(cfg: Config, end: (Host, seq<Packet>), h: Host, g: Host, tries: seq<Try>, retry: nat,
      sent: seq<Packet>)
  {
    && cfg.Valid() && retry <= 5 <= |tries| && g.exec == h.exec && |sent| == retry
    && g.pc == (if retry < 5 then Sending(retry) else Failed(cfg, h).pc)
    && end == (Drive(cfg, g, tries[retry..]).0, sent + Drive(cfg, g, tries[retry..]).1)
  }

  lemma TryingTurn(cfg: Config, end: (Host, seq<Packet>), h: Host, g: Host, tries: seq<Try>, retry: nat,
      sent: seq<Packet>)
    requires Trying(cfg, end, h, g, tries, retry, sent) && retry < 5
    ensures var t, sn, g' := tries[retry], Wire(g.sn + 1), After(cfg, g, tries[retry]);
            var sent' := sent + [Packet(Ctrl, g.msg.(sn := sn))];
            if t.WriteError? then end.0.pc == Failed(cfg, h).pc && end.0.sn == g.sn + 1 && end.1 == sent
            else
              && g'.sn == g.sn + 1 && g'.msg == g.msg.(sn := sn)
              && if !Accepted(t, sn) then Trying(cfg, end, h, g', tries, retry + 1, sent')
                 else
                   && end == (g', sent')
                   && g'.pc == (if t.m.arg != NB_OK then Failed(cfg, h) else if h.exec then SessionOver(cfg, h)
                       else g.(pc := Reading)).pc
  {
    var t, failing := tries[retry], g.(sn := g.sn + 1, msg := g.msg.(sn := Wire(g.sn + 1)));
    Turn(cfg, g, tries, retry);
    AfterTurn(cfg, g, t);
    FailedPc(cfg, h, g);
    FailedPc(cfg, h, failing);
    FailedSn(cfg, failing);
    hide Drive, HostStep, Wire, After, Failed, SessionOver, Retry, Config.Valid;
    Regroup(sent, [Packet(Ctrl, g.msg.(sn := Wire(g.sn + 1)))], Drive(cfg, After(cfg, g, t), tries[retry + 1..]).1);
    if !t.WriteError? && Accepted(t, Wire(g.sn + 1)) {
      FailedPc(cfg, h, h);
      Stop(cfg, After(cfg, g, t), tries[retry + 1..]);
      Regroup(sent + [Packet(Ctrl, g.msg.(sn := Wire(g.sn + 1)))], [], []);
    }
  }

  /** After the last try. */
  lemma TryingEnd(cfg: Config, end: (Host, seq<Packet>), h: Host, g: Host, tries: seq<Try>, sent: seq<Packet>)
    requires Trying(cfg, end, h, g, tries, 5, sent)
    ensures end == (g, sent) && g.pc == Failed(cfg, h).pc
  {
    FailedPc(cfg, h, h);
    Stop(cfg, g, tries[5..]);
    Regroup(sent, [], []);
  }

  /** Where send_file stands: `sent` and what is to come from `input[k]` on make up `end`. */
  ghost predicate SoFar(cfg: Config, end: (Host, seq<Packet>), image: Image, g: Host, input: seq<Read>, k: nat,
      sent: seq<Packet>)
  {
    && cfg.Valid() && AtImage(cfg, g) && cfg.images[g.image] == image && Reads(image, g.offset, input, k)
    && end == (DriveFile(cfg, g, input, k).0, sent + DriveFile(cfg, g, input, k).1)
  }

  lemma SoFarStart(cfg: Config, h: Host, input: seq<Read>)
    requires cfg.Valid() && AtImage(cfg, h) && Reads(cfg.images[h.image], h.offset, input, 0)
    ensures SoFar(cfg, DriveFile(cfg, h, input, 0), cfg.images[h.image], h, input, 0, [])
  {
    Regroup([], [], DriveFile(cfg, h, input, 0).1);
  }

  lemma SoFarTurn(cfg: Config, end: (Host, seq<Packet>), image: Image, g: Host, input: seq<Read>, k: nat,
      sent: seq<Packet>)
    requires SoFar(cfg, end, image, g, input, k, sent) && input[k].Chunk?
    ensures var n, tries := input[k].n, input[k].tries;
            && 1 <= n <= NB_DATA_MAX && g.offset + n <= |image.data| && |tries| >= 5
            && var (h2, out) := Drive(cfg, NextChunk(cfg, g, n), tries);
            && h2.image == g.image && h2.offset == g.offset + n
            && if h2.pc == Reading then SoFar(cfg, end, image, h2, input, k + 1, sent + out)
                else end == (h2, sent + out)
  {
    FileTurn(cfg, g, input, k);
    var (h2, out) := Drive(cfg, NextChunk(cfg, g, input[k].n), input[k].tries);
    hide Drive, DriveFile, NextChunk, Reads, AtImage, Config.Valid;
    if h2.pc == Reading {
      Regroup(sent, out, DriveFile(cfg, h2, input, k + 1).1);
    }
  }

  lemma SoFarEnd(cfg: Config, end: (Host, seq<Packet>), image: Image, g: Host, input: seq<Read>, k: nat,
      sent: seq<Packet>)
    requires SoFar(cfg, end, image, g, input, k, sent) && (k < |input| ==> !input[k].Chunk?)
    ensures k < |input| && end == ((if input[k].Error? then g.(pc := Locating) else g), sent)
    ensures AtImage(cfg, g) && (input[k].EndOfFile? ==> g.offset == |image.data|)
  {
    Regroup(sent, [], []);
  }

  class Sender {
    var seqno: nat  // static uint32_t seq

    /** send_msg: at most five datagrams, each under a fresh number; 0 only for a matching
        STATUS with NB_OK. It ends where the protocol steps end. */
    method SendMsg(ghost cfg: Config, ghost h: Host, message: Msg, tries: seq<Try>) returns (r: int, sent: seq<Packet>)
      requires cfg.Valid() && h.pc == Sending(0) && message == h.msg && seqno == Wire(h.sn) && |tries| >= 5
      modifies this
      ensures var end := Drive(cfg, h, tries);
              && sent == end.1 && |sent| <= 5
              && seqno == Wire(end.0.sn)
              && (r == 0 || r == -1)
              && end.0.pc == (if r == -1 then Failed(cfg, h).pc else if h.exec then SessionOver(cfg, h).pc else Reading)
    {
      var msg := message;
      sent := [];
      var retry := 0;
      ghost var g := h;
      ghost var end := Drive(cfg, h, tries);
      assert tries[0..] == tries;
      Regroup([], [], end.1);
      assert Trying(cfg, end, h, g, tries, retry, sent);
      hide Trying, Drive, HostStep, Wire, After, Failed, SessionOver, Retry;
      while retry < 5
        invariant 0 <= retry <= 5 && |sent| == retry && Trying(cfg, end, h, g, tries, retry, sent)
        invariant seqno == Wire(g.sn) && msg == g.msg
      {
        TryingTurn(cfg, end, h, g, tries, retry, sent);
        WireNext(g.sn);
        seqno := (seqno + 1) % TWO32;
        msg := msg.(sn := seqno);
        if tries[retry] == WriteError {
          return -1, sent;
        }
        g := After(cfg, g, tries[retry]);
        sent := sent + [Packet(Ctrl, msg)];
        if tries[retry].Answer? {
          var rsp := tries[retry].m;
          if rsp.magic == NB_MAGIC && rsp.cmd == NB_CMD_STATUS && rsp.sn == seqno {
            return if rsp.arg != NB_OK then -1 else 0, sent;
          }
        }
        retry := retry + 1;
      }
      TryingEnd(cfg, end, h, g, tries, sent);
      return -1, sent;
    }

    /** The body of send_file's loop, once a chunk has been read. */
    method SendChunk(ghost cfg: Config, ghost h: Host, chunk: seq<Byte>, addr: nat, tries: seq<Try>)
        returns (r: int, sent: seq<Packet>)
      requires cfg.Valid() && AtImage(cfg, h) && 1 <= |chunk| <= NB_DATA_MAX && |tries| >= 5 && seqno == Wire(h.sn)
      requires var img := cfg.images[h.image];
               addr == img.addr + h.offset && h.offset + |chunk| <= |img.data| &&
                 chunk == img.data[h.offset..h.offset + |chunk|]
      modifies this
      ensures var end := Drive(cfg, NextChunk(cfg, h, |chunk|), tries);
              && sent == end.1 && seqno == Wire(end.0.sn) && end.0.pc == if r == 0 then Reading else Locating
    {
      NextChunkIs(cfg, h, |chunk|);
      hide Drive, NextChunk, Failed, Wire;
      var msg := Msg(NB_MAGIC, NB_CMD_WRITE, seqno, addr, chunk);
      r, sent := SendMsg(cfg, NextChunk(cfg, h, |chunk|), msg, tries);
    }

    /** send_file: the chunks of the image go out one after the other, each at its own address,
        until the file or the patience with the device is at an end. */
    method SendFile(ghost cfg: Config, ghost h: Host, image: Image, input: seq<Read>)
        returns (r: int, sent: seq<Packet>)
      requires cfg.Valid() && AtImage(cfg, h) && h.offset == 0 && image == cfg.images[h.image] &&
          Reads(image, 0, input, 0)
      requires seqno == Wire(h.sn)
      modifies this
      ensures var end := DriveFile(cfg, h, input, 0);
              && sent == end.1 && seqno == Wire(end.0.sn)
              && (if r == 0 then AtImage(cfg, end.0) && end.0.image == h.image && end.0.offset == |image.data|
                  else end.0.pc == Locating)
    {
      hide Drive, DriveFile, Wire, NextChunk, Reads, SoFar, Config.Valid, Failed, SessionOver, HostStep;
      SoFarStart(cfg, h, input);
      var addr, offset: nat := image.addr, 0;
      sent := [];
      var k := 0;
      ghost var g := h;
      ghost var end := DriveFile(cfg, h, input, 0);
      while k < |input| && input[k].Chunk?
        invariant k <= |input| && SoFar(cfg, end, image, g, input, k, sent)
        invariant g.image == h.image && g.offset == offset && addr == image.addr + offset && seqno == Wire(g.sn)
      {
        var n := input[k].n;
        SoFarTurn(cfg, end, image, g, input, k, sent);
        AtImageStill(cfg, end, image, g, input, k, sent);
        var status, out := SendChunk(cfg, g, image.data[offset..offset + n], addr, input[k].tries);
        g := Drive(cfg, NextChunk(cfg, g, n), input[k].tries).0;
        addr, offset := addr + n, offset + n;
        if status != 0 {
          return -1, sent + out;
        }
        sent, k := sent + out, k + 1;
      }
      SoFarEnd(cfg, end, image, g, input, k, sent);
      r := if input[k] == EndOfFile then 0 else -1;
    }
  }

  lemma AtImageStill(cfg: Config, end: (Host, seq<Packet>), image: Image, g: Host, input: seq<Read>, k: nat,
      sent: seq<Packet>)
    requires SoFar(cfg, end, image, g, input, k, sent)
    ensures AtImage(cfg, g) && cfg.images[g.image] == image
  {
  }

  lemma Regroup(a: seq<Packet>, b: seq<Packet>, c: seq<Packet>)
    ensures a + (b + c) == (a + b) + c && a + [] == a && [] + c == c
  {
  }
}
