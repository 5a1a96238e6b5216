/** How far the safety of netboot goes. The sequence number has 32 bits, and after 2^32 of them a reply
    from the beginning can acknowledge a datagram that was lost. */
module NetbootLimit {
  import opened Common
  import opened Netboot
  import opened NetbootSafety

  /** A device that executes was loaded completely, and touched nowhere else. */
  ghost predicate SafelyBooted(cfg: Config, mem0: seq<Byte>, s: State) {
    s.device.Running? ==>
      && cfg.images != [] && s.device.entry == cfg.images[0].addr
      && Loaded(cfg, s.device.mem) && OnlyImagesWritten(cfg, mem0, s.device.mem)
  }

  /** All runs are safe as long as the host's number stays below `bound`. */
  ghost predicate SafeBelow(bound: nat) {
    forall cfg: Config, mem0: seq<Byte>, run: seq<State>, n: nat |
      cfg.Valid() && Consistent(cfg) && IsRun(cfg, mem0, run) && n < |run| && run[n].host.sn < bound ::
      SafelyBooted(cfg, mem0, run[n])
  }

  // ---- A run that goes wrong ----

  lemma Follow(cfg: Config, mem0: seq<Byte>, run: seq<State>, step: Step) returns (longer: seq<State>)
    requires cfg.Valid() && IsRun(cfg, mem0, run) && Next(cfg, run[|run| - 1], step).Some?
    ensures longer == run + [Next(cfg, run[|run| - 1], step).value]
    ensures IsRun(cfg, mem0, longer)
  {
    hide Next;
    var s' := Next(cfg, run[|run| - 1], step).value;
    assert Moves(cfg, run[|run| - 1], s');
    longer := run + [s'];
    forall i | 0 <= i < |longer| - 1
      ensures Moves(cfg, longer[i], longer[i + 1])
    {
      if i < |run| - 1 {
        assert Moves(cfg, run[i], run[i + 1]);
      }
    }
  }

  function Query(sn: nat): Packet { Packet(Port.Query, Msg(NB_MAGIC, NB_CMD_QUERY, Wire(sn), 0, NODENAME)) }

  /** The answer to the query with that number. */
  function Answer(sn: nat): Msg { Status(Query(sn).msg, NB_OK, NAME_REPLY) }

  ghost predicate Querying(mem0: seq<Byte>, s: State, sn: nat) {
    && |mem0| == TWO32 && s.device == Loading(mem0)
    && s.host.pc == Locating && s.host.sn == sn
  }

  /** The host asks `k` more times, and nothing arrives. */
  lemma {:induction false} AskAgain(cfg: Config, mem0: seq<Byte>, run: seq<State>, k: nat) returns (longer: seq<State>)
    requires cfg.Valid() && IsRun(cfg, mem0, run) && Querying(mem0, run[|run| - 1], run[|run| - 1].host.sn)
    ensures IsRun(cfg, mem0, longer)
    ensures var s, s' := run[|run| - 1], longer[|longer| - 1];
            && Querying(mem0, s', s.host.sn + k) && s'.toHost == s.toHost
            && (0 < k ==> Query(s'.host.sn) in s'.toDevice)
    decreases k
  {
    hide IsRun;
    longer := run;
    if k > 0 {
      longer := AskAgain(cfg, mem0, run, k - 1);
      longer := Follow(cfg, mem0, longer, HostDoes(SendQuery));
    }
  }

  /** The last query arrives and is answered. */
  lemma Answered(cfg: Config, mem0: seq<Byte>, run: seq<State>) returns (longer: seq<State>)
    requires cfg.Valid() && IsRun(cfg, mem0, run)
    requires var s := run[|run| - 1]; Querying(mem0, s, s.host.sn) && Query(s.host.sn) in s.toDevice
    ensures IsRun(cfg, mem0, longer)
    ensures var s, s' := run[|run| - 1], longer[|longer| - 1];
            Querying(mem0, s', s.host.sn) && s'.toHost == s.toHost + {Answer(s.host.sn)}
  {
    longer := Follow(cfg, mem0, run, Deliver(Query(run[|run| - 1].host.sn)));
  }

  /** The first query is answered, but the file cannot be read and the session ends; later the query with
      number 2^32 + 1 is answered too. */
  lemma AllNumbersUsed(cfg: Config, mem0: seq<Byte>) returns (run: seq<State>)
    requires cfg.Valid() && |mem0| == TWO32
    ensures IsRun(cfg, mem0, run)
    ensures var s := run[|run| - 1];
            Querying(mem0, s, TWO32 + 1) && Answer(2) in s.toHost && Answer(TWO32 + 1) in s.toHost
  {
    var host := Host(Locating, 1, 0, 0, Msg(0, 0, 0, 0, []), false);
    run := [State(host, Loading(mem0), {}, {})];
    run := AskAgain(cfg, mem0, run, 1);
    run := Answered(cfg, mem0, run);
    run := Follow(cfg, mem0, run, HostDoes(HearStatus(Answer(2))));
    run := Follow(cfg, mem0, run, HostDoes(ReadError));
    run := AskAgain(cfg, mem0, run, TWO32 - 1);
    run := Answered(cfg, mem0, run);
  }

  ghost predicate OneChunk(cfg: Config) {
    cfg.Valid() && |cfg.images| == 1 && 1 <= |cfg.images[0].data| <= NB_DATA_MAX
  }

  /** The only chunk of the file is lost. The network brings the answer to the first query again, and the
      new socket, which has the port number of the first one, takes it for the acknowledgement. */
  lemma ChunkLost(cfg: Config, mem0: seq<Byte>) returns (run: seq<State>)
    requires OneChunk(cfg) && |mem0| == TWO32
    ensures IsRun(cfg, mem0, run)
    ensures var s := run[|run| - 1];
            && s.device == Loading(mem0) && s.host.sn == TWO32 + 2
            && s.host.pc == Reading && s.host.image == 0 && s.host.offset == |cfg.images[0].data|
  {
    hide IsRun;
    run := AllNumbersUsed(cfg, mem0);
    run := Follow(cfg, mem0, run, HostDoes(HearStatus(Answer(TWO32 + 1))));
    run := Follow(cfg, mem0, run, HostDoes(ReadChunk(|cfg.images[0].data|)));
    run := Follow(cfg, mem0, run, HostDoes(Transmit));
    run := Follow(cfg, mem0, run, HostDoes(HearReply(Answer(2))));
  }

  /** So any image that fits one chunk can be started without a byte of it being loaded. */
  lemma StaleReplyBoots(cfg: Config, mem0: seq<Byte>) returns (run: seq<State>)
    requires OneChunk(cfg) && |mem0| == TWO32
    ensures IsRun(cfg, mem0, run)
    ensures var s := run[|run| - 1];
            s.device == Running(mem0, cfg.images[0].addr) && s.host.sn == SAFE
  {
    hide IsRun;
    run := ChunkLost(cfg, mem0);
    run := Follow(cfg, mem0, run, HostDoes(ReadEnd));
    run := Follow(cfg, mem0, run, HostDoes(Transmit));
    run := Follow(cfg, mem0, run, Deliver(Packet(Ctrl, run[|run| - 1].host.msg)));
  }

  /** Safety for all images and all runs, up to this number and no further. */
  lemma BootSafetyIff(bound: nat)
    ensures SafeBelow(bound) <==> bound <= SAFE
  {
    if bound <= SAFE {
      forall cfg: Config, mem0: seq<Byte>, run: seq<State>, n: nat |
        cfg.Valid() && Consistent(cfg) && IsRun(cfg, mem0, run) && n < |run| && run[n].host.sn < bound
        ensures SafelyBooted(cfg, mem0, run[n])
      {
        if run[n].device.Running? {
          BootSafety(cfg, mem0, run, n);
        }
      }
    } else {
      var cfg := Config([Image([1], 0)], true);
      var mem0 := seq(TWO32, _ => 0 as Byte);
      var run := StaleReplyBoots(cfg, mem0);
      NotLoaded(cfg, mem0);
      assert !SafelyBooted(cfg, mem0, run[|run| - 1]);
    }
  }

  lemma NotLoaded(cfg: Config, mem: seq<Byte>)
    requires cfg.images == [Image([1], 0)] && |mem| == TWO32 && mem[0] == 0
    ensures Consistent(cfg) && !Loaded(cfg, mem)
  {
    assert mem[0..1][0] == 0;
    assert cfg.images[0] == Image([1], 0);
  }
}
