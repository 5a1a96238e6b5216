/** The safety theorem of netboot is not empty: booting is always possible, and it could not
    be had for images that disagree about a byte. */
module NetbootProgress {
  import opened Common
  import opened Netboot
  import opened NetbootSafety

  /** The state after a list of steps. */
  function Exec(cfg: Config, s: State, steps: seq<Step>): Option<State>
    requires cfg.Valid()
    decreases steps
  {
    if steps == [] then Some(s)
    else
      match Next(cfg, s, steps[0])
      case None => None
      case Some(s') => Exec(cfg, s', steps[1..])
  }

  lemma {:induction false} ExecAppend(cfg: Config, s: State, a: seq<Step>, b: seq<Step>)
    requires cfg.Valid() && Exec(cfg, s, a).Some?
    ensures Exec(cfg, s, a + b) == Exec(cfg, Exec(cfg, s, a).value, b)
    decreases a
  {
    if a == [] {
      assert a + b == b;
    } else {
      assert (a + b)[1..] == a[1..] + b;
      ExecAppend(cfg, Next(cfg, s, a[0]).value, a[1..], b);
    }
  }

  lemma One(cfg: Config, s: State, step: Step)
    requires cfg.Valid() && Next(cfg, s, step).Some?
    ensures Exec(cfg, s, [step]) == Next(cfg, s, step)
  {
    assert [step][1..] == [];
  }

  lemma Then(cfg: Config, s: State, first: seq<Step>, s': State, step: Step)
    requires cfg.Valid() && Exec(cfg, s, first) == Some(s') && Next(cfg, s', step).Some?
    ensures Exec(cfg, s, first + [step]) == Next(cfg, s', step)
  {
    One(cfg, s', step);
    ExecAppend(cfg, s, first, [step]);
  }

  ghost predicate AtFile(cfg: Config, s: State, image: nat, offset: nat) {
    && s.device.Loading? && |s.device.mem| == TWO32
    && s.host.pc == Reading && !s.host.exec && s.host.image == image < |cfg.images|
    && s.host.offset == offset <= |cfg.images[image].data|
  }

  /** One chunk, delivered and acknowledged at the first try. */
  lemma SendChunk(cfg: Config, s: State, image: nat, offset: nat, n: nat) returns (steps: seq<Step>)
    requires cfg.Valid() && AtFile(cfg, s, image, offset)
    requires 1 <= n <= NB_DATA_MAX && offset + n <= |cfg.images[image].data|
    ensures Exec(cfg, s, steps).Some? && AtFile(cfg, Exec(cfg, s, steps).value, image, offset + n)
  {
    var s1 := Next(cfg, s, HostDoes(ReadChunk(n))).value;
    var s2 := Next(cfg, s1, HostDoes(Transmit)).value;
    var p := Packet(Ctrl, s2.host.msg);
    var s3 := Next(cfg, s2, Deliver(p)).value;
    var reply := Status(p.msg, NB_OK, []);
    One(cfg, s, HostDoes(ReadChunk(n)));
    Then(cfg, s, [HostDoes(ReadChunk(n))], s1, HostDoes(Transmit));
    steps := [HostDoes(ReadChunk(n))] + [HostDoes(Transmit)];
    Then(cfg, s, steps, s2, Deliver(p));
    steps := steps + [Deliver(p)];
    Then(cfg, s, steps, s3, HostDoes(HearReply(reply)));
    steps := steps + [HostDoes(HearReply(reply))];
  }

  lemma {:induction false} FinishSession(cfg: Config, s: State, image: nat, offset: nat) returns (steps: seq<Step>)
    requires cfg.Valid() && AtFile(cfg, s, image, offset)
    ensures Exec(cfg, s, steps).Some? && Exec(cfg, s, steps).value.device.Running?
    decreases |cfg.images| - image, |cfg.images[image].data| - offset
  {
    var rest := |cfg.images[image].data| - offset;
    if rest > 0 {
      var n := if rest < NB_DATA_MAX then rest else NB_DATA_MAX;
      var head := SendChunk(cfg, s, image, offset, n);
      var tail := FinishSession(cfg, Exec(cfg, s, head).value, image, offset + n);
      ExecAppend(cfg, s, head, tail);
      steps := head + tail;
    } else {
      var head := [HostDoes(ReadEnd)];
      One(cfg, s, HostDoes(ReadEnd));
      var s1 := Next(cfg, s, HostDoes(ReadEnd)).value;
      if image + 1 < |cfg.images| {
        var tail := FinishSession(cfg, s1, image + 1, 0);
        ExecAppend(cfg, s, head, tail);
        steps := head + tail;
      } else {
        var s2 := Next(cfg, s1, HostDoes(Transmit)).value;
        var p := Packet(Ctrl, s2.host.msg);
        Then(cfg, s, head, s1, HostDoes(Transmit));
        Then(cfg, s, head + [HostDoes(Transmit)], s2, Deliver(p));
        steps := head + [HostDoes(Transmit)] + [Deliver(p)];
      }
    }
  }

  /** Every image list can be booted from every initial state when the network cooperates. */
  lemma CanBoot(cfg: Config, mem0: seq<Byte>, s: State)
    requires cfg.Valid() && Init(s, mem0)
    ensures exists steps :: Exec(cfg, s, steps).Some? && Exec(cfg, s, steps).value.device.Running?
  {
    var s1 := Next(cfg, s, HostDoes(SendQuery)).value;
    var q := Packet(Query, Msg(NB_MAGIC, NB_CMD_QUERY, Wire(s1.host.sn), 0, NODENAME));
    var s2 := Next(cfg, s1, Deliver(q)).value;
    var hear := HostDoes(HearStatus(Status(q.msg, NB_OK, NAME_REPLY)));
    var s3 := Next(cfg, s2, hear).value;
    One(cfg, s, HostDoes(SendQuery));
    Then(cfg, s, [HostDoes(SendQuery)], s1, Deliver(q));
    var head := [HostDoes(SendQuery)] + [Deliver(q)];
    Then(cfg, s, head, s2, hear);
    head := head + [hear];
    var tail := FinishSession(cfg, s3, 0, 0);
    ExecAppend(cfg, s, head, tail);
  }

  ghost function ByteFor(cfg: Config, a: nat): Byte {
    if j :| 0 <= j < |cfg.images| && Covers(cfg.images[j], a) then cfg.images[j].data[a - cfg.images[j].addr] else 0
  }

  /** The assumption on overlaps is exactly what makes the promise satisfiable at all. */
  lemma LoadableIffConsistent(cfg: Config)
    requires cfg.Valid()
    ensures (exists mem: seq<Byte> :: |mem| == TWO32 && Loaded(cfg, mem)) <==> Consistent(cfg)
  {
    if mem: seq<Byte> :| |mem| == TWO32 && Loaded(cfg, mem) {
      forall j, k, a: nat | 0 <= j < |cfg.images| && 0 <= k < |cfg.images| && Covers(cfg.images[j], a) &&
          Covers(cfg.images[k], a)
        ensures cfg.images[j].data[a - cfg.images[j].addr] == cfg.images[k].data[a - cfg.images[k].addr]
      {
        var x, y := cfg.images[j], cfg.images[k];
        assert mem[x.addr..x.addr + |x.data|][a - x.addr] == mem[a] == mem[y.addr..y.addr + |y.data|][a - y.addr];
      }
    }
    if Consistent(cfg) {
      var mem := seq(TWO32, (a: nat) => ByteFor(cfg, a));
      forall j | 0 <= j < |cfg.images|
        ensures var img := cfg.images[j]; mem[img.addr..img.addr + |img.data|] == img.data
      {
        var img := cfg.images[j];
        forall k | 0 <= k < |img.data|
          ensures mem[img.addr..img.addr + |img.data|][k] == img.data[k]
        {
          assert Covers(img, img.addr + k);
        }
      }
      assert Loaded(cfg, mem);
    }
  }
}
