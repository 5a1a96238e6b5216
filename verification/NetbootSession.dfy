/** What send_msg comes to, and where the host goes on, told by what its five tries meet. */
module NetbootSession {
  import opened Common
  import opened Netboot
  import opened NetbootCode

  /** A try that ends send_msg: the write fails, or a status with the number just sent arrives. */
  predicate Decisive(t: Try, sn: nat) {
    t.WriteError? || (t.Answer? && t.m.magic == 0x1e5d_ae11 && t.m.cmd == 0x9e68_e03b && t.m.sn == sn)
  }

  /** The wire number of try `k`. */
  function NumberOf(h: Host, k: nat): nat { (h.sn + k + 1) % 0x1_0000_0000 }

  /** Try `k` is the first that is decisive, or there is none and `k` is 5. */
  predicate Ends(h: Host, tries: seq<Try>, k: nat) {
    && k <= 5 <= |tries|
    && (forall j: nat | j < k :: !Decisive(tries[j], NumberOf(h, j)))
    && (k < 5 ==> Decisive(tries[k], NumberOf(h, k)))
  }

  predicate Succeeds(tries: seq<Try>, k: nat)
    requires k <= 5 <= |tries|
  {
    k < 5 && tries[k].Answer? && tries[k].m.arg == 0
  }

  /** Where main goes on: after a WRITE to the next chunk, or back to looking for the node when it failed; after
      the EXEC, answered or not, it is done under -x and looks for the node again without. */
  function GoesOn(cfg: Config, exec: bool, success: bool): Pc {
    if exec then (if cfg.doExit then Finished else Locating) else if success then Reading else Locating
  }

  lemma {:induction false} EndsSomewhere(h: Host, tries: seq<Try>, k: nat) returns (end: nat)
    requires k <= 5 <= |tries| && forall j: nat | j < k :: !Decisive(tries[j], NumberOf(h, j))
    ensures Ends(h, tries, end)
    decreases 5 - k
  {
    if k == 5 || Decisive(tries[k], NumberOf(h, k)) {
      end := k;
    } else {
      end := EndsSomewhere(h, tries, k + 1);
    }
  }

  /** The host after `r` tries in vain. */
  function AfterTries(cfg: Config, h: Host, r: nat): Host
    requires r <= 5
  {
    if r == 0 then h
    else
      h.(sn := h.sn + r, msg := h.msg.(sn := NumberOf(h, r - 1)),
         pc := if r < 5 then Sending(r) else GoesOn(cfg, h.exec, false))
  }

  lemma InVain(cfg: Config, h: Host, t: Try, r: nat)
    requires cfg.Valid() && h.pc == Sending(0) && r < 5 && !Decisive(t, NumberOf(h, r))
    ensures !t.WriteError? && After(cfg, AfterTries(cfg, h, r), t) == AfterTries(cfg, h, r + 1)
  {
  }

  lemma LastTry(cfg: Config, h: Host, t: Try, r: nat)
    requires cfg.Valid() && h.pc == Sending(0) && r < 5 && Decisive(t, NumberOf(h, r))
    ensures var g := AfterTries(cfg, h, r);
            if t.WriteError? then
              Failed(cfg, g.(sn := g.sn + 1, msg := g.msg.(sn := Wire(g.sn + 1)))) ==
              h.(sn := h.sn + r + 1, msg := h.msg.(sn := NumberOf(h, r)), pc := GoesOn(cfg, h.exec, false))
            else
              After(cfg, g, t) ==
              h.(sn := h.sn + r + 1, msg := h.msg.(sn := NumberOf(h, r)), pc := GoesOn(cfg, h.exec, t.m.arg == 0))
  {
  }

  function Datagram(h: Host, j: nat): Packet { Packet(Ctrl, h.msg.(sn := NumberOf(h, j))) }

  function Datagrams(h: Host, from: nat, to: nat): seq<Packet>
    requires from <= to
  {
    seq(to - from, i requires 0 <= i < to - from => Datagram(h, from + i))
  }

  lemma {:induction false} FromTry(cfg: Config, h: Host, tries: seq<Try>, r: nat, k: nat)
    requires cfg.Valid() && h.pc == Sending(0) && Ends(h, tries, k) && r <= k
    ensures Drive(cfg, AfterTries(cfg, h, r), tries[r..]) ==
            (h.(sn := h.sn + (if k < 5 then k + 1 else 5), msg := h.msg.(sn := NumberOf(h, if k < 5 then k else 4)),
                pc := GoesOn(cfg, h.exec, Succeeds(tries, k))),
             Datagrams(h, r, if k < 5 && !tries[k].WriteError? then k + 1 else k))
    decreases k - r
  {
    hide Drive, After, Failed, SessionOver, Decisive, GoesOn;
    var g := AfterTries(cfg, h, r);
    if r < k {
      InVain(cfg, h, tries[r], r);
      Turn(cfg, g, tries, r);
      FromTry(cfg, h, tries, r + 1, k);
      var to := if k < 5 && !tries[k].WriteError? then k + 1 else k;
      assert Datagrams(h, r, to) == [Datagram(h, r)] + Datagrams(h, r + 1, to);
    } else if k < 5 {
      DecisiveAnswers(tries[k], NumberOf(h, k));
      LastTry(cfg, h, tries[k], k);
      GoesOnOut(cfg, h.exec, Succeeds(tries, k));
      Turn(cfg, g, tries, k);
      if !tries[k].WriteError? {
        Stop(cfg, After(cfg, g, tries[k]), tries[k + 1..]);
        assert Datagrams(h, k, k + 1) == [Datagram(h, k)] + [];
      }
    } else {
      GoesOnOut(cfg, h.exec, false);
      Stop(cfg, g, tries[5..]);
    }
  }

  lemma GoesOnOut(cfg: Config, exec: bool, success: bool)
    ensures !GoesOn(cfg, exec, success).Sending?
  {
  }

  lemma DecisiveAnswers(t: Try, sn: nat)
    requires Decisive(t, sn)
    ensures t.WriteError? || t.Answer?
  {
  }

  /** send_msg succeeds exactly when one of five tries gets a status OK under its own number before any write
      failed and before any other status under the right number came; stale and missing answers only cost a
      try. Each try sends the same message with the next number. */
  lemma SendOutcome(cfg: Config, h: Host, tries: seq<Try>, k: nat)
    requires cfg.Valid() && h.pc == Sending(0) && Ends(h, tries, k)
    ensures var (end, sent) := Drive(cfg, h, tries);
            && end.pc == GoesOn(cfg, h.exec, Succeeds(tries, k)) && end.sn == h.sn + (if k < 5 then k + 1 else 5)
            && end.image == h.image && end.offset == h.offset
            && |sent| == (if k < 5 && !tries[k].WriteError? then k + 1 else k)
            && forall j | 0 <= j < |sent| :: sent[j] == Datagram(h, j)
  {
    hide Drive;
    FromTry(cfg, h, tries, 0, k);
    assert tries[0..] == tries;
  }

  // ---- Locating the node ----

  /** While the host looks for the node it asks under the next number each time, and only a status under the
      number it asked last starts a session, at the beginning of the first file. */
  lemma LocatesIff(cfg: Config, h: Host, e: Event, h': Host, out: Option<Packet>)
    requires cfg.Valid() && h.pc == Locating && HostStep(cfg, h, e) == Some((h', out))
    ensures h'.pc == Reading <==>
            && e.HearStatus? && e.status.magic == 0x1e5d_ae11 && e.status.cmd == 0x9e68_e03b
            && e.status.sn == h.sn % 0x1_0000_0000
    ensures h'.pc == Reading ==> h'.image == 0 && h'.offset == 0 && !h'.exec && h'.sn == h.sn
    ensures h'.pc == Reading || h'.pc == Locating || (h'.pc == Finished && e.LocateFails?)
    ensures out.Some? <==> e.SendQuery?
    ensures e.SendQuery? ==>
              && h'.sn == h.sn + 1 && out.value.port == Query && out.value.msg.magic == 0x1e5d_ae11
              && out.value.msg.cmd == 0x56a9_38e6 && out.value.msg.sn == h'.sn % 0x1_0000_0000
              && out.value.msg.db == [0x64, 0x65, 0x76, 0x69, 0x63, 0x65]
  {
  }

  // ---- The device ----

  /** A datagram that the device takes for a message at all. */
  predicate IsMessage(p: Packet) { |p.msg.db| <= 1024 && p.msg.magic == 0x1e5d_ae11 }

  predicate IsQuery(p: Packet) {
    && IsMessage(p) && p.msg.cmd == 0x56a9_38e6
    && (p.port == Ctrl || (p.port == Query && p.msg.db == [0x64, 0x65, 0x76, 0x69, 0x63, 0x65]))
  }

  /** It answers every message to its control port, and queries for its name to the query port, and nothing
      else; under the number of the message; with OK unless it does not know the command. */
  lemma DeviceAnswersIff(mem: seq<Byte>, p: Packet)
    requires |mem| == TWO32
    ensures var reply := PktRxUdp(mem, p).reply;
            && (reply.Some? <==> IsMessage(p) && (p.port == Ctrl || IsQuery(p)))
            && (reply.Some? ==>
                  && reply.value.magic == 0x1e5d_ae11 && reply.value.cmd == 0x9e68_e03b && reply.value.sn == p.msg.sn
                  && (reply.value.arg == 0 || reply.value.arg == 1)
                  && (reply.value.arg == 0 <==> IsQuery(p) || p.msg.cmd == 0x7b63_9621 || p.msg.cmd == 0xbdb9_a844)
                  && reply.value.db == if IsQuery(p) then DeviceName() else [])
  {
    assert NAME_REPLY == DeviceName();
  }

  /** "name=device" and a NUL. */
  function DeviceName(): seq<Byte> {
    [0x6E, 0x61, 0x6D, 0x65, 0x3D, 0x64, 0x65, 0x76, 0x69, 0x63, 0x65, 0]
  }

  /** Its memory changes by a WRITE to the control port alone, and it leaves for the loaded program by an EXEC
      there alone. */
  lemma DeviceActsIff(mem: seq<Byte>, p: Packet)
    requires |mem| == TWO32
    ensures var fx := PktRxUdp(mem, p);
            && |fx.mem| == TWO32
            && (forall a: nat | a < TWO32 ::
                  fx.mem[a] ==
                  if IsMessage(p) && p.port == Ctrl && p.msg.cmd == 0x7b63_9621 && (a - p.msg.arg) % TWO32 < |p.msg.db|
                  then p.msg.db[(a - p.msg.arg) % TWO32] else mem[a])
            && fx.entry == if IsMessage(p) && p.port == Ctrl && p.msg.cmd == 0xbdb9_a844 then Some(p.msg.arg) else None
  {
  }
}
