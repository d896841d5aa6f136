/** Whatever the receiver delivers, on either carrier and however it was pieced together, is what the host encoded. */
module TableSound {
  import opened Bytes
  import opened InsertionOrder
  import opened Parity
  import opened Wire
  import opened Assembly
  import opened RepairSound
  import FrameRun
  import opened FrameTable
  import opened TableSafety

  /** The frame the host encoded under number `no`. */
  function FrameOf(no: u32, h: HostFrame): WtFrame {
    WtFrame(no, h.captureUs, h.key, h.payload)
  }

  /** Sent by a host whose frame number `no` is `hosts(no)`. */
  ghost predicate FromHosts(e: Event, hosts: u32 -> HostFrame) {
    match e
    case Datagram(f, _, _) => FromHost(f, f.frameNo, hosts(f.frameNo))
    case StreamFrame(frame) => frame == FrameOf(frame.frameNo, hosts(frame.frameNo))
  }

  ghost predicate HonestTable(v4: Table<AsmState>, hosts: u32 -> HostFrame) {
    forall no | no in v4.at :: WellFormed(v4.at[no]) && Honest(hosts(no), v4.at[no])
  }

  ghost predicate Genuine(out: seq<Output>, hosts: u32 -> HostFrame) {
    forall o | o in out :: o.Deliver? ==> o.frame == FrameOf(o.frame.frameNo, hosts(o.frame.frameNo))
  }

  lemma HonestNew(h: HostFrame, no: u32, f: WtFragment, nowMs: real)
    requires FromHost(f, no, h)
    ensures Honest(h, NewState(f, nowMs)) && WellFormed(NewState(f, nowMs))
  {
    hide Row, Split, RowPayload;
    NewWellFormed(f, nowMs);
  }

  /** Asking again changes nothing an honest assembly is judged by. */
  lemma HonestAsked(h: HostFrame, st: AsmState, nowMs: real)
    requires Honest(h, st) && WellFormed(st)
    ensures Honest(h, st.(nacks := st.nacks + 1, lastNackMs := nowMs))
    ensures WellFormed(st.(nacks := st.nacks + 1, lastNackMs := nowMs))
  {
    hide Row, Split, Sendable, CountPresent;
  }

  lemma AbsorbHonest(h: HostFrame, no: u32, st: AsmState, f: WtFragment)
    requires Honest(h, st) && WellFormed(st) && FromHost(f, no, h)
    ensures var r := Absorb(st, f); r.Some? ==> Honest(h, r.value) && WellFormed(r.value)
  {
    hide Honest, Row, Split, RowPayload, Repair, CountPresent;
    FrameRun.HonestCount(h, st);
    AbsorbWellFormed(st, f);
    if f.parity == 0 {
      if Absorb(st, f).Some? {
        FillHonest(h, st, f.idx);
        RepairHonest(h, Fill(st, f.idx, f.payload));
      }
    } else {
      FrameRun.RowPayloadReads(h, f.parity, f.idx);
      FrameRun.FileRowHonest(h, st, f.parity, f.idx);
      RepairHonest(h, FrameRun.FileRow(st, f.parity, f.idx, Row(Frags(h), f.parity, f.idx), |h.payload|));
    }
  }

  lemma RepairHonest(h: HostFrame, st: AsmState)
    requires |st.parts| == st.cnt && Honest(h, st)
    ensures Honest(h, Repair(st))
  {
    hide Honest;
    RepairToHonest(h, st, GroupCount(st.cnt));
  }

  lemma CompleteIsExact(h: HostFrame, st: AsmState)
    requires Honest(h, st) && WellFormed(st) && Complete(st)
    ensures Payload(st) == h.payload && st.captureUs == h.captureUs && st.key == h.key
  {
    hide Row, Split;
    CountFull(st.parts);
    assert Known(st.parts) == Frags(h);
    SplitJoins(h.payload, h.budget);
  }

  lemma HonestSet(v4: Table<AsmState>, hosts: u32 -> HostFrame, no: u32, st: AsmState)
    requires HonestTable(v4, hosts) && Honest(hosts(no), st) && WellFormed(st)
    ensures HonestTable(v4.Set(no, st), hosts)
  {
    hide Honest, WellFormed;
  }

  lemma HonestDelete(v4: Table<AsmState>, hosts: u32 -> HostFrame, no: u32)
    requires HonestTable(v4, hosts)
    ensures HonestTable(v4.Delete(no), hosts)
  {
    hide Honest, WellFormed;
  }

  lemma ScanOneHonest(s: State, key: u32, nowMs: real, t: Timing, hosts: u32 -> HostFrame)
    requires Shaped(s.v4) && HonestTable(s.v4, hosts)
    ensures HonestTable(ScanOne(s, key, nowMs, t).0.v4, hosts) && Genuine(ScanOne(s, key, nowMs, t).1, hosts)
  {
    hide HonestTable, Close, Round, Shaped;
    HonestDelete(s.v4, hosts, key);
    if key in s.v4.at {
      HonestAt(s.v4, hosts, key);
      HonestAsked(hosts(key), s.v4.at[key], nowMs);
      HonestSet(s.v4, hosts, key, s.v4.at[key].(nacks := s.v4.at[key].nacks + 1, lastNackMs := nowMs));
    }
  }

  lemma HonestAt(v4: Table<AsmState>, hosts: u32 -> HostFrame, no: u32)
    requires HonestTable(v4, hosts) && no in v4.at
    ensures Honest(hosts(no), v4.at[no]) && WellFormed(v4.at[no])
  {}

  lemma {:induction false} ScanHonest(s: State, keys: seq<u32>, nowMs: real, t: Timing, hosts: u32 -> HostFrame)
    requires Shaped(s.v4) && HonestTable(s.v4, hosts)
    ensures HonestTable(Scan(s, keys, nowMs, t).0.v4, hosts) && Genuine(Scan(s, keys, nowMs, t).1, hosts)
  {
    hide HonestTable, ScanOne, Shaped;
    if |keys| > 0 {
      ScanHonest(s, keys[..|keys| - 1], nowMs, t, hosts);
      ScanOneHonest(Scan(s, keys[..|keys| - 1], nowMs, t).0, keys[|keys| - 1], nowMs, t, hosts);
    }
  }

  lemma OpenHonest(s: State, f: WtFragment, nowMs: real, hosts: u32 -> HostFrame)
    requires Shaped(s.v4) && HonestTable(s.v4, hosts) && FromHost(f, f.frameNo, hosts(f.frameNo))
    ensures HonestTable(Open(s, f, nowMs).0.v4, hosts) && Genuine(Open(s, f, nowMs).1, hosts)
  {
    hide HonestTable, Victim, Lowest, Shaped, FromHost;
    if f.frameNo !in s.v4.at {
      var st := NewState(f, nowMs);
      HonestNew(hosts(f.frameNo), f.frameNo, f, nowMs);
      HonestSet(s.v4, hosts, f.frameNo, st);
      ShapedSet(s.v4, f.frameNo, st);
      var v4 := s.v4.Set(f.frameNo, st);
      MakeRoomHonest(s.(v4 := v4), f.frameNo, f.key, hosts);
    }
  }

  lemma MakeRoomHonest(s: State, no: u32, key: bool, hosts: u32 -> HostFrame)
    requires Shaped(s.v4) && HonestTable(s.v4, hosts)
    ensures HonestTable(MakeRoom(s, no, key).0.v4, hosts) && Genuine(MakeRoom(s, no, key).1, hosts)
  {
    hide HonestTable, Victim, Lowest;
    if s.v4.Size() > MAX_IN_FLIGHT && Victim(s.v4, no, key).Some? {
      HonestDelete(s.v4, hosts, Victim(s.v4, no, key).value);
    }
  }

  lemma StoreHonest(s: State, f: WtFragment, hosts: u32 -> HostFrame)
    requires Shaped(s.v4) && HonestTable(s.v4, hosts) && FromHost(f, f.frameNo, hosts(f.frameNo))
    ensures HonestTable(Store(s, f).0.v4, hosts) && Genuine(Store(s, f).1, hosts)
  {
    hide HonestTable, Absorb, Payload, Complete, Close, Remember, FromHost, Honest, WellFormed;
    if f.frameNo in s.v4.at {
      var h := hosts(f.frameNo);
      HonestAt(s.v4, hosts, f.frameNo);
      HonestDelete(s.v4, hosts, f.frameNo);
      AbsorbHonest(h, f.frameNo, s.v4.at[f.frameNo], f);
      match Absorb(s.v4.at[f.frameNo], f)
      case None =>
      case Some(st) =>
        HonestSet(s.v4, hosts, f.frameNo, st);
        if Complete(st) {
          CompleteIsExact(h, st);
        }
    }
  }

  lemma StepHonest(s: State, e: Event, hosts: u32 -> HostFrame)
    requires Shaped(s.v4) && HonestTable(s.v4, hosts) && FromHosts(e, hosts)
    ensures HonestTable(Step(s, e).0.v4, hosts) && Genuine(Step(s, e).1, hosts)
  {
    hide HonestTable, Scan, Open, Store, Close, Remember, Shaped, FromHost, AskSkipped;
    match e
    case StreamFrame(frame) => HonestDelete(s.v4, hosts, frame.frameNo);
    case Datagram(f, nowMs, rttMs) =>
      var (t, whole) := NackSkipped(s, f.frameNo);
      SkippedOnlyAsksWhole(s, f.frameNo);
      if f.frameNo !in t.done {
        var u := Scan(t, t.v4.order, nowMs, NackTiming(rttMs)).0;
        ScanHonest(t, t.v4.order, nowMs, NackTiming(rttMs), hosts);
        OpenHonest(u, f, nowMs, hosts);
        StoreHonest(Open(u, f, nowMs).0, f, hosts);
      }
  }

  /**
   Soundness over whole runs, many frames at once, both carriers, any loss, order and repetition: every frame
   delivered is the host's frame of that number, byte for byte, and everything held meanwhile is the host's too.
   */
  lemma {:induction false} OnlyGenuineFrames(es: seq<Event>, hosts: u32 -> HostFrame)
    requires forall e | e in es :: FromHosts(e, hosts)
    ensures HonestTable(Run(es).0.v4, hosts) && Genuine(Run(es).1, hosts)
  {
    hide Step, FromHosts, HonestTable;
    if |es| == 0 {
      FreshHonest(hosts);
    } else {
      OnlyGenuineFrames(es[..|es| - 1], hosts);
      assert es[|es| - 1] in es;
      StepHonest(Run(es[..|es| - 1]).0, es[|es| - 1], hosts);
    }
  }

  lemma FreshHonest(hosts: u32 -> HostFrame)
    ensures HonestTable(Fresh().v4, hosts)
  {}

  /** The table does to one assembly what the single-frame account says, whatever else is in flight. */
  lemma StoreSettles(s: State, f: WtFragment)
    requires Shaped(s.v4) && s.v4.Valid() && f.frameNo in s.v4.at && |s.v4.at[f.frameNo].parts| == s.v4.at[f.frameNo].cnt
    ensures var (t, out) := Store(s, f);
      match FrameRun.Settle(s.v4.at[f.frameNo], f)
      case Idle => false
      case Open(st) => f.frameNo in t.v4.at && t.v4.at[f.frameNo] == st && out == [] && t.done == s.done
      case Done(payload) =>
        && f.frameNo !in t.v4.at && (f.frameNo !in s.done ==> f.frameNo in t.done)
        && var st := s.v4.at[f.frameNo];
           out == if AlreadyDelivered(s.delivered, f.frameNo, st.captureUs) then []
                  else [Deliver(WtFrame(f.frameNo, st.captureUs, st.key, payload))]
    ensures forall no | no != f.frameNo ::
      (no in s.v4.at <==> no in Store(s, f).0.v4.at) && (no in s.v4.at ==> Store(s, f).0.v4.at[no] == s.v4.at[no])
  {
    hide Absorb, Payload, Complete, Close, Remember;
    if f.frameNo !in s.done {
      CloseIn(s.done, f.frameNo);
    }
  }
}
