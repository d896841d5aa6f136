/** What every run of the reassembly table keeps, whatever arrives on either carrier. */
module TableSafety {
  import opened Bytes
  import opened InsertionOrder
  import opened Wire
  import opened Assembly
  import opened FrameTable

  // ---- the invariant -----------------------------------------------------------------

  /** Each assembly counts its parts and its rounds, and none is for a closed number. */
  ghost predicate Apart(v4: Table<AsmState>, done: seq<u32>) {
    && Shaped(v4)
    && (forall no | no in v4.at :: WellFormed(v4.at[no]) && v4.at[no].nacks <= 4)
    && forall no | no in v4.at :: no !in done
  }

  /** The evicting site does not trim: closed numbers are bounded by 512 only beyond the evictions. */
  ghost predicate Bounded(done: seq<u32>, evicted: nat) {
    Distinct(done) && |done| <= 512 + evicted
  }

  ghost predicate Remembered(delivered: Table<nat>, wholeNacked: seq<u32>) {
    && delivered.Valid() && delivered.Size() <= 512
    && Distinct(wholeNacked) && |wholeNacked| <= 256
  }

  ghost predicate Inv(s: State) {
    && Apart(s.v4, s.done)
    && s.v4.Size() <= 24
    && Bounded(s.done, s.evicted)
    && Remembered(s.delivered, s.wholeNacked)
    && s.keyEvicted <= s.evicted
  }

  // ---- the closed numbers --------------------------------------------------------------

  lemma CloseSafe(done: seq<u32>, no: u32, evicted: nat)
    requires Bounded(done, evicted)
    ensures Bounded(Close(done, no), evicted)
    ensures forall x | x in Close(done, no) :: x in done || x == no
    ensures no !in done ==> no in Close(done, no)
  {
    if no !in done {
      var a := done + [no];
      assert a[|a| - 1] == no;
    }
  }

  lemma EvictSafe(done: seq<u32>, no: u32, evicted: nat)
    requires Bounded(done, evicted) && no !in done
    ensures Bounded(Add(done, no), evicted + 1)
    ensures forall x | x in Add(done, no) :: x in done || x == no
  {}

  lemma ApartDelete(v4: Table<AsmState>, done: seq<u32>, no: u32, after: seq<u32>)
    requires Apart(v4, done) && forall x | x in after :: x in done || x == no
    ensures Apart(v4.Delete(no), after)
  {
    hide WellFormed;
  }

  lemma ApartSet(v4: Table<AsmState>, done: seq<u32>, no: u32, st: AsmState)
    requires Apart(v4, done) && no !in done && WellFormed(st) && st.nacks <= MAX_ROUNDS
    ensures Apart(v4.Set(no, st), done)
  {
    hide CountPresent;
  }

  /** A number leaves the table and is closed. */
  lemma AbandonSafe(s: State, no: u32)
    requires Inv(s)
    ensures Inv(Abandon(s, no))
    ensures no in s.v4.at ==> no in Abandon(s, no).done
  {
    hide Apart, Bounded, Close, Remembered;
    ApartParts(s.v4, s.done);
    CloseSafe(s.done, no, s.evicted);
    ApartDelete(s.v4, s.done, no, Close(s.done, no));
  }

  lemma ApartParts(v4: Table<AsmState>, done: seq<u32>)
    requires Apart(v4, done)
    ensures Shaped(v4) && v4.Valid()
    ensures forall no | no in v4.at :: no !in done
    ensures forall no | no in v4.at :: |v4.at[no].parts| == v4.at[no].cnt
    ensures forall no | no in v4.at :: WellFormed(v4.at[no]) && v4.at[no].nacks <= MAX_ROUNDS
  {}

  // ---- each stage --------------------------------------------------------------------------

  lemma ScanOneSafe(s: State, no: u32, nowMs: real, t: Timing)
    requires Shaped(s.v4) && Inv(s)
    ensures Inv(ScanOne(s, no, nowMs, t).0)
  {
    hide Apart, Bounded, Abandon, Remembered, CountPresent, Round;
    ApartParts(s.v4, s.done);
    if no in s.v4.at {
      var st := s.v4.at[no];
      if Expired(st, nowMs) {
        AbandonSafe(s, no);
      } else if DueForNack(st, nowMs, t) {
        ApartSet(s.v4, s.done, no, st.(nacks := st.nacks + 1, lastNackMs := nowMs));
      }
    }
  }

  lemma {:induction false} ScanSafe(s: State, keys: seq<u32>, nowMs: real, t: Timing)
    requires Shaped(s.v4) && Inv(s)
    ensures Inv(Scan(s, keys, nowMs, t).0)
  {
    hide Inv, ScanOne;
    if |keys| > 0 {
      ScanSafe(s, keys[..|keys| - 1], nowMs, t);
      ScanOneSafe(Scan(s, keys[..|keys| - 1], nowMs, t).0, keys[|keys| - 1], nowMs, t);
    }
  }

  lemma {:induction false} AskSkippedSafe(s: State, last: u32, k: nat)
    requires Distinct(s.wholeNacked) && |s.wholeNacked| <= MAX_WHOLE_NACKED
    ensures var w := AskSkipped(s, last, k).0.wholeNacked; Distinct(w) && |w| <= MAX_WHOLE_NACKED
  {
    hide Traced;
    if k > 0 {
      AskSkippedSafe(s, last, k - 1);
      AskOneSafe(AskSkipped(s, last, k - 1).0, Plus(last, k));
    }
  }

  lemma AskOneSafe(s: State, no: u32)
    requires Distinct(s.wholeNacked) && |s.wholeNacked| <= MAX_WHOLE_NACKED
    ensures var w := AskWholeFrame(s, no).0.wholeNacked; Distinct(w) && |w| <= MAX_WHOLE_NACKED
  {}

  lemma {:induction false} SkippedAreWhole(s: State, last: u32, k: nat)
    ensures forall o | o in AskSkipped(s, last, k).1 :: o.AskWhole?
  {
    hide Traced;
    if k > 0 {
      SkippedAreWhole(s, last, k - 1);
    }
  }

  lemma SkippedOnlyAsksWhole(s: State, no: u32)
    ensures forall o | o in NackSkipped(s, no).1 :: o.AskWhole?
  {
    if s.highest.Some? && Ahead(no, s.highest.value) > 1 {
      SkippedAreWhole(s.(highest := Some(no)), s.highest.value, Ahead(no, s.highest.value) - 1);
    }
  }

  lemma NackSkippedSafe(s: State, no: u32)
    requires Inv(s)
    ensures Inv(NackSkipped(s, no).0)
  {
    hide Apart, Bounded, AskSkipped;
    if s.highest.Some? {
      var last := s.highest.value;
      if 1 < Ahead(no, last) <= WHOLE_FRAME_SPAN {
        AskSkippedSafe(s.(highest := Some(no)), last, Ahead(no, last) - 1);
      }
    }
  }

  lemma VictimIsHeld(v4: Table<AsmState>, no: u32, key: bool)
    requires v4.Valid() && no in v4.at
    ensures Victim(v4, no, key).Some? ==> Victim(v4, no, key).value in v4.at
  {
    hide Lowest;
  }

  /** Over the limit some assembly always gives way. */
  lemma VictimExists(v4: Table<AsmState>, no: u32, key: bool)
    requires v4.Valid() && v4.Size() > 1
    ensures Victim(v4, no, key).Some?
  {
    hide Lowest;
    var other := if v4.order[0] == no then v4.order[1] else v4.order[0];
    assert other in v4.order && other != no;
  }

  lemma MakeRoomSafe(s: State, no: u32, key: bool)
    requires Shaped(s.v4) && no in s.v4.at
    requires Apart(s.v4, s.done) && s.v4.Size() <= MAX_IN_FLIGHT + 1
    requires Bounded(s.done, s.evicted) && Remembered(s.delivered, s.wholeNacked) && s.keyEvicted <= s.evicted
    ensures Inv(MakeRoom(s, no, key).0)
  {
    hide Apart, Bounded, Remembered, Victim, Lowest;
    ApartParts(s.v4, s.done);
    if s.v4.Size() > MAX_IN_FLIGHT {
      VictimExists(s.v4, no, key);
      VictimIsHeld(s.v4, no, key);
      var v := Victim(s.v4, no, key).value;
      EvictSafe(s.done, v, s.evicted);
      ApartDelete(s.v4, s.done, v, Add(s.done, v));
    }
  }

  lemma OpenSafe(s: State, f: WtFragment, nowMs: real)
    requires Shaped(s.v4) && Inv(s) && f.frameNo !in s.done
    ensures Inv(Open(s, f, nowMs).0)
  {
    hide Apart, Bounded, Remembered, MakeRoom;
    ApartParts(s.v4, s.done);
    if f.frameNo !in s.v4.at {
      var st := NewState(f, nowMs);
      NewWellFormed(f, nowMs);
      ApartSet(s.v4, s.done, f.frameNo, st);
      ShapedSet(s.v4, f.frameNo, st);
      MakeRoomSafe(s.(v4 := s.v4.Set(f.frameNo, st)), f.frameNo, f.key);
    }
  }

  lemma RememberSafe(delivered: Table<nat>, no: u32, captureUs: nat)
    requires delivered.Valid() && delivered.Size() <= MAX_DELIVERED
    ensures Remember(delivered, no, captureUs).Valid()
    ensures Remember(delivered, no, captureUs).Size() <= MAX_DELIVERED
  {
    var t := delivered.Set(no, captureUs);
    assert t.Valid();
    if t.Size() > MAX_DELIVERED {
      assert t.order[0] in t.order;
    }
  }

  lemma FirstDeliverySafe(s: State, f: WtFrame)
    requires Inv(s)
    ensures Inv(FirstDelivery(s, f).0)
  {
    hide Apart, Bounded, Remember;
    RememberSafe(s.delivered, f.frameNo, f.captureUs);
  }

  lemma StoreSafe(s: State, f: WtFragment)
    requires Shaped(s.v4) && Inv(s)
    ensures Inv(Store(s, f).0)
  {
    hide Apart, Bounded, Remembered, Abandon, FirstDelivery, Payload, CountPresent, Absorb;
    ApartParts(s.v4, s.done);
    if f.frameNo in s.v4.at {
      AbsorbWellFormed(s.v4.at[f.frameNo], f);
      match Absorb(s.v4.at[f.frameNo], f)
      case None =>
      case Some(st) =>
        AbandonSafe(s, f.frameNo);
        FirstDeliverySafe(Abandon(s, f.frameNo), WtFrame(f.frameNo, st.captureUs, st.key, Payload(st)));
        ApartSet(s.v4, s.done, f.frameNo, st);
    }
  }

  lemma OnDatagramSafe(s: State, f: WtFragment, nowMs: real, rttMs: real)
    requires Shaped(s.v4) && Inv(s)
    ensures Inv(OnDatagram(s, f, nowMs, rttMs).0)
  {
    hide Inv, NackSkipped, Scan, Open, Store;
    var t := NackSkipped(s, f.frameNo).0;
    NackSkippedSafe(s, f.frameNo);
    if f.frameNo !in t.done {
      ScanSafe(t, t.v4.order, nowMs, NackTiming(rttMs));
      var u := Scan(t, t.v4.order, nowMs, NackTiming(rttMs)).0;
      if f.frameNo !in u.done {
        OpenSafe(u, f, nowMs);
        StoreSafe(Open(u, f, nowMs).0, f);
      }
    }
  }

  lemma StepSafe(s: State, e: Event)
    requires Shaped(s.v4) && Inv(s)
    ensures Inv(Step(s, e).0)
  {
    hide Inv, OnDatagram, Abandon;
    match e
    case Datagram(f, nowMs, rttMs) => OnDatagramSafe(s, f, nowMs, rttMs);
    case StreamFrame(frame) =>
      FirstDeliverySafe(s, frame);
      AbandonSafe(FirstDelivery(s, frame).0, frame.frameNo);
  }

  /** The table's invariant over every run: 24 in flight, honest counts, in flight and closed apart, bounded memory. */
  lemma {:induction false} RunSafe(es: seq<Event>)
    ensures Inv(Run(es).0)
  {
    hide Step;
    if |es| == 0 {
      FreshSafe();
    } else {
      hide Inv;
      RunSafe(es[..|es| - 1]);
      StepSafe(Run(es[..|es| - 1]).0, es[|es| - 1]);
    }
  }

  lemma FreshSafe()
    ensures Inv(Fresh())
  {}

  // ---- what the scan leaves ---------------------------------------------------------------------

  ghost predicate SameParts(a: AsmState, b: AsmState) {
    b == a.(nacks := b.nacks, lastNackMs := b.lastNackMs)
  }

  /** The scan drops exactly the assemblies it visits past their 900 ms; of the others it changes only what counts
      their requests. */
  lemma {:induction false} ScanExpires(s: State, keys: seq<u32>, nowMs: real, t: Timing, no: u32)
    requires Shaped(s.v4)
    ensures var u := Scan(s, keys, nowMs, t).0;
      if no in s.v4.at && !(no in keys && nowMs - s.v4.at[no].atMs > 900.0)
      then no in u.v4.at && SameParts(s.v4.at[no], u.v4.at[no])
      else no !in u.v4.at
  {
    hide Shaped, Close, Round;
    if |keys| > 0 {
      var front, last := keys[..|keys| - 1], keys[|keys| - 1];
      ScanExpires(s, front, nowMs, t, no);
      assert no in keys <==> no in front || no == last;
    }
  }

  lemma OpenAges(s: State, f: WtFragment, nowMs: real, no: u32)
    requires Shaped(s.v4) && no in Open(s, f, nowMs).0.v4.at
    ensures Open(s, f, nowMs).0.v4.at[no] == if no in s.v4.at then s.v4.at[no] else NewState(f, nowMs)
  {
    hide Shaped, Victim, Lowest;
  }

  lemma StoreAges(s: State, f: WtFragment, no: u32)
    requires Shaped(s.v4) && no in Store(s, f).0.v4.at
    ensures no in s.v4.at && Store(s, f).0.v4.at[no].atMs == s.v4.at[no].atMs
  {
    hide Absorb, Payload, Close, Remember, Complete;
  }

  /** After a datagram for a number that was not closed, nothing in flight is older than 900 ms. */
  lemma NothingStale(s: State, f: WtFragment, nowMs: real, rttMs: real, no: u32)
    requires Shaped(s.v4) && Inv(s) && f.frameNo !in s.done
    ensures var t := OnDatagram(s, f, nowMs, rttMs).0; no in t.v4.at ==> nowMs - t.v4.at[no].atMs <= 900.0
  {
    hide Shaped, NackSkipped, Scan, Open, Store, Inv;
    ApartInv(s);
    var t := NackSkipped(s, f.frameNo).0;
    SkippedKeepsTable(s, f.frameNo);
    var u := Scan(t, t.v4.order, nowMs, NackTiming(rttMs)).0;
    ScanExpires(t, t.v4.order, nowMs, NackTiming(rttMs), no);
    if f.frameNo !in u.done {
      var w := Open(u, f, nowMs).0;
      if no in Store(w, f).0.v4.at {
        StoreAges(w, f, no);
        OpenAges(u, f, nowMs, no);
      }
    }
  }

  lemma ApartInv(s: State)
    requires Inv(s)
    ensures forall no | no in s.v4.at :: no in s.v4.order
  {}

  lemma SkippedKeepsTable(s: State, no: u32)
    ensures NackSkipped(s, no).0.v4 == s.v4 && NackSkipped(s, no).0.done == s.done
    ensures NackSkipped(s, no).0.delivered == s.delivered
  {}

  /** A number the table does not hold closed is never turned away: after its datagram it is in flight or closed. */
  lemma OfferLeavesTrace(s: State, f: WtFragment, nowMs: real)
    requires Shaped(s.v4) && Inv(s) && f.frameNo !in s.done
    ensures var t := Offer(s, f, nowMs).0; f.frameNo in t.v4.at || f.frameNo in t.done
  {
    hide Inv, Open, Absorb, Payload, Complete, Remember, Close;
    ClosedBehind(s, f, nowMs);
    OpenSafe(s, f, nowMs);
    var w := Open(s, f, nowMs).0;
    if f.frameNo in w.v4.at {
      ApartFrom(w, f.frameNo);
      CloseIn(w.done, f.frameNo);
    }
  }

  lemma ApartFrom(s: State, no: u32)
    requires Inv(s) && no in s.v4.at
    ensures no !in s.done
  {}

  lemma CloseIn(done: seq<u32>, no: u32)
    requires no !in done
    ensures no in Close(done, no)
  {
    var a := done + [no];
    assert a[|a| - 1] == no;
  }

  lemma CloseHolds(done: seq<u32>, no: u32)
    requires Distinct(done)
    ensures no in Close(done, no) <==> !(|done| > MAX_DONE && done[0] == no)
  {
    if no !in done {
      CloseIn(done, no);
    } else if |done| > MAX_DONE && done[0] != no {
      assert done == [done[0]] + done[1..];
    } else if |done| > MAX_DONE {
      assert forall i | 0 <= i < |done| - 1 :: done[1..][i] == done[i + 1] && done[i + 1] != done[0];
    }
  }

  /**
   A frame delivered off the stream is no longer assembled. Its number is then closed, so that the next datagram for
   it is turned away, exactly unless it was the oldest of more than 512 numbers already closed: adding it changes
   nothing in that case, the trim forgets it, and the next datagram starts the frame afresh.
   */
  lemma StreamEndsAssembly(s: State, frame: WtFrame, f: WtFragment, nowMs: real)
    requires Shaped(s.v4) && Inv(s) && f.frameNo == frame.frameNo
    requires OnStreamFrame(s, frame).1 != []
    ensures frame.frameNo !in OnStreamFrame(s, frame).0.v4.at
    ensures var t := OnStreamFrame(s, frame).0;
      Offer(t, f, nowMs) == (t, []) <==> !(|s.done| > 512 && s.done[0] == frame.frameNo)
  {
    hide Remember, Open, Store, Inv, Close;
    DoneDistinct(s);
    CloseHolds(s.done, frame.frameNo);
    var t := OnStreamFrame(s, frame).0;
    StepSafe(s, StreamFrame(frame));
    if frame.frameNo !in t.done {
      OfferLeavesTrace(t, f, nowMs);
    }
  }

  lemma DoneDistinct(s: State)
    requires Inv(s)
    ensures Distinct(s.done)
  {}

  // ---- who is evicted ------------------------------------------------------------------------

  /** The number that makes room is one in flight, and a keyframe makes room only when all in flight are keyframes;
      then, and only then, a keyframe is asked for. */
  lemma KeyframesGiveWayLast(s: State, f: WtFragment, nowMs: real, no: u32)
    requires Shaped(s.v4) && Inv(s) && f.frameNo !in s.done
    requires no in s.v4.at && no !in Open(s, f, nowMs).0.v4.at && s.v4.at[no].key
    ensures s.v4.Size() == 24 && f.key && f.frameNo !in s.v4.at
    ensures forall k | k in s.v4.at :: s.v4.at[k].key
    ensures Open(s, f, nowMs).0.keyEvicted == s.keyEvicted + 1 && AskKeyframe in Open(s, f, nowMs).1
    ensures forall k | k in s.v4.at :: no <= k
  {
    hide Apart, Bounded, Remembered, Lowest;
    ApartParts(s.v4, s.done);
    var st := NewState(f, nowMs);
    var v4 := s.v4.Set(f.frameNo, st);
    ShapedSet(s.v4, f.frameNo, st);
    forall k | k in s.v4.at ensures k in v4.order && k != f.frameNo && v4.at[k] == s.v4.at[k] {
      assert k in s.v4.order;
    }
  }

  /** Whatever opening an assembly pushes out is closed by it, and so is a newcomer that does not stay. */
  lemma ClosedBehind(s: State, f: WtFragment, nowMs: real)
    requires Shaped(s.v4) && Inv(s) && f.frameNo !in s.done
    ensures forall no | no in s.v4.at && no !in Open(s, f, nowMs).0.v4.at :: no in Open(s, f, nowMs).0.done
    ensures f.frameNo in Open(s, f, nowMs).0.v4.at || f.frameNo in Open(s, f, nowMs).0.done
  {
    hide Apart, Bounded, Remembered, Lowest;
    ApartParts(s.v4, s.done);
  }
}
