/** The receiver as the browser runs it: one object holding the frames in flight, each an object of its own. */
module TableObject {
  import opened Bytes
  import opened InsertionOrder
  import opened Parity
  import opened Wire
  import opened Assembly
  import opened AssemblyObject
  import opened FrameTable
  import TableSafety

  class VideoReceiver {
    var v4: Table<V4Assembly>
    var v4Done: seq<u32>
    var delivered: Table<nat>
    var wholeNacked: seq<u32>
    var v4Highest: Option<u32>
    var assemblyEvicted: nat
    var keyPartialsEvicted: nat

    /** The frames in flight, by value. */
    ghost function View(): Table<AsmState>
      reads `v4, v4.at.Values
    {
      Table(v4.order, map no | no in v4.at :: v4.at[no].Model())
    }

    ghost function Model(): State
      reads this, v4.at.Values
    {
      State(View(), v4Done, delivered, wholeNacked, v4Highest, assemblyEvicted, keyPartialsEvicted)
    }

    /** No two numbers share an object, and every object has a slot per fragment. */
    ghost predicate Ready()
      reads `v4, v4.at.Values
    {
      && (forall a, b | a in v4.at && b in v4.at && a != b :: v4.at[a] != v4.at[b])
      && Shaped(View())
    }

    ghost predicate Valid()
      reads this, v4.at.Values
    {
      Ready() && TableSafety.Inv(Model())
    }

    constructor ()
      ensures Valid() && Model() == Fresh() && v4.at.Values == {}
    {
      v4 := Empty();
      v4Done := [];
      delivered := Empty();
      wholeNacked := [];
      v4Highest := None;
      assemblyEvicted := 0;
      keyPartialsEvicted := 0;
      new;
      assert View() == Empty();
    }

    // ---- how the view follows the objects ------------------------------------------

    /** Only the object under `no` has changed. */
    twostate lemma Changed(no: u32)
      requires old(Ready()) && v4 == old(v4) && no in v4.at && |v4.at[no].parts| == v4.at[no].cnt
      requires forall k | k in v4.at && k != no :: unchanged(v4.at[k])
      ensures Ready() && View() == old(View()).Set(no, v4.at[no].Model())
    {
      hide Shaped;
      ShapedSet(old(View()), no, v4.at[no].Model());
      assert View().at == old(View()).at[no := v4.at[no].Model()];
    }

    twostate lemma Removed(no: u32)
      requires old(Ready()) && v4 == old(v4).Delete(no)
      requires forall k | k in v4.at :: unchanged(v4.at[k])
      ensures Ready() && View() == old(View()).Delete(no)
      ensures v4.at.Values <= old(v4.at.Values)
    {
      hide Shaped;
      ShapedDelete(old(View()), no);
      assert View().at == old(View()).at - {no};
    }

    twostate lemma Added(no: u32, new st: V4Assembly)
      requires old(Ready()) && no !in old(v4).at && v4 == old(v4).Set(no, st) && fresh(st)
      requires |st.parts| == st.cnt
      requires forall k | k in old(v4).at :: unchanged(old(v4).at[k])
      ensures Ready() && View() == old(View()).Set(no, st.Model())
      ensures v4.at.Values <= old(v4.at.Values) + {st}
    {
      hide Shaped;
      ShapedSet(old(View()), no, st.Model());
      assert View().at == old(View()).at[no := st.Model()];
      forall x | x in v4.at.Values ensures x == st || x in old(v4.at.Values) {
        var k :| k in v4.at && v4.at[k] == x;
      }
    }

    // ---- whole frames that left no trace ----------------------------------------------

    method NackSkippedFrames(no: u32) returns (out: seq<Output>)
      requires Ready()
      modifies `v4Highest, `wholeNacked
      ensures (Model(), out) == NackSkipped(old(Model()), no)
    {
      hide Shaped, Traced;
      out := [];
      var last := v4Highest;
      var ahead := if last.None? then 1 else Ahead(no, last.value);
      if last.Some? && ahead >= HALF {
        return;
      }
      v4Highest := Some(no);
      if last.None? || ahead <= 1 || ahead > WHOLE_FRAME_SPAN {
        return;
      }
      ghost var start := Model();
      for k := 1 to ahead
        invariant (Model(), out) == AskSkipped(start, last.value, k - 1)
      {
        var m := Plus(last.value, k);
        TracedIs(m);
        if !(v4.Has(m) || m in v4Done || delivered.Has(m) || m in wholeNacked) {
          wholeNacked := Trim(wholeNacked + [m], MAX_WHOLE_NACKED);
          out := out + [AskWhole(m)];
        } else {
          assert out + [] == out;
        }
      }
    }

    lemma TracedIs(m: u32)
      ensures Traced(Model(), m) <==> m in v4.at || m in v4Done || m in delivered.at || m in wholeNacked
    {}

    // ---- the scan ------------------------------------------------------------------------

    /** One round of requests for an assembly: a hole per group, the start rotating, eight at most. */
    method AskRound(st: V4Assembly, no: u32) returns (out: seq<Output>)
      requires |st.parts| == st.cnt
      ensures out == Asks(no, Round(st.Model(), 0, MAX_REQUESTS))
    {
      hide Round, Holes;
      ghost var m := st.Model();
      ghost var all := Round(m, 0, MAX_REQUESTS);
      var groupCount := GroupCount(st.cnt);
      var idxs: seq<nat> := [];
      var budget := MAX_REQUESTS;
      var g := 0;
      assert idxs + all == all;
      while g < groupCount && budget > 0
        invariant 0 <= g <= groupCount && budget >= 0
        invariant idxs + Round(m, g, budget) == all
        decreases groupCount - g
      {
        var gi := (g + st.nacks) % groupCount;
        var missing := st.Missing(Lo(gi), Hi(gi, st.cnt));
        RoundAt(m, g, budget, gi, missing);
        if |missing| > 0 {
          var idx := missing[(st.nacks + gi) % |missing|];
          Regroup(idxs, [idx], Round(m, g + 1, budget - 1));
          idxs := idxs + [idx];
          budget := budget - 1;
        }
        g := g + 1;
      }
      RoundEnd(m, g, budget);
      assert idxs + [] == idxs;
      out := Asks(no, idxs);
    }

    method Drop(no: u32)
      requires Ready()
      modifies `v4, `v4Done
      ensures Ready() && Model() == Abandon(old(Model()), no)
      ensures v4.at.Values <= old(v4.at.Values)
    {
      hide Shaped, Close;
      v4 := v4.Delete(no);
      v4Done := Close(v4Done, no);
      Removed(no);
    }

    /** The next round for `no`. */
    method AskAgain(no: u32, nowMs: real) returns (out: seq<Output>)
      requires Ready() && no in v4.at
      modifies v4.at[no]
      ensures Ready()
      ensures var asked := old(v4.at[no].Model()).(nacks := old(v4.at[no].nacks) + 1, lastNackMs := nowMs);
        View() == old(View()).Set(no, asked)
        && |asked.parts| == asked.cnt && out == Asks(no, Round(asked, 0, MAX_REQUESTS))
    {
      hide Shaped, Round, Asks;
      var st := v4.at[no];
      SlotsOf(no);
      st.nacks := st.nacks + 1;
      st.lastNackMs := nowMs;
      Changed(no);
      out := AskRound(st, no);
    }

    method ScanAssembly(no: u32, nowMs: real, t: Timing) returns (out: seq<Output>)
      requires Ready() && no in v4.at
      modifies `v4, `v4Done, v4.at[no]
      ensures Ready() && (Model(), out) == ScanOne(old(Model()), no, nowMs, t)
      ensures v4.at.Values <= old(v4.at.Values)
    {
      hide Shaped, Close, Round, Asks;
      out := [];
      var st := v4.at[no];
      if nowMs - st.atMs > EXPIRY_MS {
        Drop(no);
      } else if nowMs - st.atMs > t.firstMs && st.nacks < MAX_ROUNDS && nowMs - st.lastNackMs > t.gapMs {
        out := AskAgain(no, nowMs);
      }
    }

    lemma SlotsOf(no: u32)
      requires Ready() && no in v4.at
      ensures |v4.at[no].parts| == v4.at[no].cnt
    {
      assert View().at[no] == v4.at[no].Model();
    }

    method ScanAssemblies(nowMs: real, rttMs: real) returns (out: seq<Output>)
      requires Ready()
      modifies `v4, `v4Done, v4.at.Values
      ensures Ready() && v4.at.Values <= old(v4.at.Values)
      ensures (Model(), out) == Scan(old(Model()), old(v4.order), nowMs, NackTiming(rttMs))
    {
      hide Shaped, ScanOne;
      var t := NackTiming(rttMs);
      var keys := v4.order;
      out := [];
      for i := 0 to |keys|
        invariant Ready() && v4.at.Values <= old(v4.at.Values)
        invariant (Model(), out) == Scan(old(Model()), keys[..i], nowMs, t)
      {
        assert keys[..i + 1][..i] == keys[..i];
        if v4.Has(keys[i]) {
          var more := ScanAssembly(keys[i], nowMs, t);
          out := out + more;
        } else {
          ScanAbsent(keys[i], nowMs, t);
          assert out + [] == out;
        }
      }
      assert keys[..|keys|] == keys;
    }

    lemma ScanAbsent(no: u32, nowMs: real, t: Timing)
      requires Ready() && no !in v4.at
      ensures ScanOne(Model(), no, nowMs, t) == (Model(), [])
    {}

    // ---- opening an assembly -------------------------------------------------------------

    /** The numerically lowest number in flight other than `except`, of a delta if so asked. */
    method FindLowest(except: u32, deltasOnly: bool) returns (best: Option<u32>)
      requires Ready()
      ensures best == Lowest(View().order, View().at, except, deltasOnly)
    {
      hide Lowest;
      var keys := v4.order;
      best := None;
      AllHeld();
      LowestNone(View().at, except, deltasOnly);
      for i := 0 to |keys|
        invariant best == Lowest(keys[..i], View().at, except, deltasOnly)
      {
        LowestNext(keys, View().at, except, deltasOnly, i);
        var k := keys[i];
        if k != except && (deltasOnly ==> !v4.at[k].key) && (best.None? || k < best.value) {
          best := Some(k);
        }
      }
      assert keys[..|keys|] == keys;
    }

    lemma AllHeld()
      requires Ready()
      ensures v4.Valid() && forall k | k in v4.order :: k in v4.at
    {}

    /** With one assembly too many, one gives way. */
    method EvictOne(no: u32, key: bool) returns (out: seq<Output>)
      requires Ready() && v4.Size() > MAX_IN_FLIGHT
      modifies `v4, `v4Done, `assemblyEvicted, `keyPartialsEvicted
      ensures Ready() && (Model(), out) == MakeRoom(old(Model()), no, key)
      ensures v4.at.Values <= old(v4.at.Values)
    {
      hide Shaped, Lowest;
      out := [];
      var victim := FindLowest(no, true);
      if victim.None? && !key {
        victim := Some(no);
      }
      if victim.None? {
        victim := FindLowest(no, false);
        if victim.Some? {
          keyPartialsEvicted := keyPartialsEvicted + 1;
          out := [AskKeyframe];
        }
      }
      if victim.Some? {
        v4 := v4.Delete(victim.value);
        v4Done := Add(v4Done, victim.value);
        assemblyEvicted := assemblyEvicted + 1;
        Removed(victim.value);
      }
    }

    method OpenAssembly(f: WtFragment, nowMs: real) returns (out: seq<Output>)
      requires Ready()
      modifies `v4, `v4Done, `assemblyEvicted, `keyPartialsEvicted
      ensures Ready() && (Model(), out) == Open(old(Model()), f, nowMs)
      ensures fresh(v4.at.Values - old(v4.at.Values))
    {
      hide Shaped, MakeRoom;
      out := [];
      if v4.Has(f.frameNo) {
        return;
      }
      var st := new V4Assembly(f, nowMs);
      assert |st.parts| == st.Model().cnt;
      v4 := v4.Set(f.frameNo, st);
      Added(f.frameNo, st);
      if v4.Size() > MAX_IN_FLIGHT {
        out := EvictOne(f.frameNo, f.key);
      } else {
        RoomEnough(Model(), f.frameNo, f.key);
      }
    }

    // ---- delivery -----------------------------------------------------------------------------

    /** Notes a delivery; false, with nothing noted, for one remembered with the same capture time. */
    method IsFirstDelivery(no: u32, captureUs: nat) returns (first: bool)
      requires delivered.Valid()
      modifies `delivered
      ensures first == !AlreadyDelivered(old(delivered), no, captureUs)
      ensures delivered == if first then Remember(old(delivered), no, captureUs) else old(delivered)
    {
      if delivered.Has(no) && delivered.at[no] == captureUs {
        return false;
      }
      delivered := delivered.Set(no, captureUs);
      if delivered.Size() > MAX_DELIVERED {
        delivered := delivered.DropFirst();
      }
      return true;
    }

    /** The fragments of a finished frame, end to end. */
    method Join(st: V4Assembly) returns (payload: bytes)
      requires |st.parts| == st.cnt
      ensures payload == Payload(st.Model())
    {
      payload := [];
      ghost var known := Known(st.parts);
      for i := 0 to |st.parts|
        invariant payload == Concat(known[..i])
      {
        payload := payload + (if st.parts[i].Some? then st.parts[i].value else []);
        ConcatSnoc(known[..i], known[i]);
        assert known[..i + 1] == known[..i] + [known[i]];
      }
      assert known[..|known|] == known;
    }

    method DeliverOnce(no: u32, st: V4Assembly) returns (out: seq<Output>)
      requires delivered.Valid() && |st.parts| == st.cnt
      modifies `delivered
      ensures (Model(), out) ==
        FirstDelivery(old(Model()), WtFrame(no, st.captureUs, st.key, Payload(st.Model())))
    {
      hide Payload, Remember;
      out := [];
      var first := IsFirstDelivery(no, st.captureUs);
      if first {
        var payload := Join(st);
        out := [Deliver(WtFrame(no, st.captureUs, st.key, payload))];
      }
    }

    method MaybeDeliver(no: u32) returns (out: seq<Output>)
      requires Ready() && no in v4.at && delivered.Valid()
      modifies `v4, `v4Done, `delivered
      ensures Ready() && v4.at.Values <= old(v4.at.Values)
      ensures var st := old(v4.at[no].Model());
        if Complete(st)
        then (Model(), out) == FirstDelivery(Abandon(old(Model()), no), WtFrame(no, st.captureUs, st.key, Payload(st)))
        else Model() == old(Model()) && out == []
    {
      hide Shaped, Close, Payload, FirstDelivery;
      var st := v4.at[no];
      SlotsOf(no);
      if st.got != st.cnt {
        return [];
      }
      Drop(no);
      out := DeliverOnce(no, st);
    }

    method StoreFragment(f: WtFragment) returns (out: seq<Output>)
      requires Ready() && f.frameNo in v4.at && delivered.Valid()
      modifies `v4, `v4Done, `delivered, v4.at[f.frameNo]
      ensures Ready() && v4.at.Values <= old(v4.at.Values)
      ensures (Model(), out) == Store(old(Model()), f)
    {
      hide Shaped, Absorb, Complete, FirstDelivery, Abandon, Payload;
      out := [];
      var st := v4.at[f.frameNo];
      SlotsOf(f.frameNo);
      var stored := st.Take(f);
      Changed(f.frameNo);
      if stored {
        out := MaybeDeliver(f.frameNo);
        SetThenAbandon(old(Model()), f.frameNo, st.Model());
      } else {
        assert View() == old(View());
      }
    }

    // ---- the two carriers ------------------------------------------------------------------------

    method Offered(f: WtFragment, nowMs: real) returns (out: seq<Output>)
      requires Ready() && delivered.Valid()
      modifies `v4, `v4Done, `delivered, `assemblyEvicted, `keyPartialsEvicted, v4.at.Values
      ensures Ready() && fresh(v4.at.Values - old(v4.at.Values))
      ensures (Model(), out) == Offer(old(Model()), f, nowMs)
    {
      hide Shaped, Open, Store;
      out := [];
      if f.frameNo in v4Done {
        return;
      }
      out := OpenAssembly(f, nowMs);
      if v4.Has(f.frameNo) {
        var more := StoreFragment(f);
        out := out + more;
      } else {
        NothingStored(Model(), f);
        assert out + [] == out;
      }
    }

    /** One datagram: the new state and everything done to the outside are the transition function's. */
    method OnVideoFragment(f: WtFragment, nowMs: real, rttMs: real) returns (out: seq<Output>)
      requires Valid()
      modifies this, v4.at.Values
      ensures Valid() && fresh(v4.at.Values - old(v4.at.Values))
      ensures (Model(), out) == OnDatagram(old(Model()), f, nowMs, rttMs)
    {
      hide Shaped, NackSkipped, Scan, Offer, TableSafety.Inv;
      TableSafety.OnDatagramSafe(Model(), f, nowMs, rttMs);
      DeliveredValid(Model());
      out := NackSkippedFrames(f.frameNo);
      SkippedKeeps(old(Model()), f.frameNo);
      if f.frameNo in v4Done {
        return;
      }
      var asked := ScanAssemblies(nowMs, rttMs);
      var rest := Offered(f, nowMs);
      out := out + asked + rest;
    }

    /** One frame off the reliable stream. */
    method OnStream(frame: WtFrame) returns (out: seq<Output>)
      requires Valid()
      modifies `v4, `v4Done, `delivered
      ensures Valid() && v4.at.Values <= old(v4.at.Values)
      ensures (Model(), out) == OnStreamFrame(old(Model()), frame)
    {
      hide Shaped, Close, Remember, TableSafety.Inv;
      TableSafety.StepSafe(Model(), StreamFrame(frame));
      DeliveredValid(Model());
      var first := IsFirstDelivery(frame.frameNo, frame.captureUs);
      if !first {
        return [];
      }
      Drop(frame.frameNo);
      return [Deliver(frame)];
    }
  }

  lemma NothingStored(s: State, f: WtFragment)
    requires Shaped(s.v4) && f.frameNo !in s.v4.at
    ensures Store(s, f) == (s, [])
  {}

  lemma DeliveredValid(s: State)
    requires TableSafety.Inv(s)
    ensures s.delivered.Valid()
  {}

  lemma SkippedKeeps(s: State, no: u32)
    ensures var t := NackSkipped(s, no).0; t.v4 == s.v4 && t.delivered == s.delivered && t.done == s.done
  {}

  /** Storing and then dropping a number is dropping it. */
  lemma SetThenAbandon(s: State, no: u32, st: AsmState)
    requires no in s.v4.at
    ensures Abandon(s.(v4 := s.v4.Set(no, st)), no) == Abandon(s, no)
  {
    hide Close;
    SetThenDelete(s.v4, no, st);
  }

  lemma RoomEnough(s: State, no: u32, key: bool)
    requires Shaped(s.v4) && s.v4.Size() <= MAX_IN_FLIGHT
    ensures MakeRoom(s, no, key) == (s, [])
  {}

  lemma LowestNone(at: map<u32, AsmState>, except: u32, deltasOnly: bool)
    ensures Lowest([], at, except, deltasOnly) == None
  {}

  lemma LowestNext(keys: seq<u32>, at: map<u32, AsmState>, except: u32, deltasOnly: bool, i: nat)
    requires i < |keys| && forall k | k in keys :: k in at
    ensures var best := Lowest(keys[..i], at, except, deltasOnly);
      Lowest(keys[..i + 1], at, except, deltasOnly) ==
        if Eligible(at, except, deltasOnly, keys[i]) && (best.None? || keys[i] < best.value) then Some(keys[i]) else best
  {
    assert keys[..i + 1][..i] == keys[..i];
  }

  lemma RoundAt(st: AsmState, g: nat, budget: nat, gi: nat, missing: seq<nat>)
    requires |st.parts| == st.cnt && g < GroupCount(st.cnt) && budget > 0
    requires gi == (g + st.nacks) % GroupCount(st.cnt) && missing == Holes(st.parts, Lo(gi), Hi(gi, st.cnt))
    ensures Round(st, g, budget) ==
      if |missing| == 0 then Round(st, g + 1, budget)
      else [missing[(st.nacks + gi) % |missing|]] + Round(st, g + 1, budget - 1)
  {
    hide Holes;
  }

  lemma RoundEnd(st: AsmState, g: nat, budget: nat)
    requires |st.parts| == st.cnt && (g >= GroupCount(st.cnt) || budget == 0)
    ensures Round(st, g, budget) == []
  {}
}
