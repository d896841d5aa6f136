/** The frame orderer as the browser runs it: one object, updated in place by every arrival. */
module OrdererObject {
  import opened Bytes
  import opened InsertionOrder
  import opened Wire
  import Orderer
  import OrderSafety

  class FrameOrderer {
    const maxReorder: nat
    var pending: Table<WtFrame>
    var nextSeq: Option<u32>
    var resyncNeeded: bool
    var farAhead: nat
    var cadenceUs: real
    var lastCaptureUs: Option<nat>
    var newestUs: nat
    var lastReleased: Option<Orderer.Released>
    var keyDue: bool
    var keyDueAtUs: Option<nat>
    var budgetMs: real

    ghost function Model(): Orderer.State
      reads this
    {
      Orderer.State(maxReorder, pending, nextSeq, resyncNeeded, farAhead, cadenceUs, lastCaptureUs, newestUs,
                    lastReleased, keyDue, keyDueAtUs, budgetMs)
    }

    ghost predicate Valid()
      reads this
    {
      OrderSafety.Inv(Model())
    }

    constructor (maxReorder: nat := Orderer.MAX_REORDER)
      ensures Valid() && Model() == Orderer.Fresh(maxReorder)
    {
      this.maxReorder := maxReorder;
      pending := Empty();
      nextSeq := None;
      resyncNeeded := false;
      farAhead := 0;
      cadenceUs := 16_667.0;
      lastCaptureUs := None;
      newestUs := 0;
      lastReleased := None;
      keyDue := false;
      keyDueAtUs := None;
      budgetMs := Orderer.REORDER_BUDGET_MS;
    }

    method SetRttMs(rttMs: real)
      requires Valid()
      modifies `budgetMs
      ensures Valid() && Model() == Orderer.SetRtt(old(Model()), rttMs)
    {
      budgetMs := Orderer.RepairBudgetMs(rttMs);
    }

    method KeyframeRequested()
      requires Valid()
      modifies `keyDue, `keyDueAtUs
      ensures Valid() && Model() == Orderer.KeyframeRequested(old(Model()))
    {
      keyDue := false;
      keyDueAtUs := Some(newestUs + Orderer.KEY_REREQUEST_US);
    }

    method Reset(newStream: bool)
      requires Valid()
      modifies this
      ensures Valid() && Model() == Orderer.Reset(old(Model()), newStream)
    {
      if newStream {
        lastReleased := None;
        newestUs := 0;
        keyDue := false;
        keyDueAtUs := None;
      }
      pending := Empty();
      nextSeq := None;
      resyncNeeded := false;
      farAhead := 0;
      lastCaptureUs := None;
    }

    /** The oldest capture held, by a walk over the held frames. */
    method OldestHeld() returns (oldest: Option<WtFrame>)
      requires pending.Valid()
      ensures oldest == Orderer.Oldest(pending.order, pending.at)
    {
      hide Orderer.Oldest;
      oldest := None;
      var keys := pending.order;
      for i := 0 to |keys|
        invariant oldest == Orderer.Oldest(keys[..i], pending.at)
      {
        var p := pending.at[keys[i]];
        OldestNext(keys, pending.at, i);
        if oldest.None? || p.captureUs < oldest.value.captureUs {
          oldest := Some(p);
        }
      }
      assert keys[..|keys|] == keys;
    }

    method BudgetSpent(newestCaptureUs: nat) returns (spent: bool)
      requires pending.Valid()
      modifies `pending, `nextSeq, `resyncNeeded
      ensures pending.Valid()
      ensures spent == Orderer.Spent(old(Model()), newestCaptureUs)
      ensures Model() == Orderer.BudgetSpent(old(Model()), newestCaptureUs)
    {
      if pending.Size() == 0 {
        return false;
      }
      var oldest := OldestHeld();
      spent := pending.Size() > Orderer.MAX_HELD_FRAMES
        || (newestCaptureUs - oldest.value.captureUs) as real / 1000.0 >= budgetMs;
      if spent {
        pending := Empty();
        nextSeq := None;
        resyncNeeded := true;
      }
    }

    method HoldUnanchored(f: WtFrame)
      requires pending.Valid()
      modifies `pending, `keyDue
      ensures pending.Valid() && Model() == Orderer.HoldUnanchored(old(Model()), f)
    {
      if !pending.Has(f.frameNo) && pending.Size() >= Orderer.MAX_HELD_FRAMES {
        var oldest := OldestHeld();
        if oldest.None? || f.captureUs <= oldest.value.captureUs {
          return;
        }
        pending := pending.Delete(oldest.value.frameNo);
      }
      pending := pending.Set(f.frameNo, f);
      if keyDueAtUs.None? || newestUs >= keyDueAtUs.value {
        keyDue := true;
      }
    }

    /** Drops every held frame a re-anchor at `anchor` rules out, one key at a time. */
    method Prune(anchor: u32, limit: nat)
      requires pending.Valid()
      modifies `pending
      ensures pending == Orderer.KeepPlausible(old(pending), anchor, limit)
    {
      hide Orderer.Pruned;
      var keys := pending.order;
      PrunedFirst(pending, keys, anchor, limit);
      for i := 0 to |keys|
        invariant pending == Orderer.Pruned(old(pending), keys[..i], anchor, limit)
      {
        PrunedNext(old(pending), keys, i, anchor, limit);
        if !Orderer.IsPlausibleNext(keys[i], anchor, limit) {
          pending := pending.Delete(keys[i]);
        }
      }
      assert keys[..|keys|] == keys;
    }

    /** Hands over the frame at the cursor, if it is held and no replay; `more` says whether to look for the next. */
    method DrainStep() returns (out: seq<WtFrame>, more: bool)
      requires OrderSafety.Filed(pending) && nextSeq.Some?
      modifies `pending, `nextSeq, `lastReleased
      ensures OrderSafety.Filed(pending) && nextSeq.Some?
      ensures |pending.at| <= old(|pending.at|) && (more ==> |pending.at| < old(|pending.at|))
      ensures old(pending.Valid()) && pending.Valid()
      ensures !more ==> (Model(), out) == Orderer.Drain(old(Model()))
      ensures more ==> Orderer.Drain(old(Model())) == (Orderer.Drain(Model()).0, out + Orderer.Drain(Model()).1)
    {
      hide Orderer.Drain, Orderer.IsReplay;
      var cursor := nextSeq.value;
      if !pending.Has(cursor) {
        OrderSafety.DrainNone(Model());
        return [], false;
      }
      var next := pending.at[cursor];
      if Orderer.IsReplay(lastReleased, next) {
        OrderSafety.DrainReplay(Model(), cursor);
        pending := pending.Delete(cursor);
        return [], false;
      }
      OrderSafety.DrainOnce(Model(), next);
      pending := pending.Delete(cursor);
      nextSeq := Some(Next(cursor));
      lastReleased := Some(Orderer.Released(next.frameNo, next.captureUs));
      return [next], true;
    }

    /** Hands over held frames from the cursor on. */
    method DrainHeld() returns (ready: seq<WtFrame>)
      requires pending.Valid() && OrderSafety.Filed(pending)
      modifies `pending, `nextSeq, `lastReleased
      ensures pending.Valid() && (Model(), ready) == Orderer.Drain(old(Model()))
    {
      hide Orderer.Drain, OrderSafety.Filed;
      ready := [];
      if nextSeq.None? {
        OrderSafety.DrainNone(Model());
        return;
      }
      ghost var all := Orderer.Drain(Model());
      var more := true;
      assert ready + all.1 == all.1;
      while more
        invariant OrderSafety.Filed(pending) && pending.Valid() && nextSeq.Some?
        invariant more ==> all == (Orderer.Drain(Model()).0, ready + Orderer.Drain(Model()).1)
        invariant !more ==> all == (Model(), ready)
        decreases |pending.at|, more
      {
        ghost var s, before := Model(), ready;
        var out;
        out, more := DrainStep();
        ready := ready + out;
        Regroup(before, out, Orderer.Drain(Model()).1);
      }
    }

    /** Cadence, newest capture and a new capture clock, noted before anything is decided. */
    method Observe(f: WtFrame)
      modifies `cadenceUs, `lastCaptureUs, `newestUs, `keyDueAtUs
      ensures Model() == Orderer.Clock(old(Model()), f)
    {
      if lastCaptureUs.Some? {
        var step := f.captureUs - lastCaptureUs.value;
        if step > 0 && step < 1_000_000 {
          cadenceUs := cadenceUs * 0.9 + (step as real) * 0.1;
        }
      }
      lastCaptureUs := Some(f.captureUs);
      if f.captureUs > newestUs {
        newestUs := f.captureUs;
      } else if newestUs - f.captureUs > Orderer.NEW_CLOCK_US {
        newestUs := f.captureUs;
        keyDueAtUs := None;
      }
    }

    method Reanchor(f: WtFrame)
      requires pending.Valid() && OrderSafety.Filed(pending)
      modifies this
      ensures pending.Valid() && OrderSafety.Filed(pending) && Model() == Orderer.Anchor(old(Model()), f)
    {
      var horizon := Orderer.HorizonAt(maxReorder, cadenceUs);
      Prune(f.frameNo, if horizon > Orderer.MAX_HELD_FRAMES then horizon else Orderer.MAX_HELD_FRAMES);
      nextSeq := Some(f.frameNo);
      resyncNeeded := false;
      farAhead := 0;
      keyDue := false;
      keyDueAtUs := None;
    }

    method Insert(f: WtFrame) returns (ready: seq<WtFrame>)
      requires pending.Valid() && OrderSafety.Filed(pending)
      modifies this
      ensures pending.Valid() && (Model(), ready) == Orderer.Insert(old(Model()), f)
    {
      farAhead := 0;
      pending := pending.Set(f.frameNo, f);
      ready := DrainHeld();
      var _ := BudgetSpent(f.captureUs);
    }

    /** A delta while anchored. */
    method AcceptAnchored(f: WtFrame) returns (ready: seq<WtFrame>)
      requires pending.Valid() && OrderSafety.Filed(pending) && nextSeq.Some?
      modifies this
      ensures pending.Valid() && (Model(), ready) == Orderer.AcceptAnchored(old(Model()), f)
    {
      hide Orderer.Insert, Orderer.HeldTooLong, Orderer.HorizonAt, OrderSafety.Filed;
      ready := [];
      if Orderer.IsBefore(f.frameNo, nextSeq.value) {
        return;
      }
      var spent := BudgetSpent(f.captureUs);
      if spent {
        return;
      }
      if Orderer.IsPlausibleNext(f.frameNo, nextSeq.value, Orderer.HorizonAt(maxReorder, cadenceUs)) {
        ready := Insert(f);
        return;
      }
      farAhead := farAhead + 1;
      if farAhead > Orderer.HorizonAt(maxReorder, cadenceUs) {
        pending := Empty();
        nextSeq := None;
        resyncNeeded := true;
      }
    }

    method Transition(f: WtFrame) returns (ready: seq<WtFrame>)
      requires pending.Valid() && OrderSafety.Filed(pending)
      modifies this
      ensures pending.Valid() && (Model(), ready) == Orderer.Accept(old(Model()), f)
    {
      hide Orderer.Insert, Orderer.AcceptAnchored, Orderer.Anchor, Orderer.Clock, Orderer.HoldUnanchored,
           Orderer.IsReplay, OrderSafety.Filed;
      ready := [];
      ClockKeeps(Model(), f);
      Observe(f);
      if f.key {
        if !Orderer.IsReplay(lastReleased, f) {
          Reanchor(f);
          ready := Insert(f);
        }
      } else if nextSeq.None? {
        if !Orderer.IsReplay(lastReleased, f) {
          HoldUnanchored(f);
        }
      } else {
        ready := AcceptAnchored(f);
      }
    }

    /** Offers one frame: the new state and the frames now ready are the transition function's. */
    method Accept(f: WtFrame) returns (ready: seq<WtFrame>)
      requires Valid()
      modifies this
      ensures Valid() && pending.Valid() && (Model(), ready) == Orderer.Accept(old(Model()), f)
    {
      hide OrderSafety.Inv, Orderer.Accept;
      ValidParts(Model());
      OrderSafety.AcceptSafe(Model(), f);
      ready := Transition(f);
    }

    predicate NeedsKeyframe()
      reads this
    {
      nextSeq.None?
    }

    predicate KeyframeDue()
      reads this
    {
      nextSeq.None? && keyDue
    }
  }

  lemma ValidParts(s: Orderer.State)
    requires OrderSafety.Inv(s)
    ensures s.pending.Valid() && OrderSafety.Filed(s.pending)
  {}

  lemma ClockKeeps(s: Orderer.State, f: WtFrame)
    ensures Orderer.Clock(s, f).pending == s.pending && Orderer.Clock(s, f).next == s.next
  {}

  lemma OldestNext(keys: seq<u32>, at: map<u32, WtFrame>, i: nat)
    requires i < |keys| && forall k | k in keys :: k in at
    ensures var before, p := Orderer.Oldest(keys[..i], at), at[keys[i]];
      Orderer.Oldest(keys[..i + 1], at)
        == if before.None? || p.captureUs < before.value.captureUs then Some(p) else before
  {
    assert keys[..i + 1][..i] == keys[..i];
  }

  lemma PrunedFirst(p: Table<WtFrame>, keys: seq<u32>, anchor: u32, limit: nat)
    requires p.Valid()
    ensures Orderer.Pruned(p, keys[..0], anchor, limit) == p
  {}

  lemma PrunedNext(p: Table<WtFrame>, keys: seq<u32>, i: nat, anchor: u32, limit: nat)
    requires p.Valid() && i < |keys|
    ensures var q := Orderer.Pruned(p, keys[..i], anchor, limit);
      Orderer.Pruned(p, keys[..i + 1], anchor, limit)
        == if Orderer.IsPlausibleNext(keys[i], anchor, limit) then q else q.Delete(keys[i])
  {
    assert keys[..i + 1][..i] == keys[..i];
  }
}
