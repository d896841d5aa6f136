/** What the receiver asks the host to send again: bounded, useful, and never twice in a round. */
module Requests {
  import opened Bytes
  import opened InsertionOrder
  import opened Wire
  import opened Assembly
  import opened FrameTable
  import opened TableSafety
  import opened Deliveries

  // ---- an assembly's life -----------------------------------------------------------------

  function Fragments(out: seq<Output>, no: u32): nat {
    if |out| == 0 then 0
    else Fragments(out[..|out| - 1], no)
         + (if out[|out| - 1].AskFragment? && out[|out| - 1].no == no then 1 else 0)
  }

  lemma {:induction false} FragmentsAppend(a: seq<Output>, b: seq<Output>, no: u32)
    ensures Fragments(a + b, no) == Fragments(a, no) + Fragments(b, no)
  {
    if |b| == 0 {
      assert a + b == a;
    } else {
      FragmentsAppend(a, b[..|b| - 1], no);
      assert (a + b)[..|a + b| - 1] == a + b[..|b| - 1];
    }
  }

  lemma {:induction false} FragmentsBound(out: seq<Output>, no: u32)
    ensures Fragments(out, no) <= |out|
    ensures (forall o | o in out :: !(o.AskFragment? && o.no == no)) ==> Fragments(out, no) == 0
  {
    if |out| > 0 {
      FragmentsBound(out[..|out| - 1], no);
      assert forall o | o in out[..|out| - 1] :: o in out;
    }
  }

  /** `no` stays in flight, and its requests are paid for by rounds, eight to the round. */
  ghost predicate Charged(s: State, t: State, out: seq<Output>, no: u32)
    requires no in s.v4.at && no in t.v4.at
  {
    && s.v4.at[no].nacks <= t.v4.at[no].nacks <= MAX_ROUNDS
    && Fragments(out, no) <= 8 * (t.v4.at[no].nacks - s.v4.at[no].nacks)
  }

  /** `x` is among the last `d` closed. */
  ghost predicate Late(done: seq<u32>, x: u32, d: nat) {
    exists i :: 0 <= i < |done| && done[i] == x && |done| - i <= d
  }

  lemma CloseKeepsLate(done: seq<u32>, no: u32, x: u32, d: nat)
    requires Late(done, x, d) && d < MAX_DONE
    ensures Late(Close(done, no), x, d + 1)
  {
    var i :| 0 <= i < |done| && done[i] == x && |done| - i <= d;
    var added := Add(done, no);
    assert added[i] == x;
    var after := Close(done, no);
    if |added| > MAX_DONE {
      assert after[i - 1] == x;
    } else {
      assert after[i] == x;
    }
  }

  lemma CloseIsLate(done: seq<u32>, no: u32)
    requires no !in done
    ensures Late(Close(done, no), no, 1)
  {
    var after := Close(done, no);
    assert after[|after| - 1] == no;
  }

  /** The requests an assembly can still make. */
  function Allowance(st: AsmState): int {
    8 * (MAX_ROUNDS - st.nacks)
  }

  /** Where the scan leaves `no`, given where it found it: charged, or gone and lately closed. */
  ghost predicate Scanned(s: State, t: State, out: seq<Output>, no: u32, d: nat) {
    if no !in s.v4.at then no !in t.v4.at && Fragments(out, no) == 0
    else if no !in t.v4.at then Late(t.done, no, d) && Fragments(out, no) <= Allowance(s.v4.at[no])
    else Charged(s, t, out, no)
  }

  lemma RoundOfOthers(no: u32, idxs: seq<nat>, x: u32)
    ensures x != no ==> Fragments(Asks(no, idxs), x) == 0
    ensures Fragments(Asks(no, idxs), x) <= |idxs|
  {
    FragmentsBound(Asks(no, idxs), x);
  }

  lemma ScanOneScanned(s: State, key: u32, nowMs: real, t: Timing, no: u32)
    requires Shaped(s.v4) && Inv(s)
    ensures var (w, out) := ScanOne(s, key, nowMs, t);
      && Scanned(s, w, out, no, 1)
      && forall d: nat | d < MAX_DONE && Late(s.done, no, d) :: Late(w.done, no, d + 1)
  {
    hide Inv, Late, Round, Close;
    InvParts(s);
    ApartParts(s.v4, s.done);
    assert Fragments([], no) == 0;
    if key in s.v4.at {
      var st := s.v4.at[key];
      var asked := st.(nacks := st.nacks + 1, lastNackMs := nowMs);
      RoundOfOthers(key, Round(asked, 0, MAX_REQUESTS), no);
      CloseIsLate(s.done, key);
    }
    forall d: nat | d < MAX_DONE && Late(s.done, no, d)
      ensures Late(ScanOne(s, key, nowMs, t).0.done, no, d + 1)
    {
      CloseKeepsLate(s.done, key, no, d);
      LateMore(s.done, no, d);
    }
  }

  lemma LateMore(done: seq<u32>, no: u32, d: nat)
    requires Late(done, no, d)
    ensures Late(done, no, d + 1) && no in done
  {}

  lemma InvParts(s: State)
    requires Inv(s)
    ensures Apart(s.v4, s.done) && s.v4.Size() <= MAX_IN_FLIGHT && s.v4.Valid()
  {}

  lemma {:induction false} ScanScanned(s: State, keys: seq<u32>, nowMs: real, t: Timing, no: u32)
    requires Shaped(s.v4) && Inv(s) && |keys| < MAX_DONE
    ensures var (w, out) := Scan(s, keys, nowMs, t); Scanned(s, w, out, no, |keys|)
  {
    hide Inv, Late, ScanOne, Scanned;
    if |keys| == 0 {
      InvParts(s);
      ApartParts(s.v4, s.done);
      ScannedSelf(s, no);
    } else {
      var front := keys[..|keys| - 1];
      var (u, out) := Scan(s, front, nowMs, t);
      var (w, more) := ScanOne(u, keys[|keys| - 1], nowMs, t);
      ScanSafe(s, front, nowMs, t);
      ScanScanned(s, front, nowMs, t, no);
      ScanOneScanned(u, keys[|keys| - 1], nowMs, t, no);
      InvParts(u);
      ApartParts(u.v4, u.done);
      FragmentsAppend(out, more, no);
      ScannedJoin(s, u, w, out, more, no, |front|);
    }
  }

  lemma ScannedSelf(s: State, no: u32)
    requires forall k | k in s.v4.at :: s.v4.at[k].nacks <= MAX_ROUNDS
    ensures Scanned(s, s, [], no, 0)
  {}

  lemma ScannedJoin(s: State, u: State, w: State, out: seq<Output>, more: seq<Output>, no: u32, d: nat)
    requires Scanned(s, u, out, no, d) && Scanned(u, w, more, no, 1) && d < MAX_DONE
    requires Late(u.done, no, d) ==> Late(w.done, no, d + 1)
    requires no in u.v4.at ==> u.v4.at[no].nacks <= MAX_ROUNDS
    requires Fragments(out + more, no) == Fragments(out, no) + Fragments(more, no)
    ensures Scanned(s, w, out + more, no, d + 1)
  {
    hide Fragments;
  }

  /** Making room and storing ask for no fragments and leave the round counts alone; a new assembly has none. */
  lemma OfferQuiet(s: State, f: WtFragment, nowMs: real, no: u32)
    requires Shaped(s.v4)
    ensures var (t, out) := Offer(s, f, nowMs);
      && Fragments(out, no) == 0
      && (no in t.v4.at && no in s.v4.at ==> t.v4.at[no].nacks == s.v4.at[no].nacks)
      && (no in t.v4.at && no !in s.v4.at ==> t.v4.at[no].nacks == 0 && no == f.frameNo && no !in s.done)
  {
    hide Shaped, Absorb, Open, Store;
    if f.frameNo !in s.done {
      var (t, asked) := Open(s, f, nowMs);
      var (u, out) := Store(t, f);
      OpenQuiet(s, f, nowMs, no);
      StoreQuiet(t, f, no);
      FragmentsAppend(asked, out, no);
    }
  }

  lemma OpenQuiet(s: State, f: WtFragment, nowMs: real, no: u32)
    requires Shaped(s.v4)
    ensures var (t, out) := Open(s, f, nowMs);
      && Fragments(out, no) == 0
      && (no in t.v4.at && no in s.v4.at ==> t.v4.at[no] == s.v4.at[no])
      && (no in t.v4.at && no !in s.v4.at ==> t.v4.at[no].nacks == 0 && no == f.frameNo)
  {
    hide Shaped, Victim, Lowest;
    FragmentsBound(Open(s, f, nowMs).1, no);
  }

  lemma StoreQuiet(s: State, f: WtFragment, no: u32)
    requires Shaped(s.v4)
    ensures var (t, out) := Store(s, f);
      && Fragments(out, no) == 0
      && (no in t.v4.at ==> no in s.v4.at && t.v4.at[no].nacks == s.v4.at[no].nacks)
  {
    hide Absorb, Payload, Close, Remember, Complete;
    FragmentsBound(Store(s, f).1, no);
  }

  /** What one event does for `no`: nothing asked before it is in flight; then every request is paid for. */
  ghost predicate Accounted(s: State, t: State, out: seq<Output>, no: u32) {
    if no !in s.v4.at then Fragments(out, no) == 0 && (no in t.v4.at ==> t.v4.at[no].nacks == 0)
    else if no in t.v4.at then Charged(s, t, out, no)
    else Fragments(out, no) <= Allowance(s.v4.at[no])
  }

  lemma SkippedQuiet(s: State, no: u32, x: u32)
    ensures Fragments(NackSkipped(s, no).1, x) == 0
  {
    hide NackSkipped;
    SkippedOnlyAsksWhole(s, no);
    FragmentsBound(NackSkipped(s, no).1, x);
  }

  lemma DatagramAccounted(s: State, f: WtFragment, nowMs: real, rttMs: real, no: u32)
    requires Shaped(s.v4) && Inv(s)
    ensures var (t, out) := OnDatagram(s, f, nowMs, rttMs); Accounted(s, t, out, no)
  {
    hide Inv, Late, NackSkipped, Scan, Offer, Fragments, Shaped;
    InvParts(s);
    ApartNacks(s.v4, s.done);
    var (t, whole) := NackSkipped(s, f.frameNo);
    NackSkippedSafe(s, f.frameNo);
    SkippedQuiet(s, f.frameNo, no);
    if f.frameNo !in t.done {
      var timing := NackTiming(rttMs);
      var (u, asked) := Scan(t, t.v4.order, nowMs, timing);
      ScanScanned(t, t.v4.order, nowMs, timing, no);
      var (w, out) := Offer(u, f, nowMs);
      OfferQuiet(u, f, nowMs, no);
      FragmentsAppend(whole, asked, no);
      FragmentsAppend(whole + asked, out, no);
      if Late(u.done, no, |t.v4.order|) {
        LateMore(u.done, no, |t.v4.order|);
      }
    }
  }

  lemma ApartNacks(v4: Table<AsmState>, done: seq<u32>)
    requires Apart(v4, done)
    ensures forall no | no in v4.at :: v4.at[no].nacks <= MAX_ROUNDS
  {}

  lemma StepAccounted(s: State, e: Event, no: u32)
    requires Shaped(s.v4) && Inv(s)
    ensures var (t, out) := Step(s, e); Accounted(s, t, out, no)
  {
    hide Inv, OnDatagram, Close, Remember;
    InvParts(s);
    ApartNacks(s.v4, s.done);
    match e
    case Datagram(f, nowMs, rttMs) => DatagramAccounted(s, f, nowMs, rttMs, no);
    case StreamFrame(frame) => FragmentsBound(OnStreamFrame(s, frame).1, no);
  }

  /** `no` is not in flight after `pre`, and then is after every event of `life` but possibly the last. */
  ghost predicate Life(pre: seq<Event>, life: seq<Event>, no: u32) {
    no !in Run(pre).0.v4.at && forall k | 0 < k < |life| :: no in Run(pre + life[..k]).0.v4.at
  }

  lemma {:induction false} LifeCharges(pre: seq<Event>, life: seq<Event>, no: u32)
    requires Life(pre, life, no)
    ensures var a, b := Run(pre), Run(pre + life);
      && Fragments(b.1, no) - Fragments(a.1, no)
           <= (if no in b.0.v4.at then 8 * b.0.v4.at[no].nacks else 32)
      && (no in b.0.v4.at ==> b.0.v4.at[no].nacks <= MAX_ROUNDS)
  {
    hide Step, Inv, Fragments;
    RunSafe(pre + life);
    InvParts(Run(pre + life).0);
    ApartNacks(Run(pre + life).0.v4, Run(pre + life).0.done);
    if |life| == 0 {
      assert pre + life == pre;
    } else {
      var front, e := life[..|life| - 1], life[|life| - 1];
      assert forall k | 0 < k < |front| :: front[..k] == life[..k];
      LifeCharges(pre, front, no);
      assert (pre + life)[..|pre + life| - 1] == pre + front;
      RunSafe(pre + front);
      var s := Run(pre + front).0;
      StepAccounted(s, e, no);
      FragmentsAppend(Run(pre + front).1, Step(s, e).1, no);
      if |front| == 0 {
        assert pre + front == pre;
      } else {
        assert life[..|front|] == front;
      }
    }
  }

  /** Over an assembly's whole life, from before its first datagram to its removal: at most four rounds, so at most
      32 fragment requests. */
  lemma LifeIsBounded(pre: seq<Event>, life: seq<Event>, no: u32)
    requires Life(pre, life, no)
    ensures Fragments(Run(pre + life).1, no) <= Fragments(Run(pre).1, no) + 4 * 8
    ensures no in Run(pre + life).0.v4.at ==> Run(pre + life).0.v4.at[no].nacks <= 4
  {
    LifeCharges(pre, life, no);
  }

  // ---- whole frames ----------------------------------------------------------------------------

  /** Strictly between the newest number seen and the arrival, on a wrapping counter. */
  predicate StrictlyBetween(last: u32, m: u32, no: u32) {
    0 < Ahead(m, last) < Ahead(no, last) <= WHOLE_FRAME_SPAN
  }

  lemma PlusAhead(last: u32, k: nat)
    requires k < TWO32
    ensures Ahead(Plus(last, k), last) == k
  {}

  lemma AheadPlus(last: u32, m: u32)
    ensures Plus(last, Ahead(m, last)) == m
  {}

  /** The `k` numbers after `last`: what is asked for is untraced, and every one untraced is asked for. */
  ghost predicate AsksSkipped(s: State, t: State, out: seq<Output>, last: u32, k: nat) {
    && (forall o | o in out :: o.AskWhole? && 0 < Ahead(o.no, last) <= k && !InTable(s, o.no))
    && (forall m: u32 | 0 < Ahead(m, last) <= k && !Traced(s, m) :: AskWhole(m) in out)
    && (forall i, j | 0 <= i < j < |out| :: out[i] != out[j])
    && (forall m: u32 | Ahead(m, last) > k && m in t.wholeNacked :: m in s.wholeNacked)
  }

  predicate InTable(s: State, no: u32) {
    no in s.v4.at || no in s.done || no in s.delivered.at
  }

  lemma {:induction false} SkippedAsked(s: State, last: u32, k: nat)
    requires k < TWO32
    ensures AsksSkipped(s, AskSkipped(s, last, k).0, AskSkipped(s, last, k).1, last, k)
  {
    if k > 0 {
      SkippedAsked(s, last, k - 1);
      SkippedNext(s, last, k);
    }
  }

  lemma SkippedNext(s: State, last: u32, k: nat)
    requires 0 < k < TWO32
    requires AsksSkipped(s, AskSkipped(s, last, k - 1).0, AskSkipped(s, last, k - 1).1, last, k - 1)
    ensures AsksSkipped(s, AskSkipped(s, last, k).0, AskSkipped(s, last, k).1, last, k)
  {
    hide Plus, Ahead;
    var (t, out) := AskSkipped(s, last, k - 1);
    var m := Plus(last, k);
    var (u, more) := AskWholeFrame(t, m);
    PlusAhead(last, k);
    forall x: u32 | 0 < Ahead(x, last) <= k && !Traced(s, x) ensures AskWhole(x) in out + more {
      AheadPlus(last, x);
    }
  }

  /** What is remembered of whole-frame requests once `out` has been asked for on top of `memory`. */
  function Kept(memory: seq<u32>, out: seq<Output>): seq<u32> {
    Latest(memory + Numbers(out, true), MAX_WHOLE_NACKED)
  }

  /** Nothing is asked for that is remembered at that moment. */
  ghost predicate NoneRemembered(memory: seq<u32>, out: seq<Output>) {
    forall j | 0 <= j < |out| :: out[j].AskWhole? ==> out[j].no !in Kept(memory, out[..j])
  }

  lemma KeptSnoc(memory: seq<u32>, out: seq<Output>, no: u32)
    ensures Kept(memory, out + [AskWhole(no)]) == Trim(Kept(memory, out) + [no], MAX_WHOLE_NACKED)
  {
    hide Numbers;
    NumbersAppend(out, [AskWhole(no)], true);
    NumbersOne(AskWhole(no), true);
    Regroup(memory, Numbers(out, true), [no]);
  }

  lemma NoneRememberedSnoc(memory: seq<u32>, out: seq<Output>, no: u32)
    requires NoneRemembered(memory, out) && no !in Kept(memory, out)
    ensures NoneRemembered(memory, out + [AskWhole(no)])
  {
    hide Kept;
    var all := out + [AskWhole(no)];
    forall j | 0 <= j < |all| ensures all[j].AskWhole? ==> all[j].no !in Kept(memory, all[..j]) {
      assert all[..j] == if j < |out| then out[..j] else out;
    }
  }

  lemma {:induction false} SkippedIsFresh(s: State, last: u32, k: nat)
    requires |s.wholeNacked| <= MAX_WHOLE_NACKED
    ensures var (t, out) := AskSkipped(s, last, k);
      t.wholeNacked == Kept(s.wholeNacked, out) && NoneRemembered(s.wholeNacked, out)
  {
    hide Kept, Plus, Numbers;
    if k == 0 {
      NothingKept(s.wholeNacked);
    } else {
      SkippedIsFresh(s, last, k - 1);
      var (t, out) := AskSkipped(s, last, k - 1);
      var no := Plus(last, k);
      KeptSnoc(s.wholeNacked, out, no);
      assert out + [] == out;
      if !Traced(t, no) {
        NoneRememberedSnoc(s.wholeNacked, out, no);
      }
    }
  }

  lemma NothingKept(memory: seq<u32>)
    requires |memory| <= MAX_WHOLE_NACKED
    ensures Kept(memory, []) == memory
  {
    assert memory + [] == memory;
  }

  /**
   The requests for frames that left no trace name only numbers strictly between the newest seen and the arrival,
   each once, none in flight, closed, delivered, or among the last 256 asked for whole when it is asked; and every
   number between that had left no trace is asked for.
   */
  lemma WholeFrameRequests(s: State, no: u32)
    requires s.highest.Some? && 1 < Ahead(no, s.highest.value) <= WHOLE_FRAME_SPAN
    ensures var out, last := NackSkipped(s, no).1, s.highest.value;
      && (forall o | o in out :: o.AskWhole? && StrictlyBetween(last, o.no, no) && !InTable(s, o.no))
      && (forall m: u32 | StrictlyBetween(last, m, no) && !Traced(s, m) :: AskWhole(m) in out)
      && (forall i, j | 0 <= i < j < |out| :: out[i] != out[j])
      && (|s.wholeNacked| <= MAX_WHOLE_NACKED ==> NoneRemembered(s.wholeNacked, out))
  {
    hide Kept, NoneRemembered, Plus, Ahead, AskSkipped;
    var last := s.highest.value;
    if |s.wholeNacked| <= MAX_WHOLE_NACKED {
      SkippedIsFresh(s.(highest := Some(no)), last, Ahead(no, last) - 1);
    }
    SkippedAsked(s.(highest := Some(no)), last, Ahead(no, last) - 1);
  }

  /**
   Which gaps are asked about, and what becomes the newest number seen: an arrival 2 to 16 ahead of it has every number
   between that left no trace asked for, any other arrival none; and an arrival not behind it becomes the newest.
   */
  lemma GapsExactly(s: State, no: u32)
    ensures var (t, out) := NackSkipped(s, no);
      && t.highest == (if s.highest.Some? && Ahead(no, s.highest.value) >= 0x8000_0000 then s.highest else Some(no))
      && (s.highest.None? ==> out == [])
      && (s.highest.Some? ==>
            var last := s.highest.value;
            if 2 <= Ahead(no, last) <= 16
            then forall m: u32 | StrictlyBetween(last, m, no) && !Traced(s, m) :: AskWhole(m) in out
            else out == [])
  {
    hide Traced, AskSkipped, Plus, NoneRemembered;
    if s.highest.Some? && 2 <= Ahead(no, s.highest.value) <= 16 {
      WholeFrameRequests(s, no);
    }
  }
}
