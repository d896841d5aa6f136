/**
 Decode order for frames that arrive out of order: the state of the browser's frame
 orderer and its transitions, as functions. `FrameOrderer` in OrdererObject.dfy makes
 the same transitions in place.
 */
module Orderer {
  import opened Bytes
  import opened InsertionOrder
  import opened Wire

  const MAX_REORDER := 8
  const REORDER_BUDGET_MS := 300.0
  const REORDER_BUDGET_US := 300_000.0
  const MAX_HELD_FRAMES := 64
  const KEY_REREQUEST_US := 600_000
  const NEW_CLOCK_US := 5_000_000

  datatype Released = Released(no: u32, captureUs: nat)

  datatype State = State(
    maxReorder: nat,
    pending: Table<WtFrame>,
    next: Option<u32>,
    resync: bool,
    farAhead: nat,
    cadenceUs: real,
    lastCaptureUs: Option<nat>,
    newestUs: nat,
    lastReleased: Option<Released>,
    keyDue: bool,
    keyDueAtUs: Option<nat>,
    budgetMs: real)

  function Fresh(maxReorder: nat): State {
    State(maxReorder, Empty(), None, false, 0, 16_667.0, None, 0, None, false, None, REORDER_BUDGET_MS)
  }

  /** The patience with a hole, in ms of held video, sized by the round trip; 0 or less is not yet measured. */
  function RepairBudgetMs(rttMs: real): (b: real)
    ensures 180.0 <= b <= REORDER_BUDGET_MS
    ensures rttMs <= 0.0 ==> b == REORDER_BUDGET_MS
    ensures 1.0 <= rttMs <= 13.0 ==> b == 10.0 * rttMs + 170.0
  {
    if rttMs <= 0.0 then REORDER_BUDGET_MS
    else
      var scaled := 10.0 * rttMs + 170.0;
      var floored := if scaled > 180.0 then scaled else 180.0;
      if floored < REORDER_BUDGET_MS then floored else REORDER_BUDGET_MS
  }

  /** Wrap-aware "is `a` behind `b`". */
  predicate IsBefore(a: u32, b: u32) {
    Ahead(a, b) >= HALF
  }

  function Ceil(x: real): int {
    if x.Floor as real == x then x.Floor else x.Floor + 1
  }

  /** The repair budget in frames at the observed cadence, never less than the reorder floor. */
  function HorizonAt(maxReorder: nat, cadenceUs: real): (h: nat)
    ensures h >= maxReorder
  {
    var frames := Ceil(REORDER_BUDGET_US / (if cadenceUs > 1.0 then cadenceUs else 1.0));
    if frames > maxReorder then frames else maxReorder
  }

  function Horizon(s: State): (h: nat)
    ensures h >= s.maxReorder
  {
    HorizonAt(s.maxReorder, s.cadenceUs)
  }

  predicate IsPlausibleNext(no: u32, anchor: u32, limit: nat) {
    Ahead(no, anchor) < HALF && Ahead(no, anchor) <= limit
  }

  /** Both the number and the capture time say that `f` is no later than what was handed over last. */
  predicate IsReplay(last: Option<Released>, f: WtFrame) {
    last.Some?
    && (f.frameNo == last.value.no || IsBefore(f.frameNo, last.value.no))
    && f.captureUs <= last.value.captureUs
  }

  /** The held frame captured first, earliest inserted among equals. */
  function Oldest(order: seq<u32>, at: map<u32, WtFrame>): (r: Option<WtFrame>)
    requires forall k | k in order :: k in at
    ensures r.None? <==> |order| == 0
    ensures r.Some? ==> exists k :: k in order && at[k] == r.value
    ensures r.Some? ==> forall k | k in order :: r.value.captureUs <= at[k].captureUs
  {
    if |order| == 0 then None
    else
      assert order == order[..|order| - 1] + [order[|order| - 1]];
      var before := Oldest(order[..|order| - 1], at);
      var last := at[order[|order| - 1]];
      if before.None? || last.captureUs < before.value.captureUs then Some(last) else before
  }

  /** Held video spans the budget, counted back from `newestUs`, or there are too many frames. */
  predicate HeldTooLong(p: Table<WtFrame>, budgetMs: real, newestUs: nat)
    requires p.Valid()
  {
    p.Size() > 0 &&
    (p.Size() > MAX_HELD_FRAMES
     || (newestUs - Oldest(p.order, p.at).value.captureUs) as real / 1000.0 >= budgetMs)
  }

  predicate Spent(s: State, newestUs: nat)
    requires s.pending.Valid()
  {
    HeldTooLong(s.pending, s.budgetMs, newestUs)
  }

  function GiveUp(s: State): State {
    s.(pending := Empty(), next := None, resync := true)
  }

  function BudgetSpent(s: State, newestUs: nat): (r: State)
    requires s.pending.Valid()
    ensures r.pending.Valid()
  {
    if Spent(s, newestUs) then GiveUp(s) else s
  }

  /** What every arrival does first: cadence, newest capture, and a new clock noticed. */
  function Clock(s: State, f: WtFrame): State {
    var step := if s.lastCaptureUs.Some? then f.captureUs - s.lastCaptureUs.value else 0;
    var cadence := if 0 < step < 1_000_000 then s.cadenceUs * 0.9 + (step as real) * 0.1 else s.cadenceUs;
    var t := s.(cadenceUs := cadence, lastCaptureUs := Some(f.captureUs));
    if f.captureUs > s.newestUs then t.(newestUs := f.captureUs)
    else if s.newestUs - f.captureUs > NEW_CLOCK_US then t.(newestUs := f.captureUs, keyDueAtUs := None)
    else t
  }

  /** Held while nothing anchors the sequence; at the limit the oldest capture makes room, unless `f` is older. */
  function HoldUnanchored(s: State, f: WtFrame): (r: State)
    requires s.pending.Valid()
    ensures r.pending.Valid()
  {
    var full := f.frameNo !in s.pending.at && s.pending.Size() >= MAX_HELD_FRAMES;
    var oldest := Oldest(s.pending.order, s.pending.at);
    if full && (oldest.None? || f.captureUs <= oldest.value.captureUs) then s
    else
      var room := if full then s.pending.Delete(oldest.value.frameNo) else s.pending;
      s.(pending := room.Set(f.frameNo, f),
         keyDue := s.keyDue || s.keyDueAtUs.None? || s.newestUs >= s.keyDueAtUs.value)
  }

  /** `p` without those of `keys` a re-anchor at `anchor` rules out. */
  function Pruned(p: Table<WtFrame>, keys: seq<u32>, anchor: u32, limit: nat): (r: Table<WtFrame>)
    requires p.Valid()
    ensures r.Valid() && r.Size() <= p.Size()
    ensures forall k :: k in r.at <==> k in p.at && (k in keys ==> IsPlausibleNext(k, anchor, limit))
    ensures forall k | k in r.at :: r.at[k] == p.at[k]
  {
    if |keys| == 0 then p
    else
      var n := |keys| - 1;
      assert forall k :: k in keys <==> k in keys[..n] || k == keys[n];
      var q := Pruned(p, keys[..n], anchor, limit);
      if IsPlausibleNext(keys[n], anchor, limit) then q else q.Delete(keys[n])
  }

  function KeepPlausible(p: Table<WtFrame>, anchor: u32, limit: nat): (r: Table<WtFrame>)
    requires p.Valid()
    ensures r.Valid() && r.Size() <= p.Size()
    ensures forall k :: k in r.at <==> k in p.at && IsPlausibleNext(k, anchor, limit)
    ensures forall k | k in r.at :: r.at[k] == p.at[k]
  {
    Pruned(p, p.order, anchor, limit)
  }

  /** Re-anchor at a keyframe, keeping what raced ahead of it. */
  function Anchor(s: State, f: WtFrame): (r: State)
    requires s.pending.Valid()
    ensures r.pending.Valid()
  {
    var limit := if Horizon(s) > MAX_HELD_FRAMES then Horizon(s) else MAX_HELD_FRAMES;
    s.(pending := KeepPlausible(s.pending, f.frameNo, limit),
       next := Some(f.frameNo), resync := false, farAhead := 0, keyDue := false, keyDueAtUs := None)
  }

  /** Hand over held frames from the cursor on, until one is missing. */
  function Drain(s: State): (r: (State, seq<WtFrame>))
    requires s.pending.Valid()
    ensures r.0.pending.Valid()
    decreases |s.pending.at|
  {
    if s.next.None? || s.next.value !in s.pending.at then (s, [])
    else
      var f := s.pending.at[s.next.value];
      var t := s.(pending := s.pending.Delete(s.next.value));
      if IsReplay(s.lastReleased, f) then (t, [])
      else
        var rest := Drain(t.(next := Some(Next(s.next.value)), lastReleased := Some(Released(f.frameNo, f.captureUs))));
        (rest.0, [f] + rest.1)
  }

  /** Store an in-window frame, hand over what that makes ready, then see whether the budget is spent. */
  function Insert(s: State, f: WtFrame): (r: (State, seq<WtFrame>))
    requires s.pending.Valid()
    ensures r.0.pending.Valid()
  {
    var (t, ready) := Drain(s.(farAhead := 0, pending := s.pending.Set(f.frameNo, f)));
    (BudgetSpent(t, f.captureUs), ready)
  }

  /** A delta while the cursor waits for one: late, too late, too far ahead, or in the window. */
  function AcceptAnchored(s: State, f: WtFrame): (r: (State, seq<WtFrame>))
    requires s.pending.Valid() && s.next.Some?
    ensures r.0.pending.Valid()
  {
    if IsBefore(f.frameNo, s.next.value) then (s, [])
    else if Spent(s, f.captureUs) then (GiveUp(s), [])
    else if !IsPlausibleNext(f.frameNo, s.next.value, Horizon(s)) then
      var t := s.(farAhead := s.farAhead + 1);
      (if t.farAhead > Horizon(t) then GiveUp(t) else t, [])
    else Insert(s, f)
  }

  /** Offer one frame; the frames now ready to decode, oldest first. */
  function Accept(s0: State, f: WtFrame): (r: (State, seq<WtFrame>))
    requires s0.pending.Valid()
    ensures r.0.pending.Valid()
  {
    var s := Clock(s0, f);
    if f.key then
      if IsReplay(s.lastReleased, f) then (s, []) else Insert(Anchor(s, f), f)
    else if s.next.None? then
      (if IsReplay(s.lastReleased, f) then s else HoldUnanchored(s, f), [])
    else AcceptAnchored(s, f)
  }

  function Reset(s: State, newStream: bool): State {
    var t := if newStream then s.(lastReleased := None, newestUs := 0, keyDue := false, keyDueAtUs := None) else s;
    t.(pending := Empty(), next := None, resync := false, farAhead := 0, lastCaptureUs := None)
  }

  function SetRtt(s: State, rttMs: real): State {
    s.(budgetMs := RepairBudgetMs(rttMs))
  }

  function KeyframeRequested(s: State): State {
    s.(keyDue := false, keyDueAtUs := Some(s.newestUs + KEY_REREQUEST_US))
  }
}
