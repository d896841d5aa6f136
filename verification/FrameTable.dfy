/**
 The browser's table of frames being reassembled from datagrams: which are in flight,
 which numbers are closed, what has been delivered on either carrier, and every re-send
 it asks for. Transitions as functions; `VideoReceiver` in TableObject.dfy makes them in
 place.
 */
module FrameTable {
  import opened Bytes
  import opened InsertionOrder
  import opened Parity
  import opened Wire
  import opened Assembly

  const MAX_IN_FLIGHT := 24
  const MAX_DONE := 512
  const MAX_DELIVERED := 512
  const MAX_WHOLE_NACKED := 256
  const WHOLE_FRAME_SPAN := 16
  const EXPIRY_MS := 900.0
  const MAX_ROUNDS := 4
  const MAX_REQUESTS := 8

  /** What the receiver does to the outside: requests to the host, frames to the page. */
  datatype Output = AskFragment(no: u32, idx: nat) | AskWhole(no: u32) | AskKeyframe | Deliver(frame: WtFrame)

  datatype State = State(
    v4: Table<AsmState>,
    done: seq<u32>,
    delivered: Table<nat>,
    wholeNacked: seq<u32>,
    highest: Option<u32>,
    evicted: nat,
    keyEvicted: nat)

  function Fresh(): State {
    State(Empty(), [], Empty(), [], None, 0, 0)
  }

  /** Every assembly in flight has one slot per fragment. */
  ghost predicate Shaped(v4: Table<AsmState>) {
    v4.Valid() && forall no | no in v4.at :: |v4.at[no].parts| == v4.at[no].cnt
  }

  lemma ShapedSet(v4: Table<AsmState>, no: u32, st: AsmState)
    requires Shaped(v4) && |st.parts| == st.cnt
    ensures Shaped(v4.Set(no, st))
  {}

  lemma ShapedDelete(v4: Table<AsmState>, no: u32)
    requires Shaped(v4)
    ensures Shaped(v4.Delete(no))
  {}

  // ---- the closed numbers, a set that forgets its oldest ------------------------

  function Add(s: seq<u32>, k: u32): seq<u32> {
    if k in s then s else s + [k]
  }

  function Trim(s: seq<u32>, cap: nat): seq<u32> {
    if |s| > cap then s[1..] else s
  }

  function Close(done: seq<u32>, no: u32): seq<u32> {
    Trim(Add(done, no), MAX_DONE)
  }

  function Abandon(s: State, no: u32): State {
    s.(v4 := s.v4.Delete(no), done := Close(s.done, no))
  }

  // ---- whole frames that left no trace -------------------------------------------

  predicate Traced(s: State, no: u32) {
    no in s.v4.at || no in s.done || no in s.delivered.at || no in s.wholeNacked
  }

  function AskWholeFrame(s: State, no: u32): (State, seq<Output>) {
    if Traced(s, no) then (s, [])
    else (s.(wholeNacked := Trim(s.wholeNacked + [no], MAX_WHOLE_NACKED)), [AskWhole(no)])
  }

  /** Asks for the untraced among the `k` numbers after `last`. */
  function AskSkipped(s: State, last: u32, k: nat): (r: (State, seq<Output>))
    ensures r.0 == s.(wholeNacked := r.0.wholeNacked)
  {
    if k == 0 then (s, [])
    else
      var (t, out) := AskSkipped(s, last, k - 1);
      var (u, more) := AskWholeFrame(t, Plus(last, k));
      (u, out + more)
  }

  function NackSkipped(s: State, no: u32): (r: (State, seq<Output>))
    ensures r.0 == s.(highest := r.0.highest, wholeNacked := r.0.wholeNacked)
  {
    if s.highest.None? then (s.(highest := Some(no)), [])
    else
      var last := s.highest.value;
      var ahead := Ahead(no, last);
      if ahead >= HALF then (s, [])
      else if ahead <= 1 || ahead > WHOLE_FRAME_SPAN then (s.(highest := Some(no)), [])
      else AskSkipped(s.(highest := Some(no)), last, ahead - 1)
  }

  // ---- the scan: expiry and fragment requests ---------------------------------------

  datatype Timing = Timing(firstMs: real, gapMs: real)

  function Clamp(v: real, lo: real, hi: real): real {
    var floored := if v > lo then v else lo;
    if floored < hi then floored else hi
  }

  /** The age at which an assembly first asks and the least time between its rounds; 0 or less is no round trip yet. */
  function NackTiming(rttMs: real): (t: Timing)
    ensures 40.0 <= t.firstMs <= 150.0 && 50.0 <= t.gapMs <= 180.0
  {
    if rttMs <= 0.0 then Timing(150.0, 180.0)
    else Timing(Clamp(3.0 * rttMs + 25.0, 40.0, 150.0), Clamp(3.0 * rttMs + 30.0, 50.0, 180.0))
  }

  predicate Expired(st: AsmState, nowMs: real) {
    nowMs - st.atMs > EXPIRY_MS
  }

  predicate DueForNack(st: AsmState, nowMs: real, t: Timing) {
    nowMs - st.atMs > t.firstMs && st.nacks < MAX_ROUNDS && nowMs - st.lastNackMs > t.gapMs
  }

  /** The group visited `g`-th in a round: each round starts one group later. */
  function GroupAt(st: AsmState, g: nat): (r: nat)
    requires g < GroupCount(st.cnt)
    ensures r < GroupCount(st.cnt)
  {
    (g + st.nacks) % GroupCount(st.cnt)
  }

  /** Which of a group's holes a round asks for, if it has any: the next one along each round. */
  function Request(st: AsmState, g: nat): (r: Option<nat>)
    requires |st.parts| == st.cnt && g < GroupCount(st.cnt)
    ensures r.Some? ==> Lo(g) <= r.value < Hi(g, st.cnt) && st.parts[r.value].None?
    ensures r.None? ==> forall i | Lo(g) <= i < Hi(g, st.cnt) :: st.parts[i].Some?
  {
    var missing := Holes(st.parts, Lo(g), Hi(g, st.cnt));
    if |missing| == 0 then None else Some(missing[(st.nacks + g) % |missing|])
  }

  /** The indices one round asks for, from the `g`-th visit on, `budget` of them at most. */
  function Round(st: AsmState, g: nat, budget: nat): (r: seq<nat>)
    requires |st.parts| == st.cnt
    ensures |r| <= budget
    decreases GroupCount(st.cnt) - g
  {
    if g >= GroupCount(st.cnt) || budget == 0 then []
    else
      var hole := Request(st, GroupAt(st, g));
      if hole.None? then Round(st, g + 1, budget) else [hole.value] + Round(st, g + 1, budget - 1)
  }

  function Asks(no: u32, idxs: seq<nat>): (r: seq<Output>)
    ensures |r| == |idxs| && forall i | 0 <= i < |idxs| :: r[i] == AskFragment(no, idxs[i])
  {
    seq(|idxs|, i requires 0 <= i < |idxs| => AskFragment(no, idxs[i]))
  }

  function ScanOne(s: State, no: u32, nowMs: real, t: Timing): (r: (State, seq<Output>))
    requires Shaped(s.v4)
    ensures Shaped(r.0.v4)
    ensures r.0 == s.(v4 := r.0.v4, done := r.0.done)
  {
    if no !in s.v4.at then (s, [])
    else
      var st := s.v4.at[no];
      if Expired(st, nowMs) then (Abandon(s, no), [])
      else if DueForNack(st, nowMs, t) then
        var asked := st.(nacks := st.nacks + 1, lastNackMs := nowMs);
        (s.(v4 := s.v4.Set(no, asked)), Asks(no, Round(asked, 0, MAX_REQUESTS)))
      else (s, [])
  }

  function Scan(s: State, keys: seq<u32>, nowMs: real, t: Timing): (r: (State, seq<Output>))
    requires Shaped(s.v4)
    ensures Shaped(r.0.v4)
    ensures r.0 == s.(v4 := r.0.v4, done := r.0.done)
  {
    if |keys| == 0 then (s, [])
    else
      var (u, out) := Scan(s, keys[..|keys| - 1], nowMs, t);
      var (w, more) := ScanOne(u, keys[|keys| - 1], nowMs, t);
      (w, out + more)
  }

  // ---- making room ------------------------------------------------------------------------

  predicate Eligible(at: map<u32, AsmState>, except: u32, deltasOnly: bool, k: u32)
    requires k in at
  {
    k != except && (deltasOnly ==> !at[k].key)
  }

  /** The numerically lowest eligible key; the order is plain, not wrap-aware. */
  function Lowest(keys: seq<u32>, at: map<u32, AsmState>, except: u32, deltasOnly: bool): (r: Option<u32>)
    requires forall k | k in keys :: k in at
    ensures r.Some? ==> r.value in keys && Eligible(at, except, deltasOnly, r.value)
    ensures r.Some? ==> forall k | k in keys :: Eligible(at, except, deltasOnly, k) ==> r.value <= k
    ensures r.None? ==> forall k | k in keys :: !Eligible(at, except, deltasOnly, k)
  {
    if |keys| == 0 then None
    else
      var n := |keys| - 1;
      assert forall k | k in keys :: k in keys[..n] || k == keys[n];
      var best := Lowest(keys[..n], at, except, deltasOnly);
      if Eligible(at, except, deltasOnly, keys[n]) && (best.None? || keys[n] < best.value) then Some(keys[n]) else best
  }

  /** Who makes room for a new assembly `no`: a delta before a keyframe, the newcomer itself before a keyframe. */
  function Victim(v4: Table<AsmState>, no: u32, key: bool): Option<u32>
    requires v4.Valid()
  {
    var delta := Lowest(v4.order, v4.at, no, true);
    if delta.Some? then delta else if !key then Some(no) else Lowest(v4.order, v4.at, no, false)
  }

  /** After `no` was added: one assembly over the limit makes room, tombstoned without a trim. */
  function MakeRoom(s: State, no: u32, key: bool): (r: (State, seq<Output>))
    requires Shaped(s.v4)
    ensures Shaped(r.0.v4)
  {
    if s.v4.Size() <= MAX_IN_FLIGHT then (s, [])
    else
      var victim := Victim(s.v4, no, key);
      if victim.None? then (s, [])
      else
        var lastResort := key && Lowest(s.v4.order, s.v4.at, no, true).None?;
        (s.(v4 := s.v4.Delete(victim.value), done := Add(s.done, victim.value), evicted := s.evicted + 1,
            keyEvicted := if lastResort then s.keyEvicted + 1 else s.keyEvicted),
         if lastResort then [AskKeyframe] else [])
  }

  function Open(s: State, f: WtFragment, nowMs: real): (r: (State, seq<Output>))
    requires Shaped(s.v4)
    ensures Shaped(r.0.v4)
  {
    if f.frameNo in s.v4.at then (s, [])
    else
      ShapedSet(s.v4, f.frameNo, NewState(f, nowMs));
      MakeRoom(s.(v4 := s.v4.Set(f.frameNo, NewState(f, nowMs))), f.frameNo, f.key)
  }

  // ---- delivery -------------------------------------------------------------------------------

  predicate AlreadyDelivered(delivered: Table<nat>, no: u32, captureUs: nat) {
    no in delivered.at && delivered.at[no] == captureUs
  }

  /** Remember a delivery; over the limit the oldest is forgotten. */
  function Remember(delivered: Table<nat>, no: u32, captureUs: nat): Table<nat> {
    var t := delivered.Set(no, captureUs);
    if t.Size() > MAX_DELIVERED then t.DropFirst() else t
  }

  function FirstDelivery(s: State, f: WtFrame): (State, seq<Output>) {
    if AlreadyDelivered(s.delivered, f.frameNo, f.captureUs) then (s, [])
    else (s.(delivered := Remember(s.delivered, f.frameNo, f.captureUs)), [Deliver(f)])
  }

  /** A datagram for an assembly in flight. */
  function Store(s: State, f: WtFragment): (r: (State, seq<Output>))
    requires Shaped(s.v4)
    ensures Shaped(r.0.v4)
  {
    if f.frameNo !in s.v4.at then (s, [])
    else
      match Absorb(s.v4.at[f.frameNo], f)
      case None => (s, [])
      case Some(st) =>
        ShapedSet(s.v4, f.frameNo, st);
        if Complete(st) then
          FirstDelivery(Abandon(s, f.frameNo), WtFrame(f.frameNo, st.captureUs, st.key, Payload(st)))
        else (s.(v4 := s.v4.Set(f.frameNo, st)), [])
  }

  // ---- the two carriers ------------------------------------------------------------------------

  function Offer(s: State, f: WtFragment, nowMs: real): (r: (State, seq<Output>))
    requires Shaped(s.v4)
    ensures Shaped(r.0.v4)
  {
    if f.frameNo in s.done then (s, [])
    else
      var (t, asked) := Open(s, f, nowMs);
      var (u, out) := Store(t, f);
      (u, asked + out)
  }

  /** One datagram. */
  function OnDatagram(s: State, f: WtFragment, nowMs: real, rttMs: real): (r: (State, seq<Output>))
    requires Shaped(s.v4)
    ensures Shaped(r.0.v4)
  {
    var (t, whole) := NackSkipped(s, f.frameNo);
    if f.frameNo in t.done then (t, whole)
    else
      var (u, asked) := Scan(t, t.v4.order, nowMs, NackTiming(rttMs));
      var (w, out) := Offer(u, f, nowMs);
      (w, whole + asked + out)
  }

  /** One frame read off the reliable stream. */
  function OnStreamFrame(s: State, f: WtFrame): (r: (State, seq<Output>))
    requires Shaped(s.v4)
    ensures Shaped(r.0.v4)
  {
    var (t, out) := FirstDelivery(s, f);
    if out == [] then (t, out) else (Abandon(t, f.frameNo), out)
  }

  // ---- runs ---------------------------------------------------------------------------------------

  datatype Event = Datagram(f: WtFragment, nowMs: real, rttMs: real) | StreamFrame(frame: WtFrame)

  function Step(s: State, e: Event): (r: (State, seq<Output>))
    requires Shaped(s.v4)
    ensures Shaped(r.0.v4)
  {
    match e
    case Datagram(f, nowMs, rttMs) => OnDatagram(s, f, nowMs, rttMs)
    case StreamFrame(frame) => OnStreamFrame(s, frame)
  }

  function Run(es: seq<Event>): (r: (State, seq<Output>))
    ensures Shaped(r.0.v4)
  {
    if |es| == 0 then (Fresh(), [])
    else
      var (t, log) := Run(es[..|es| - 1]);
      var (u, out) := Step(t, es[|es| - 1]);
      (u, log + out)
  }

  lemma RunNothing()
    ensures Run([]) == (Fresh(), [])
  {}

  lemma RunSnoc(es: seq<Event>, e: Event)
    ensures Run(es + [e]) == (Step(Run(es).0, e).0, Run(es).1 + Step(Run(es).0, e).1)
  {
    hide Step;
    assert (es + [e])[..|es|] == es;
  }
}
