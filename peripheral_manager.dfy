/**
 * The button callback of the peripheral manager (`_input_key_service_cb`):
 * per-button press tracking, the doorbell button with its 5 s rate limit,
 * and the provisioning-reset button that acts on a press of at least 3 s.
 *
 * The board's key count and the ids of the doorbell (`INPUT_KEY_USER_ID_REC`)
 * and reset (`INPUT_KEY_USER_ID_PLAY`) keys come from the audio board
 * definition and are parameters here, as is `portTICK_PERIOD_MS`. Tick
 * counts are `uint32_t`, so every elapsed time is computed modulo 2^32.
 * The two calls out of the callback, `broadcast_doorbell_ring` and
 * `clear_wifi_provisioning`, are recorded as actions.
 */
module PeripheralManager {
  import opened Platform

  const BUTTON_PRESS_DURATION_MS: nat := 3000
  const WAIT_TIME_BETWEEN_NOTIFICATIONS_MS: nat := 5000

  /** The key layout of the board and the tick period. */
  datatype Board = Board(keyNum: nat, recId: int, playId: int, tickPeriodMs: uint32)

  /** The input key service actions the callback distinguishes. */
  datatype KeyAction = Click | ClickRelease | PressRelease | OtherAction

  /**
   * One callback invocation: the action, `(int)evt->data`, the tick count
   * read first (`now`) and the one read again when a ring is recorded.
   */
  datatype KeyEvent = KeyEvent(action: KeyAction, buttonId: int, now: uint32, ringTick: uint32)

  /** What the callback calls: the doorbell broadcast (with the tick it records) or the provisioning reset. */
  datatype Effect = Ring(now: uint32, recorded: uint32) | ClearProvisioning

  /** The callback's static state: press start ticks, pressed flags, last ring tick. */
  datatype Buttons = Buttons(start: seq<uint32>, pressed: seq<bool>, lastRing: uint32)

  /** The state before any event: all zero and not pressed. */
  function InitialButtons(b: Board): (st: Buttons)
    ensures |st.start| == |st.pressed| == b.keyNum && st.lastRing == 0
    ensures forall k :: 0 <= k < b.keyNum ==> st.start[k] == 0 && !st.pressed[k]
  {
    Buttons(seq(b.keyNum, _ => 0), seq(b.keyNum, _ => false), 0)
  }

  predicate WellFormed(b: Board, st: Buttons)
  {
    |st.start| == |st.pressed| == b.keyNum
  }

  /** `(later - earlier) * portTICK_PERIOD_MS` in `uint32_t` arithmetic. */
  function Elapsed(later: uint32, earlier: uint32, tickPeriodMs: uint32): (ms: uint32)
    ensures earlier <= later && (later - earlier) * tickPeriodMs < UINT32_MOD ==>
      ms == (later - earlier) * tickPeriodMs
  {
    Wrap32(Wrap32(later - earlier) * tickPeriodMs)
  }

  /** The bounds check as written (`button_id < INPUT_KEY_NUM`): a negative id passes. */
  predicate GuardAsWritten(id: int, keyNum: nat)
  {
    id < keyNum
  }

  /** The bounds check the array accesses need. */
  predicate ValidButton(id: int, keyNum: nat)
  {
    0 <= id < keyNum
  }

  /** A negative id, such as the input key service's unknown-key id -1, passes the check as written but is no index. */
  lemma NegativeIdPassesGuard(keyNum: nat)
    requires keyNum > 0
    ensures GuardAsWritten(-1, keyNum) && !ValidButton(-1, keyNum)
  {
  }

  /** The checked guard admits exactly the array indices. */
  lemma ValidButtonIsIndex(id: int, keyNum: nat)
    ensures ValidButton(id, keyNum) <==> GuardAsWritten(id, keyNum) && 0 <= id
    ensures ValidButton(id, keyNum) ==> GuardAsWritten(id, keyNum)
  {
  }

  /** Whether a release of the doorbell key may ring: no ring yet, or at least 5000 ms since the last. */
  predicate RingAllowed(b: Board, lastRing: uint32, now: uint32)
  {
    lastRing == 0 || Elapsed(now, lastRing, b.tickPeriodMs) >= WAIT_TIME_BETWEEN_NOTIFICATIONS_MS
  }

  /**
   * One invocation of the callback: the new state and the calls it makes.
   * It always returns `ESP_OK`, so the result is not part of the value.
   */
  function Callback(b: Board, st: Buttons, e: KeyEvent): (r: (Buttons, seq<Effect>))
    requires WellFormed(b, st)
    ensures WellFormed(b, r.0) && |r.1| <= 1
  {
    var id := e.buttonId;
    match e.action
    case Click =>
      if ValidButton(id, b.keyNum) then (st.(start := st.start[id := e.now], pressed := st.pressed[id := true]), [])
      else (st, [])
    case ClickRelease => Release(b, st, e)
    case PressRelease => Release(b, st, e)
    case OtherAction => (st, [])
  }

  /** A release: only for a key marked pressed, which is then unmarked. */
  function Release(b: Board, st: Buttons, e: KeyEvent): (r: (Buttons, seq<Effect>))
    requires WellFormed(b, st)
    ensures WellFormed(b, r.0) && |r.1| <= 1
  {
    var id := e.buttonId;
    if !(ValidButton(id, b.keyNum) && st.pressed[id]) then (st, [])
    else
      var released := st.(pressed := st.pressed[id := false]);
      if id == b.recId then
        if RingAllowed(b, st.lastRing, e.now) then (released.(lastRing := e.ringTick), [Ring(e.now, e.ringTick)])
        else (released, [])
      else if id == b.playId then
        if Elapsed(e.now, st.start[id], b.tickPeriodMs) >= BUTTON_PRESS_DURATION_MS then (released, [ClearProvisioning])
        else (released, [])
      else (released, [])
  }

  /** A click on a valid key records the tick and marks it pressed; nothing else changes and nothing is called. */
  lemma ClickRecords(b: Board, st: Buttons, e: KeyEvent)
    requires WellFormed(b, st) && e.action == Click
    ensures var (st', out) := Callback(b, st, e);
      && out == []
      && st'.lastRing == st.lastRing
      && (ValidButton(e.buttonId, b.keyNum) ==> st'.start[e.buttonId] == e.now && st'.pressed[e.buttonId])
      && (forall k :: 0 <= k < b.keyNum && k != e.buttonId ==>
            st'.start[k] == st.start[k] && st'.pressed[k] == st.pressed[k])
  {
  }

  /** A release of a key not marked pressed (or out of range) does nothing. */
  lemma ReleaseWithoutClick(b: Board, st: Buttons, e: KeyEvent)
    requires WellFormed(b, st) && (e.action == ClickRelease || e.action == PressRelease)
    requires !ValidButton(e.buttonId, b.keyNum) || !st.pressed[e.buttonId]
    ensures Callback(b, st, e) == (st, [])
  {
  }

  /**
   * Releasing a pressed doorbell key rings exactly when no ring was recorded
   * or at least 5000 ms passed since it, and then records the second tick
   * read; the key is unmarked either way.
   */
  lemma DoorbellRule(b: Board, st: Buttons, e: KeyEvent)
    requires WellFormed(b, st) && (e.action == ClickRelease || e.action == PressRelease)
    requires ValidButton(e.buttonId, b.keyNum) && st.pressed[e.buttonId] && e.buttonId == b.recId
    ensures var (st', out) := Callback(b, st, e);
      && !st'.pressed[e.buttonId]
      && (out == [Ring(e.now, e.ringTick)] <==> RingAllowed(b, st.lastRing, e.now))
      && (RingAllowed(b, st.lastRing, e.now) ==> st'.lastRing == e.ringTick)
      && (!RingAllowed(b, st.lastRing, e.now) ==> out == [] && st'.lastRing == st.lastRing)
  {
  }

  /**
   * Releasing a pressed reset key (not the doorbell key) clears the
   * provisioning exactly when the press lasted at least 3000 ms.
   */
  lemma ResetRule(b: Board, st: Buttons, e: KeyEvent)
    requires WellFormed(b, st) && (e.action == ClickRelease || e.action == PressRelease)
    requires ValidButton(e.buttonId, b.keyNum) && st.pressed[e.buttonId]
    requires e.buttonId == b.playId && b.playId != b.recId
    ensures var (st', out) := Callback(b, st, e);
      && !st'.pressed[e.buttonId] && st'.lastRing == st.lastRing
      && (out == [ClearProvisioning]
          <==> Elapsed(e.now, st.start[e.buttonId], b.tickPeriodMs) >= BUTTON_PRESS_DURATION_MS)
      && (out != [ClearProvisioning] ==> out == [])
  {
  }

  /** Events one after the other: the final state and every call made, in order. */
  function Run(b: Board, st: Buttons, evs: seq<KeyEvent>): (r: (Buttons, seq<Effect>))
    requires WellFormed(b, st)
    ensures WellFormed(b, r.0)
  {
    if evs == [] then (st, [])
    else
      var (s1, out1) := Run(b, st, evs[..|evs| - 1]);
      var (s2, out2) := Callback(b, s1, evs[|evs| - 1]);
      (s2, out1 + out2)
  }

  /** The doorbell rings among the calls made. */
  function Rings(out: seq<Effect>): (rs: seq<Effect>)
    ensures |rs| <= |out|
    ensures forall k :: 0 <= k < |rs| ==> rs[k].Ring?
  {
    if out == [] then []
    else Rings(out[..|out| - 1]) + (if out[|out| - 1].Ring? then [out[|out| - 1]] else [])
  }

  /** The ring tick in effect before ring `i`: the initial one, then the one each ring recorded. */
  function PreviousRing(first: uint32, rs: seq<Effect>, i: nat): uint32
    requires i < |rs| && forall k :: 0 <= k < |rs| ==> rs[k].Ring?
  {
    if i == 0 then first else rs[i - 1].recorded
  }

  /** Whether a call list holds a ring. */
  predicate RingsIn(out: seq<Effect>)
  {
    out != [] && out[0].Ring?
  }

  /** One invocation rings only when allowed, and the ring tick changes only by a ring. */
  lemma CallbackRing(b: Board, st: Buttons, e: KeyEvent)
    requires WellFormed(b, st)
    ensures var r := Callback(b, st, e);
      && (RingsIn(r.1) ==> RingAllowed(b, st.lastRing, r.1[0].now) && r.0.lastRing == r.1[0].recorded)
      && (!RingsIn(r.1) ==> r.0.lastRing == st.lastRing)
  {
  }

  /**
   * Over any run, every doorbell ring happens with no ring recorded before
   * it or at least 5000 ms (modulo 2^32 ticks) after the previous recorded
   * ring, and the state holds the tick the last ring recorded.
   */
  lemma {:induction false} RingsSpaced(b: Board, st: Buttons, evs: seq<KeyEvent>)
    requires WellFormed(b, st)
    ensures var r := Run(b, st, evs);
      var rs := Rings(r.1);
      && (forall i :: 0 <= i < |rs| ==> RingAllowed(b, PreviousRing(st.lastRing, rs, i), rs[i].now))
      && r.0.lastRing == (if rs == [] then st.lastRing else rs[|rs| - 1].recorded)
  {
    if evs != [] {
      var init, e := evs[..|evs| - 1], evs[|evs| - 1];
      RingsSpaced(b, st, init);
      var r1 := Run(b, st, init);
      var r2 := Callback(b, r1.0, e);
      assert Run(b, st, evs) == (r2.0, r1.1 + r2.1);
      CallbackRing(b, r1.0, e);
      RingsAppend(r1.1, r2.1);
      assert Rings(Run(b, st, evs).1) == Rings(r1.1) + (if RingsIn(r2.1) then r2.1 else []);
      RingsSpacedStep(b, st.lastRing, Rings(r1.1), r1.0.lastRing, r2.1, r2.0.lastRing);
    }
  }

  /**
   * Spaced rings stay spaced when one more call rings only as the current
   * ring tick allows, and the new tick is that of the last ring.
   */
  lemma RingsSpacedStep(b: Board, first: uint32, rs1: seq<Effect>, tick: uint32, out: seq<Effect>, newTick: uint32)
    requires |out| <= 1
    requires forall k :: 0 <= k < |rs1| ==> rs1[k].Ring?
    requires forall i :: 0 <= i < |rs1| ==> RingAllowed(b, PreviousRing(first, rs1, i), rs1[i].now)
    requires tick == if rs1 == [] then first else rs1[|rs1| - 1].recorded
    requires RingsIn(out) ==> RingAllowed(b, tick, out[0].now) && newTick == out[0].recorded
    requires !RingsIn(out) ==> newTick == tick
    ensures var rs := rs1 + (if RingsIn(out) then out else []);
      && (forall k :: 0 <= k < |rs| ==> rs[k].Ring?)
      && (forall i :: 0 <= i < |rs| ==> RingAllowed(b, PreviousRing(first, rs, i), rs[i].now))
      && newTick == (if rs == [] then first else rs[|rs| - 1].recorded)
  {
    var rs := rs1 + (if RingsIn(out) then out else []);
    if RingsIn(out) {
      assert rs == rs1 + [out[0]];
    } else {
      assert rs == rs1;
    }
    forall i | 0 <= i < |rs|
      ensures RingAllowed(b, PreviousRing(first, rs, i), rs[i].now)
    {
      if i < |rs1| {
        assert rs[i] == rs1[i];
        assert PreviousRing(first, rs, i) == PreviousRing(first, rs1, i);
      }
    }
  }

  /** The rings of a run extended by at most one call. */
  lemma RingsAppend(out1: seq<Effect>, out2: seq<Effect>)
    requires |out2| <= 1
    ensures Rings(out1 + out2) == Rings(out1) + (if RingsIn(out2) then out2 else [])
  {
    if out2 != [] {
      assert (out1 + out2)[..|out1 + out2| - 1] == out1;
    } else {
      assert out1 + out2 == out1;
    }
  }

  /** The callback's static arrays and ring tick, and the calls it has made. */
  class ButtonCallback {
    const board: Board
    const pressStart: array<uint32>
    const pressed: array<bool>
    var lastRing: uint32
    var effects: seq<Effect>

    ghost predicate Valid()
      reads this
    {
      pressStart.Length == pressed.Length == board.keyNum
    }

    function State(): Buttons
      reads this, pressStart, pressed
    {
      Buttons(pressStart[..], pressed[..], lastRing)
    }

    constructor (b: Board)
      ensures Valid() && board == b && State() == InitialButtons(b) && effects == []
      ensures fresh(pressStart) && fresh(pressed)
    {
      board := b;
      pressStart := new uint32[b.keyNum](_ => 0);
      pressed := new bool[b.keyNum](_ => false);
      lastRing := 0;
      effects := [];
    }

    /** `_input_key_service_cb`: updates the arrays in place; always `ESP_OK`. */
    method OnEvent(e: KeyEvent) returns (r: EspErr)
      requires Valid()
      modifies this, pressStart, pressed
      ensures Valid() && r == EspOk
      ensures State() == Callback(board, old(State()), e).0
      ensures effects == old(effects) + Callback(board, old(State()), e).1
    {
      var id := e.buttonId;
      if e.action == Click {
        if 0 <= id < board.keyNum {
          pressStart[id] := e.now;
          pressed[id] := true;
        }
      } else if e.action == ClickRelease || e.action == PressRelease {
        if 0 <= id < board.keyNum && pressed[id] {
          var duration := Elapsed(e.now, pressStart[id], board.tickPeriodMs);
          pressed[id] := false;
          if id == board.recId {
            if lastRing == 0 || Elapsed(e.now, lastRing, board.tickPeriodMs) >= WAIT_TIME_BETWEEN_NOTIFICATIONS_MS {
              effects := effects + [Ring(e.now, e.ringTick)];
              lastRing := e.ringTick;
            }
          } else if id == board.playId {
            if duration >= BUTTON_PRESS_DURATION_MS {
              effects := effects + [ClearProvisioning];
            }
          }
        }
      }
      r := EspOk;
    }
  }
}
