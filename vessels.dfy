/**
 * The list of tracked vessels. get_vessel_index finds a vessel by its MMSI
 * or gives it a slot, clear_list_item frees a slot, vessels not refreshed
 * within the time-out are dropped, and the send cursor _send_index walks
 * the list round robin to pick the next vessel to report.
 *
 * The expanding array is a sequence that grows one slot at a time and never
 * beyond _max_list slots; a slot whose MMSI is 0 is free. The functions
 * below state each operation on the sequence; the methods of VesselList
 * carry them out on the object's fields.
 */
module Vessels {
  import opened AisTypes
  import opened Messages

  /**
   * One tracked vessel (ais_vehicle_t): its MMSI, the last report of each
   * kind decoded for it, and the times it was last refreshed and last sent.
   */
  datatype Vessel = Vessel(
    mmsi: Uint32,
    position: Option<PositionReport>,
    station: Option<BaseStationReport>,
    voyage: Option<StaticVoyageData>,
    lastUpdateMs: Uint32,
    lastSendMs: Uint32)

  /** A cleared slot: every field zero. */
  const EmptyVessel: Vessel := Vessel(0, None, None, None, 0, 0)

  predicate IsLive(v: Vessel) {
    v.mmsi != 0
  }

  /** No two live slots hold the same MMSI. */
  predicate UniqueLive(list: seq<Vessel>) {
    forall i, j :: 0 <= i < j < |list| && IsLive(list[i]) ==> list[i].mmsi != list[j].mmsi
  }

  /** The list never holds more than _max_list slots (none when the parameter is not positive). */
  predicate Bounded(list: seq<Vessel>, maxList: Int16) {
    |list| == 0 || |list| <= maxList
  }

  // ---------------------------------------------------------------------
  // get_vessel_index
  // ---------------------------------------------------------------------

  /** The first slot from lo on whose MMSI is mmsi. */
  function FirstWith(list: seq<Vessel>, mmsi: Uint32, lo: nat): (r: Option<nat>)
    requires lo <= |list|
    ensures r.Some? ==> lo <= r.value < |list| && list[r.value].mmsi == mmsi
    ensures r.Some? ==> forall k :: lo <= k < r.value ==> list[k].mmsi != mmsi
    ensures r.None? ==> forall k :: lo <= k < |list| ==> list[k].mmsi != mmsi
    decreases |list| - lo
  {
    if lo == |list| then None
    else if list[lo].mmsi == mmsi then Some(lo)
    else FirstWith(list, mmsi, lo + 1)
  }

  /**
   * get_vessel_index: the slot of the vessel with this MMSI, and the list
   * afterwards. A vessel already tracked keeps its slot; otherwise the first
   * free slot is given the MMSI; otherwise the list grows by one slot while
   * it is shorter than _max_list; otherwise there is no slot.
   */
  function VesselIndex(list: seq<Vessel>, maxList: Int16, mmsi: Uint32): (r: (Option<nat>, seq<Vessel>))
    ensures r.0.Some? ==> r.0.value < |r.1| && r.1[r.0.value].mmsi == mmsi
    ensures r.0.None? ==> r.1 == list
    ensures |r.1| == |list| || (|r.1| == |list| + 1 && |list| < maxList)
    ensures forall k :: 0 <= k < |list| && (r.0.None? || k != r.0.value) ==> r.1[k] == list[k]
  {
    match FirstWith(list, mmsi, 0)
    case Some(i) => (Some(i), list)
    case None =>
      match FirstWith(list, 0, 0)
      case Some(f) => (Some(f), list[f := list[f].(mmsi := mmsi)])
      case None =>
        if |list| < maxList then (Some(|list|), list + [EmptyVessel.(mmsi := mmsi)])
        else (None, list)
  }

  /** A vessel already tracked is found in its own slot, and nothing changes. */
  lemma VesselIndexTracked(list: seq<Vessel>, maxList: Int16, mmsi: Uint32, i: nat)
    requires UniqueLive(list) && mmsi != 0 && i < |list| && list[i].mmsi == mmsi
    ensures VesselIndex(list, maxList, mmsi) == (Some(i), list)
  {
    var r := FirstWith(list, mmsi, 0);
    assert r.Some?;
    if r.value < i {
      assert IsLive(list[r.value]);
    }
  }

  /** There is no slot exactly when the MMSI is not tracked, no slot is free and the list is at _max_list. */
  lemma VesselIndexFails(list: seq<Vessel>, maxList: Int16, mmsi: Uint32)
    ensures VesselIndex(list, maxList, mmsi).0.None? <==>
      (forall k :: 0 <= k < |list| ==> list[k].mmsi != mmsi && IsLive(list[k])) && |list| >= maxList
  {
    if VesselIndex(list, maxList, mmsi).0.None? {
      assert FirstWith(list, mmsi, 0).None? && FirstWith(list, 0, 0).None?;
    } else if forall k :: 0 <= k < |list| ==> list[k].mmsi != mmsi && IsLive(list[k]) {
      assert FirstWith(list, mmsi, 0).None? && FirstWith(list, 0, 0).None?;
    }
  }

  /** A new vessel takes the first free slot rather than growing the list. */
  lemma VesselIndexReusesFree(list: seq<Vessel>, maxList: Int16, mmsi: Uint32, f: nat)
    requires forall k :: 0 <= k < |list| ==> list[k].mmsi != mmsi
    requires f < |list| && !IsLive(list[f]) && forall k :: 0 <= k < f ==> IsLive(list[k])
    ensures VesselIndex(list, maxList, mmsi) == (Some(f), list[f := list[f].(mmsi := mmsi)])
  {
    assert FirstWith(list, mmsi, 0).None?;
    assert FirstWith(list, 0, 0).Some?;
  }

  /** get_vessel_index keeps at most one slot per MMSI and the list within _max_list. */
  lemma VesselIndexKeepsValid(list: seq<Vessel>, maxList: Int16, mmsi: Uint32)
    requires UniqueLive(list) && Bounded(list, maxList)
    ensures UniqueLive(VesselIndex(list, maxList, mmsi).1) && Bounded(VesselIndex(list, maxList, mmsi).1, maxList)
  {
    var r := VesselIndex(list, maxList, mmsi);
    if r.0.Some? && FirstWith(list, mmsi, 0).None? {
      var n := r.0.value;
      forall i, j | 0 <= i < j < |r.1| && IsLive(r.1[i])
        ensures r.1[i].mmsi != r.1[j].mmsi
      {
        if i != n && j != n {
          assert r.1[i] == list[i] && r.1[j] == list[j];
        } else if i == n {
          assert j < |list| && r.1[j] == list[j];
        } else {
          assert r.1[i] == list[i];
        }
      }
    }
  }

  // ---------------------------------------------------------------------
  // clear_list_item and the time-out
  // ---------------------------------------------------------------------

  /** clear_list_item: the slot at index is zeroed; an index past the end changes nothing. */
  function Cleared(list: seq<Vessel>, index: nat): (r: seq<Vessel>)
    ensures |r| == |list| && forall k :: 0 <= k < |list| && k != index ==> r[k] == list[k]
    ensures index < |list| ==> r[index] == EmptyVessel
  {
    if index < |list| then list[index := EmptyVessel] else list
  }

  /** After its slot is cleared a vessel is no longer found by its MMSI. */
  lemma ClearedForgets(list: seq<Vessel>, index: nat)
    requires UniqueLive(list) && index < |list| && IsLive(list[index])
    ensures FirstWith(Cleared(list, index), list[index].mmsi, 0).None?
  {
    var r := Cleared(list, index);
    forall k | 0 <= k < |r|
      ensures r[k].mmsi != list[index].mmsi
    {
      if k < index {
        assert r[k] == list[k];
      } else if k > index {
        assert r[k] == list[k];
      }
    }
  }

  lemma ClearedKeepsValid(list: seq<Vessel>, maxList: Int16, index: nat)
    requires UniqueLive(list) && Bounded(list, maxList)
    ensures UniqueLive(Cleared(list, index)) && Bounded(Cleared(list, index), maxList)
  {
    var r := Cleared(list, index);
    forall i, j | 0 <= i < j < |r| && IsLive(r[i])
      ensures r[i].mmsi != r[j].mmsi
    {
      assert r[i] == list[i];
      if j != index {
        assert r[j] == list[j];
      }
    }
  }

  /** Milliseconds from stamp to now on the 32-bit millisecond clock, which wraps around. */
  function Age(now: Uint32, stamp: Uint32): (a: Uint32)
    ensures stamp <= now ==> a == now - stamp
    ensures now < stamp ==> a == now - stamp + 0x1_0000_0000
  {
    (now - stamp) % 0x1_0000_0000
  }

  /** A live vessel not refreshed for more than _time_out seconds. */
  predicate Stale(v: Vessel, now: Uint32, timeOutS: Int16) {
    IsLive(v) && Age(now, v.lastUpdateMs) > timeOutS * 1000
  }

  /** The list after every stale vessel's slot has been cleared. */
  function Evicted(list: seq<Vessel>, now: Uint32, timeOutS: Int16): (r: seq<Vessel>)
    ensures |r| == |list|
  {
    seq(|list|, k requires 0 <= k < |list| => if Stale(list[k], now, timeOutS) then EmptyVessel else list[k])
  }

  /** Eviction clears exactly the stale vessels: none is left, and every other slot is kept where it was. */
  lemma EvictedExactly(list: seq<Vessel>, now: Uint32, timeOutS: Int16)
    ensures forall k :: 0 <= k < |list| ==> !Stale(Evicted(list, now, timeOutS)[k], now, timeOutS)
    ensures forall k :: 0 <= k < |list| && !Stale(list[k], now, timeOutS) ==> Evicted(list, now, timeOutS)[k] == list[k]
    ensures forall k :: 0 <= k < |list| && Stale(list[k], now, timeOutS) ==> !IsLive(Evicted(list, now, timeOutS)[k])
  {
  }

  /** A vessel refreshed exactly _time_out seconds ago survives; one refreshed a millisecond earlier does not. */
  lemma EvictionBoundary(v: Vessel, now: Uint32, timeOutS: Int16)
    requires IsLive(v) && 0 <= timeOutS && timeOutS * 1000 < now
    ensures !Stale(v.(lastUpdateMs := now - timeOutS * 1000), now, timeOutS)
    ensures Stale(v.(lastUpdateMs := now - timeOutS * 1000 - 1), now, timeOutS)
  {
  }

  lemma EvictedKeepsValid(list: seq<Vessel>, maxList: Int16, now: Uint32, timeOutS: Int16)
    requires UniqueLive(list) && Bounded(list, maxList)
    ensures UniqueLive(Evicted(list, now, timeOutS)) && Bounded(Evicted(list, now, timeOutS), maxList)
  {
  }

  // ---------------------------------------------------------------------
  // The send cursor
  // ---------------------------------------------------------------------

  /** A live vessel that was last sent at least interval milliseconds ago. */
  predicate Due(v: Vessel, now: Uint32, interval: nat) {
    IsLive(v) && Age(now, v.lastSendMs) >= interval
  }

  /** The slot `step` places after the cursor, for steps 1 to n, wrapping at the end of the list. */
  function RoundRobin(cursor: nat, n: nat, step: nat): (i: nat)
    requires 0 < n && step <= n
    ensures i < n
  {
    var j := cursor % n + step;
    if j < n then j else j - n
  }

  /** The first step from `step` up to n at which the round-robin slot holds a due vessel. */
  function NextDueStep(list: seq<Vessel>, cursor: nat, now: Uint32, interval: nat, step: nat): (r: Option<nat>)
    requires |list| > 0 && 1 <= step
    ensures r.Some? ==> step <= r.value <= |list| && Due(list[RoundRobin(cursor, |list|, r.value)], now, interval)
    ensures r.Some? ==> forall t :: step <= t < r.value ==> !Due(list[RoundRobin(cursor, |list|, t)], now, interval)
    ensures r.None? ==> forall t :: step <= t <= |list| ==> !Due(list[RoundRobin(cursor, |list|, t)], now, interval)
    decreases |list| + 1 - step
  {
    if step > |list| then None
    else if Due(list[RoundRobin(cursor, |list|, step)], now, interval) then Some(step)
    else NextDueStep(list, cursor, now, interval, step + 1)
  }

  /** The slot the send cursor moves to: the first due vessel after the cursor, round robin. */
  function SendChoice(list: seq<Vessel>, cursor: nat, now: Uint32, interval: nat): (r: Option<nat>)
    ensures r.Some? ==> r.value < |list| && Due(list[r.value], now, interval)
    ensures r.Some? ==>
      exists s :: 1 <= s <= |list| && r.value == RoundRobin(cursor, |list|, s) &&
        forall t :: 1 <= t < s ==> !Due(list[RoundRobin(cursor, |list|, t)], now, interval)
  {
    if |list| == 0 then None
    else match NextDueStep(list, cursor, now, interval, 1)
      case Some(s) => Some(RoundRobin(cursor, |list|, s))
      case None => None
  }

  /** Steps 1 to n after the cursor visit every slot. */
  lemma RoundRobinCovers(cursor: nat, n: nat, i: nat)
    requires i < n
    ensures exists step :: 1 <= step <= n && RoundRobin(cursor, n, step) == i
  {
    var c := cursor % n;
    var step := if c < i then i - c else i + n - c;
    assert RoundRobin(cursor, n, step) == i;
  }

  /** No vessel is chosen only when no vessel in the list is due. */
  lemma SendChoiceNone(list: seq<Vessel>, cursor: nat, now: Uint32, interval: nat)
    ensures SendChoice(list, cursor, now, interval).None? <==>
      forall i :: 0 <= i < |list| ==> !Due(list[i], now, interval)
  {
    if SendChoice(list, cursor, now, interval).None? && |list| > 0 {
      forall i | 0 <= i < |list|
        ensures !Due(list[i], now, interval)
      {
        RoundRobinCovers(cursor, |list|, i);
      }
    }
  }

  /** The list after the vessel at index was sent at now. */
  function Sent(list: seq<Vessel>, index: nat, now: Uint32): (r: seq<Vessel>)
    requires index < |list|
    ensures |r| == |list| && r[index].lastSendMs == now && r[index].mmsi == list[index].mmsi
    ensures forall k :: 0 <= k < |list| && k != index ==> r[k] == list[k]
  {
    list[index := list[index].(lastSendMs := now)]
  }

  lemma SentKeepsValid(list: seq<Vessel>, maxList: Int16, index: nat, now: Uint32)
    requires UniqueLive(list) && Bounded(list, maxList) && index < |list|
    ensures UniqueLive(Sent(list, index, now)) && Bounded(Sent(list, index, now), maxList)
  {
    var r := Sent(list, index, now);
    forall i, j | 0 <= i < j < |r| && IsLive(r[i])
      ensures r[i].mmsi != r[j].mmsi
    {
      assert r[i].mmsi == list[i].mmsi && r[j].mmsi == list[j].mmsi;
    }
  }

  /** A vessel just sent is not due again until interval milliseconds have passed. */
  lemma SentNotDue(list: seq<Vessel>, index: nat, now: Uint32, interval: nat)
    requires index < |list| && interval > 0
    ensures !Due(Sent(list, index, now)[index], now, interval)
  {
  }

  // ---------------------------------------------------------------------
  // Merging a decoded message
  // ---------------------------------------------------------------------

  /** A vessel record that holds the given message as its latest report of that kind. */
  predicate Holds(v: Vessel, msg: AisMessage) {
    match msg
    case Position(r) => v.position == Some(r)
    case BaseStation(s) => v.station == Some(s)
    case StaticVoyage(d) => v.voyage == Some(d)
  }

  /** The record after a decoded message was written into it at now. */
  function Merged(v: Vessel, msg: AisMessage, now: Uint32): (r: Vessel)
    ensures Holds(r, msg) && r.mmsi == v.mmsi && r.lastUpdateMs == now && r.lastSendMs == v.lastSendMs
    ensures !msg.Position? ==> r.position == v.position
    ensures !msg.BaseStation? ==> r.station == v.station
    ensures !msg.StaticVoyage? ==> r.voyage == v.voyage
  {
    match msg
    case Position(p) => v.(position := Some(p), lastUpdateMs := now)
    case BaseStation(s) => v.(station := Some(s), lastUpdateMs := now)
    case StaticVoyage(d) => v.(voyage := Some(d), lastUpdateMs := now)
  }

  /** A decoded message is written into the slot get_vessel_index gives its MMSI, if there is one. */
  function Received(list: seq<Vessel>, maxList: Int16, msg: AisMessage, now: Uint32): (r: (bool, seq<Vessel>))
    requires MessageMmsi(msg) < 0x1_0000_0000
    ensures !r.0 ==> r.1 == list
  {
    var (idx, l) := VesselIndex(list, maxList, MessageMmsi(msg));
    if idx.Some? then (true, l[idx.value := Merged(l[idx.value], msg, now)]) else (false, list)
  }

  /** After a message is received, the vessel found by its MMSI holds it and was refreshed at now. */
  lemma ReceivedHolds(list: seq<Vessel>, maxList: Int16, msg: AisMessage, now: Uint32)
    requires UniqueLive(list) && Bounded(list, maxList)
    requires 0 < MessageMmsi(msg) < 0x1_0000_0000
    ensures var r := Received(list, maxList, msg, now);
      r.0 ==> (FirstWith(r.1, MessageMmsi(msg), 0).Some? &&
        var v := r.1[FirstWith(r.1, MessageMmsi(msg), 0).value];
        Holds(v, msg) && v.lastUpdateMs == now)
  {
    var mmsi := MessageMmsi(msg);
    var (idx, l) := VesselIndex(list, maxList, mmsi);
    VesselIndexKeepsValid(list, maxList, mmsi);
    if idx.Some? {
      var r := l[idx.value := Merged(l[idx.value], msg, now)];
      assert UniqueLive(r) by {
        forall i, j | 0 <= i < j < |r| && IsLive(r[i])
          ensures r[i].mmsi != r[j].mmsi
        {
          assert r[i].mmsi == l[i].mmsi && r[j].mmsi == l[j].mmsi;
        }
      }
      assert r[idx.value].mmsi == mmsi;
    }
  }

  /** Receiving a message for one vessel leaves every other tracked vessel as it was. */
  lemma ReceivedKeepsOthers(list: seq<Vessel>, maxList: Int16, msg: AisMessage, now: Uint32, k: nat)
    requires MessageMmsi(msg) < 0x1_0000_0000
    requires k < |list| && list[k].mmsi != MessageMmsi(msg) && IsLive(list[k])
    ensures Received(list, maxList, msg, now).1[k] == list[k]
  {
  }

  /**
   * MMSI 0 is also the free-slot marker, so a message with MMSI 0 is written
   * into a free slot, and the next new vessel given that slot inherits the
   * reports stored there.
   */
  lemma ZeroMmsiInherited(p: PositionReport, s: BaseStationReport)
    requires p.mmsi == 0 && s.mmsi == 7
    ensures var r1 := Received([], 1, Position(p), 100);
            var r2 := Received(r1.1, 1, BaseStation(s), 200);
            r1.0 && r1.1 == [EmptyVessel.(position := Some(p), lastUpdateMs := 100)] &&
            r2.0 && |r2.1| == 1 && r2.1[0].mmsi == 7 && r2.1[0].position == Some(p)
  {
    var l1 := [EmptyVessel.(position := Some(p), lastUpdateMs := 100)];
    assert FirstWith([], 0, 0).None?;
    assert FirstWith(l1, 7, 0).None? by { assert FirstWith(l1, 7, 1).None?; }
    assert FirstWith(l1, 0, 0) == Some(0);
  }

  // ---------------------------------------------------------------------
  // The list as the receiver keeps it
  // ---------------------------------------------------------------------

  class VesselList {
    var list: seq<Vessel>
    var sendIndex: Uint16
    const maxList: Int16

    ghost predicate Valid()
      reads this
    {
      UniqueLive(list) && Bounded(list, maxList)
    }

    /** An empty list with room for maxList vessels. */
    constructor(maxList: Int16)
      ensures Valid() && list == [] && sendIndex == 0 && this.maxList == maxList
    {
      list := [];
      sendIndex := 0;
      this.maxList := maxList;
    }

    /** get_vessel_index: one pass that stops at the vessel's slot and remembers the first free slot. */
    method GetVesselIndex(mmsi: Uint32) returns (found: bool, index: Uint16)
      requires Valid()
      modifies this
      ensures Valid() && sendIndex == old(sendIndex)
      ensures var r := VesselIndex(old(list), maxList, mmsi);
        found == r.0.Some? && (found ==> index == r.0.value) && list == r.1
    {
      var empty: nat := 0;
      var foundEmpty := false;
      var i := 0;
      while i < |list|
        invariant 0 <= i <= |list|
        invariant forall k :: 0 <= k < i ==> list[k].mmsi != mmsi
        invariant foundEmpty ==> empty < i && list[empty].mmsi == 0 && forall k :: 0 <= k < empty ==> list[k].mmsi != 0
        invariant !foundEmpty ==> forall k :: 0 <= k < i ==> list[k].mmsi != 0
      {
        if list[i].mmsi == mmsi {
          assert FirstWith(list, mmsi, 0) == Some(i);
          return true, i;
        }
        if list[i].mmsi == 0 && !foundEmpty {
          empty := i;
          foundEmpty := true;
        }
        i := i + 1;
      }
      assert FirstWith(list, mmsi, 0).None?;
      VesselIndexKeepsValid(list, maxList, mmsi);
      if foundEmpty {
        assert FirstWith(list, 0, 0) == Some(empty);
        list := list[empty := list[empty].(mmsi := mmsi)];
        return true, empty;
      }
      assert FirstWith(list, 0, 0).None?;
      if |list| < maxList {
        index := |list|;
        list := list + [EmptyVessel.(mmsi := mmsi)];
        return true, index;
      }
      return false, 0;
    }

    /** clear_list_item: zero the slot at index, if there is one. */
    method ClearListItem(index: nat)
      requires Valid()
      modifies this
      ensures Valid() && list == Cleared(old(list), index) && sendIndex == old(sendIndex)
    {
      ClearedKeepsValid(list, maxList, index);
      if index < |list| {
        list := list[index := EmptyVessel];
      }
    }

    /** Clear the slot of every vessel not refreshed within the time-out. */
    method EvictStale(now: Uint32, timeOutS: Int16)
      requires Valid()
      modifies this
      ensures Valid() && list == Evicted(old(list), now, timeOutS) && sendIndex == old(sendIndex)
    {
      var i := 0;
      while i < |list|
        invariant 0 <= i <= |list| == |old(list)|
        invariant Valid() && sendIndex == old(sendIndex)
        invariant forall k :: 0 <= k < i ==> list[k] == Evicted(old(list), now, timeOutS)[k]
        invariant forall k :: i <= k < |list| ==> list[k] == old(list)[k]
      {
        if Stale(list[i], now, timeOutS) {
          ClearListItem(i);
        }
        i := i + 1;
      }
      assert list == Evicted(old(list), now, timeOutS);
    }

    /**
     * Move the send cursor round robin to the next vessel due to be sent,
     * and mark it sent at now; with no vessel due, nothing changes.
     */
    method SelectNext(now: Uint32, interval: nat) returns (r: Option<nat>)
      requires Valid()
      modifies this
      ensures Valid()
      ensures r == SendChoice(old(list), old(sendIndex), now, interval)
      ensures r.Some? ==> list == Sent(old(list), r.value, now) && sendIndex == r.value
      ensures r.None? ==> list == old(list) && sendIndex == old(sendIndex)
    {
      var n := |list|;
      if n == 0 {
        return None;
      }
      var l, cursor := list, sendIndex;
      var step := 1;
      while step <= n && !Due(l[RoundRobin(cursor, n, step)], now, interval)
        invariant 1 <= step <= n + 1
        invariant forall t :: 1 <= t < step ==> !Due(l[RoundRobin(cursor, n, t)], now, interval)
      {
        step := step + 1;
      }
      if step > n {
        assert NextDueStep(l, cursor, now, interval, 1).None?;
        return None;
      }
      var i := RoundRobin(cursor, n, step);
      assert NextDueStep(l, cursor, now, interval, 1) == Some(step);
      SentKeepsValid(l, maxList, i, now);
      list := l[i := l[i].(lastSendMs := now)];
      sendIndex := i;
      r := Some(i);
    }

    /** Write a decoded message into its vessel's slot, found or given by get_vessel_index. */
    method Receive(msg: AisMessage, now: Uint32) returns (ok: bool)
      requires Valid() && MessageMmsi(msg) < 0x1_0000_0000
      modifies this
      ensures Valid() && sendIndex == old(sendIndex)
      ensures (ok, list) == Received(old(list), maxList, msg, now)
    {
      var index;
      ok, index := GetVesselIndex(MessageMmsi(msg));
      if ok {
        ghost var l := list;
        list := list[index := Merged(list[index], msg, now)];
        assert UniqueLive(list) by {
          forall i, j | 0 <= i < j < |list| && IsLive(list[i])
            ensures list[i].mmsi != list[j].mmsi
          {
            assert list[i].mmsi == l[i].mmsi && list[j].mmsi == l[j].mmsi;
          }
        }
      }
    }
  }
}
