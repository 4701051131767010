/**
 * The AIVDM fragment buffer (_AIVDM_buffer) and the reassembly of
 * multi-sentence messages.
 *
 * The buffer holds whole fragments, packed at the front of its ten slots.
 * A fragment is dealt with by its numbering:
 *  - a fragment with num == 0, total == 0 or num > total is dropped;
 *  - a single-part message (total == 1) is complete at once and is not stored;
 *  - part 1 of a message starts it afresh: any fragments held for the same
 *    message id are freed and part 1 is stored;
 *  - a later part must follow parts 1..num-1 of the same message, held in
 *    order; otherwise the partial message is freed and the part dropped;
 *  - the last part completes the message: the held parts' payloads and its
 *    own are concatenated in part order and the held parts are freed;
 *  - any other part is stored after the ones before it.
 * A part to be stored when every slot is taken first evicts the oldest
 * partial message (the one in slot 0) whole. Freeing slots is done with
 * buffer_shift, which keeps the buffer packed.
 *
 * The functions below state each of these steps on the sequence of slot
 * contents; the methods of FragmentBuffer carry them out on the array.
 */
module Fragments {
  import opened AisTypes

  /** n free records. */
  function Empties(n: nat): (r: seq<Aivdm>)
    ensures |r| == n && forall k :: 0 <= k < n ==> r[k] == EmptyAivdm
  {
    seq(n, _ => EmptyAivdm)
  }

  /** buffer_shift(i) on values: slot i is dropped, later slots move down, the last slot is freed. */
  function Shifted(b: seq<Aivdm>, i: nat): (r: seq<Aivdm>)
    requires i < |b|
    ensures |r| == |b|
    ensures r[..|b| - 1] == b[..i] + b[i + 1..] && r[|b| - 1] == EmptyAivdm
  {
    b[..i] + b[i + 1..] + [EmptyAivdm]
  }

  /** Shifting loses exactly the record in slot i and gains one free record. */
  lemma ShiftedMultiset(b: seq<Aivdm>, i: nat)
    requires i < |b|
    ensures multiset(Shifted(b, i)) == multiset(b) - multiset{b[i]} + multiset{EmptyAivdm}
  {
    assert b == b[..i] + [b[i]] + b[i + 1..];
  }

  // ---------------------------------------------------------------------
  // Slots
  // ---------------------------------------------------------------------

  /** Every slot after a free slot is free: the fragments held sit at the front, oldest first. */
  predicate Packed(b: seq<Aivdm>) {
    forall i, j :: 0 <= i < j < |b| && IsFree(b[i]) ==> IsFree(b[j])
  }

  predicate AllFree(s: seq<Aivdm>) {
    forall i :: 0 <= i < |s| ==> IsFree(s[i])
  }

  /** No slot is free. */
  predicate Full(b: seq<Aivdm>) {
    forall i :: 0 <= i < |b| ==> !IsFree(b[i])
  }

  /** The first free slot at or after lo. */
  function FirstFree(b: seq<Aivdm>, lo: nat): (r: Option<nat>)
    requires lo <= |b|
    decreases |b| - lo
    ensures r.Some? ==> lo <= r.value < |b| && IsFree(b[r.value])
    ensures r.Some? ==> forall k :: lo <= k < r.value ==> !IsFree(b[k])
    ensures r.None? ==> forall k :: lo <= k < |b| ==> !IsFree(b[k])
  {
    if lo == |b| then None
    else if IsFree(b[lo]) then Some(lo)
    else FirstFree(b, lo + 1)
  }

  /** A slot record that is a held fragment of message id. */
  predicate Holds(g: Aivdm, id: Uint8) {
    !IsFree(g) && g.id == id
  }

  /** The fragments held for message id, in slot order. */
  function Parts(s: seq<Aivdm>, id: Uint8): (r: seq<Aivdm>)
    ensures |r| <= |s|
    ensures forall k :: 0 <= k < |r| ==> Holds(r[k], id)
  {
    if s == [] then []
    else (if Holds(s[0], id) then [s[0]] else []) + Parts(s[1..], id)
  }

  /** The records of s that are not held fragments of message id, in slot order. */
  function Others(s: seq<Aivdm>, id: Uint8): (r: seq<Aivdm>)
    ensures |r| <= |s|
    ensures forall k :: 0 <= k < |r| ==> !Holds(r[k], id)
  {
    if s == [] then []
    else (if Holds(s[0], id) then [] else [s[0]]) + Others(s[1..], id)
  }

  /** The buffer after every fragment of message id is freed: the rest move up in order, free slots follow. */
  function Removed(b: seq<Aivdm>, id: Uint8): (r: seq<Aivdm>)
    ensures |r| == |b|
  {
    var o := Others(b, id);
    o + Empties(|b| - |o|)
  }

  lemma {:induction false} PartsAppend(x: seq<Aivdm>, y: seq<Aivdm>, id: Uint8)
    ensures Parts(x + y, id) == Parts(x, id) + Parts(y, id)
  {
    if x == [] {
      assert x + y == y;
    } else {
      assert (x + y)[0] == x[0];
      assert (x + y)[1..] == x[1..] + y;
      PartsAppend(x[1..], y, id);
    }
  }

  /** Every fragment listed for a message is a record of the buffer. */
  lemma {:induction false} PartsIn(s: seq<Aivdm>, id: Uint8)
    ensures forall g :: g in Parts(s, id) ==> g in s
  {
    if s != [] {
      PartsIn(s[1..], id);
      assert forall g :: g in s[1..] ==> g in s;
    }
  }

  lemma PartsOne(g: Aivdm, id: Uint8)
    ensures Parts([g], id) == if Holds(g, id) then [g] else []
  {
    assert [g][1..] == [];
  }

  /** Free slots hold no fragment. */
  lemma {:induction false} PartsAllFree(s: seq<Aivdm>, id: Uint8)
    requires AllFree(s)
    ensures Parts(s, id) == []
  {
    if s != [] {
      PartsAllFree(s[1..], id);
    }
  }

  /** Freeing message d leaves no fragment of d and every other message's fragments as they were. */
  lemma {:induction false} PartsOthers(s: seq<Aivdm>, d: Uint8, id: Uint8)
    ensures Parts(Others(s, d), id) == if id == d then [] else Parts(s, id)
  {
    if s != [] {
      var h := if Holds(s[0], d) then [] else [s[0]];
      PartsOthers(s[1..], d, id);
      PartsAppend(h, Others(s[1..], d), id);
      PartsOne(s[0], id);
    }
  }

  /** A sequence holding no fragment of d is kept whole. */
  lemma {:induction false} OthersNone(s: seq<Aivdm>, d: Uint8)
    requires forall i :: 0 <= i < |s| ==> !Holds(s[i], d)
    ensures Others(s, d) == s
  {
    if s != [] {
      OthersNone(s[1..], d);
      assert s == [s[0]] + s[1..];
    }
  }

  /** A sequence holding a fragment of d loses at least one record. */
  lemma {:induction false} OthersShorter(s: seq<Aivdm>, d: Uint8, i: nat)
    requires i < |s| && Holds(s[i], d)
    ensures |Others(s, d)| < |s|
  {
    if i > 0 {
      assert s[1..][i - 1] == s[i];
      OthersShorter(s[1..], d, i - 1);
    }
  }

  lemma PackedTail(s: seq<Aivdm>)
    requires Packed(s) && s != []
    ensures Packed(s[1..])
  {
    forall i, j | 0 <= i < j < |s| - 1 && IsFree(s[1..][i])
      ensures IsFree(s[1..][j])
    {
      assert s[1..][i] == s[i + 1] && s[1..][j] == s[j + 1];
    }
  }

  lemma {:induction false} OthersPacked(s: seq<Aivdm>, d: Uint8)
    requires Packed(s)
    ensures Packed(Others(s, d))
  {
    if s != [] {
      if IsFree(s[0]) {
        OthersNone(s, d);
      } else {
        PackedTail(s);
        OthersPacked(s[1..], d);
        var o := Others(s, d);
        if !Holds(s[0], d) {
          forall i, j | 0 <= i < j < |o| && IsFree(o[i])
            ensures IsFree(o[j])
          {
            assert o[i] == Others(s[1..], d)[i - 1] && o[j] == Others(s[1..], d)[j - 1];
          }
        }
      }
    }
  }

  /** Removing a message keeps the buffer packed. */
  lemma RemovedPacked(b: seq<Aivdm>, d: Uint8)
    requires Packed(b)
    ensures Packed(Removed(b, d))
  {
    var o := Others(b, d);
    OthersPacked(b, d);
    var r := Removed(b, d);
    forall i, j | 0 <= i < j < |r| && IsFree(r[i])
      ensures IsFree(r[j])
    {
      if j < |o| {
        assert r[i] == o[i] && r[j] == o[j];
      } else {
        assert r[j] == EmptyAivdm;
      }
    }
  }

  /** After removing message d, no fragment of d is held and every other message keeps its fragments. */
  lemma RemovedParts(b: seq<Aivdm>, d: Uint8, id: Uint8)
    ensures Parts(Removed(b, d), id) == if id == d then [] else Parts(b, id)
  {
    var o := Others(b, d);
    PartsAppend(o, Empties(|b| - |o|), id);
    PartsAllFree(Empties(|b| - |o|), id);
    PartsOthers(b, d, id);
  }

  /** Removing a message that has a fragment in the buffer frees a slot. */
  lemma RemovedRoom(b: seq<Aivdm>, d: Uint8, i: nat)
    requires i < |b| && Holds(b[i], d)
    ensures FirstFree(Removed(b, d), 0).Some?
  {
    OthersShorter(b, d, i);
    var o := Others(b, d);
    assert Removed(b, d)[|o|] == EmptyAivdm;
  }

  /** Removing a message the full buffer does not hold changes nothing. */
  lemma RemovedAbsent(b: seq<Aivdm>, d: Uint8)
    requires forall i :: 0 <= i < |b| ==> !Holds(b[i], d)
    ensures Removed(b, d) == b
  {
    OthersNone(b, d);
    assert Empties(0) == [];
  }

  // ---------------------------------------------------------------------
  // Storing a fragment
  // ---------------------------------------------------------------------

  /**
   * Storing fragment f: into the first free slot; with every slot taken, the
   * oldest partial message (slot 0) is evicted whole first, and f is kept
   * unless it belonged to that message.
   */
  function Stored(b: seq<Aivdm>, f: Aivdm): (r: seq<Aivdm>)
    requires |b| > 0
    ensures |r| == |b|
  {
    match FirstFree(b, 0)
    case Some(k) => b[k := f]
    case None =>
      var e := Removed(b, b[0].id);
      if b[0].id == f.id then e
      else match FirstFree(e, 0)
        case Some(k) => e[k := f]
        case None => e
  }

  /** In a packed buffer every slot from a free one on is free. */
  lemma FreeFrom(b: seq<Aivdm>, k: nat)
    requires Packed(b) && k < |b| && IsFree(b[k])
    ensures AllFree(b[k..]) && AllFree(b[k + 1..])
  {
    forall i | 0 <= i < |b| - k
      ensures IsFree(b[k..][i])
    {
      assert b[k..][i] == b[k + i];
    }
    assert b[k + 1..] == b[k..][1..];
  }

  /** Writing f over the first free slot adds f after every fragment held. */
  lemma PartsPut(b: seq<Aivdm>, f: Aivdm, k: nat, id: Uint8)
    requires k < |b| && AllFree(b[k..]) && AllFree(b[k + 1..])
    ensures Parts(b[k := f], id) == Parts(b, id) + Parts([f], id)
  {
    PartsAllFree(b[k..], id);
    PartsAllFree(b[k + 1..], id);
    assert b == b[..k] + b[k..];
    PartsAppend(b[..k], b[k..], id);
    assert b[k := f] == b[..k] + [f] + b[k + 1..];
    PartsAppend(b[..k] + [f], b[k + 1..], id);
    PartsAppend(b[..k], [f], id);
  }

  /** A fragment put into the first free slot of a packed buffer comes after every fragment held. */
  lemma PutFirstFree(b: seq<Aivdm>, f: Aivdm, k: nat, id: Uint8)
    requires Packed(b) && !IsFree(f) && FirstFree(b, 0) == Some(k)
    ensures Packed(b[k := f])
    ensures Parts(b[k := f], id) == Parts(b, id) + (if f.id == id then [f] else [])
  {
    FreeFrom(b, k);
    PartsPut(b, f, k, id);
    PartsOne(f, id);
    var c := b[k := f];
    forall i, j | 0 <= i < j < |c| && IsFree(c[i])
      ensures IsFree(c[j])
    {
      assert i > k;
    }
  }

  /**
   * Storing f keeps the buffer packed; message id gains f when f is one of
   * its fragments, and loses everything only when the buffer was full and
   * id was the oldest message.
   */
  lemma StoredParts(b: seq<Aivdm>, f: Aivdm, id: Uint8)
    requires |b| > 0 && Packed(b) && !IsFree(f)
    ensures Packed(Stored(b, f))
    ensures Parts(Stored(b, f), id) ==
            if Full(b) && b[0].id == id then [] else Parts(b, id) + (if f.id == id then [f] else [])
  {
    match FirstFree(b, 0)
    case Some(k) =>
      PutFirstFree(b, f, k, id);
    case None =>
      var d := b[0].id;
      var e := Removed(b, d);
      RemovedParts(b, d, id);
      RemovedPacked(b, d);
      if d != f.id {
        RemovedRoom(b, d, 0);
        var k := FirstFree(e, 0).value;
        PutFirstFree(e, f, k, id);
      }
  }

  // ---------------------------------------------------------------------
  // Reassembly
  // ---------------------------------------------------------------------

  /** A fragment whose numbering can belong to a message: 1 <= num <= total. */
  predicate WellNumbered(f: Aivdm) {
    1 <= f.num <= f.total
  }

  /** p are parts 1, 2, ... in this order, all of a message of total parts. */
  predicate Chain(p: seq<Aivdm>, total: int) {
    forall k :: 0 <= k < |p| ==> p[k].num == k + 1 && p[k].total == total
  }

  /** The buffer holds exactly parts 1..f.num-1 of f's message, in order: f is the next part expected. */
  predicate Continues(b: seq<Aivdm>, f: Aivdm) {
    var p := Parts(b, f.id);
    |p| == f.num - 1 && Chain(p, f.total)
  }

  /** The payloads of p, concatenated in order. */
  function Payloads(p: seq<Aivdm>): seq<char> {
    if p == [] then [] else Payloads(p[..|p| - 1]) + p[|p| - 1].payload
  }

  /**
   * Accepting fragment f into buffer b: the new buffer, and the complete
   * payload when f is a single-part message or completes its message.
   */
  function Accepted(b: seq<Aivdm>, f: Aivdm): (seq<Aivdm>, Option<seq<char>>)
    requires |b| > 0
  {
    if !WellNumbered(f) then (b, None)
    else if f.total == 1 then (b, Some(f.payload))
    else if f.num == 1 then (Stored(Removed(b, f.id), f), None)
    else if !Continues(b, f) then (Removed(b, f.id), None)
    else if f.num == f.total then (Removed(b, f.id), Some(Payloads(Parts(b, f.id)) + f.payload))
    else (Stored(b, f), None)
  }

  /**
   * What comes out: a single-part message at once and unbuffered; a
   * multi-part message exactly when its last part arrives after parts
   * 1..total-1 of the same message, and then it is the payloads of parts
   * 1..total in part order; nothing for a malformed fragment.
   */
  lemma AcceptedOutput(b: seq<Aivdm>, f: Aivdm)
    requires |b| > 0
    ensures Accepted(b, f).1.Some? <==> WellNumbered(f) && (f.total == 1 || (f.num == f.total && Continues(b, f)))
    ensures f.total == 1 && Accepted(b, f).1.Some? ==> Accepted(b, f).0 == b && Accepted(b, f).1.value == f.payload
    ensures f.total > 1 && Accepted(b, f).1.Some? ==>
              var p := Parts(b, f.id) + [f];
              |p| == f.total && Chain(p, f.total) &&
              (forall k :: 0 <= k < |p| ==> p[k].id == f.id && (p[k] in b || p[k] == f)) &&
              Accepted(b, f).1 == Some(Payloads(p))
  {
    if f.total > 1 && Accepted(b, f).1.Some? {
      var p := Parts(b, f.id) + [f];
      assert p[..|p| - 1] == Parts(b, f.id);
      PartsIn(b, f.id);
    }
  }

  /**
   * What the buffer then holds of f's own message: part 1 alone after a part
   * 1; nothing after an out-of-sequence part or a completed message; the
   * held parts followed by f after a later part, unless that message was
   * the oldest one in a full buffer and was evicted.
   */
  lemma AcceptedOwnParts(b: seq<Aivdm>, f: Aivdm)
    requires |b| > 0 && Packed(b) && WellNumbered(f) && f.total > 1
    ensures f.num == 1 ==> Parts(Accepted(b, f).0, f.id) == [f]
    ensures f.num > 1 && !Continues(b, f) ==> Parts(Accepted(b, f).0, f.id) == []
    ensures f.num == f.total && Continues(b, f) ==> Parts(Accepted(b, f).0, f.id) == []
    ensures 1 < f.num < f.total && Continues(b, f) ==>
              Parts(Accepted(b, f).0, f.id) == if Full(b) && b[0].id == f.id then [] else Parts(b, f.id) + [f]
  {
    RemovedParts(b, f.id, f.id);
    if f.num == 1 {
      var e := Removed(b, f.id);
      RemovedPacked(b, f.id);
      StoredParts(e, f, f.id);
      if Full(e) {
        assert !Holds(e[0], f.id) by {
          if |Others(b, f.id)| > 0 {
            assert e[0] == Others(b, f.id)[0];
          }
        }
      }
    } else if 1 < f.num < f.total && Continues(b, f) {
      StoredParts(b, f, f.id);
    }
  }

  /**
   * Every other message keeps exactly the fragments it had, unless the
   * buffer was full and it was the oldest message, which is evicted whole.
   */
  lemma AcceptedOtherParts(b: seq<Aivdm>, f: Aivdm, id: Uint8)
    requires |b| > 0 && Packed(b) && id != f.id
    ensures var q := Parts(Accepted(b, f).0, id);
            q == Parts(b, id) || (q == [] && Full(b) && b[0].id == id)
  {
    if WellNumbered(f) && f.total > 1 {
      RemovedParts(b, f.id, id);
      if f.num == 1 {
        var e := Removed(b, f.id);
        RemovedPacked(b, f.id);
        StoredParts(e, f, id);
        if Full(e) {
          if exists i :: 0 <= i < |b| && Holds(b[i], f.id) {
            var i :| 0 <= i < |b| && Holds(b[i], f.id);
            RemovedRoom(b, f.id, i);
          } else {
            RemovedAbsent(b, f.id);
          }
        }
      } else if f.num < f.total && Continues(b, f) {
        StoredParts(b, f, id);
      }
    }
  }

  /** Accepting a fragment keeps the buffer packed. */
  lemma AcceptedPacked(b: seq<Aivdm>, f: Aivdm)
    requires |b| > 0 && Packed(b)
    ensures Packed(Accepted(b, f).0)
  {
    if WellNumbered(f) && f.total > 1 {
      RemovedPacked(b, f.id);
      if f.num == 1 {
        StoredParts(Removed(b, f.id), f, f.id);
      } else if f.num < f.total && Continues(b, f) {
        StoredParts(b, f, f.id);
      }
    }
  }

  /** The fragments held for one message: parts 1..m of it in order, with m below its total. */
  predicate Partial(p: seq<Aivdm>) {
    p != [] ==> Chain(p, p[0].total) && |p| < p[0].total
  }

  /** Every message the buffer holds fragments of is an unfinished run of parts from part 1. */
  predicate Chained(b: seq<Aivdm>) {
    forall id: Uint8 :: Partial(Parts(b, id))
  }

  lemma EmptyBufferChained(n: nat)
    ensures Packed(Empties(n)) && Chained(Empties(n))
  {
    forall id: Uint8
      ensures Partial(Parts(Empties(n), id))
    {
      PartsAllFree(Empties(n), id);
    }
  }

  /**
   * Accepting a fragment keeps every message the buffer holds a run of
   * parts 1..m, all with one total and m below it.
   */
  lemma AcceptedChained(b: seq<Aivdm>, f: Aivdm)
    requires |b| > 0 && Packed(b) && Chained(b)
    ensures Chained(Accepted(b, f).0)
  {
    var after := Accepted(b, f).0;
    forall id: Uint8
      ensures Partial(Parts(after, id))
    {
      if !WellNumbered(f) || f.total == 1 {
      } else if id != f.id {
        AcceptedOtherParts(b, f, id);
      } else {
        AcceptedOwnParts(b, f);
        if 1 < f.num < f.total && Continues(b, f) {
          assert Partial(Parts(b, id));
          var p := Parts(b, id) + [f];
          assert Chain(p, f.total);
        }
      }
    }
  }

  /**
   * A lost first part never joins a later message that reuses its id:
   * part 2 arriving first is dropped, and the next message with the same id
   * is assembled from its own two parts only.
   */
  lemma OutOfOrderNotAssembled(id: Uint8, p2: PayloadText, q1: PayloadText, q2: PayloadText)
    ensures var b0 := Empties(AivdmBufferSize);
            var s1 := Accepted(b0, Aivdm(2, 2, id, p2));
            var s2 := Accepted(s1.0, Aivdm(1, 2, id, q1));
            var s3 := Accepted(s2.0, Aivdm(2, 2, id, q2));
            s1.1 == None && Parts(s1.0, id) == [] &&
            s2.1 == None && Parts(s2.0, id) == [Aivdm(1, 2, id, q1)] &&
            s3.1 == Some(q1 + q2) && Parts(s3.0, id) == []
  {
    var b0 := Empties(AivdmBufferSize);
    var f1, f2 := Aivdm(1, 2, id, q1), Aivdm(2, 2, id, q2);
    EmptyBufferChained(AivdmBufferSize);
    PartsAllFree(b0, id);
    var s1 := Accepted(b0, Aivdm(2, 2, id, p2));
    AcceptedOwnParts(b0, Aivdm(2, 2, id, p2));
    AcceptedPacked(b0, Aivdm(2, 2, id, p2));
    AcceptedOwnParts(s1.0, f1);
    AcceptedPacked(s1.0, f1);
    var s2 := Accepted(s1.0, f1);
    assert Continues(s2.0, f2);
    AcceptedOwnParts(s2.0, f2);
    assert Payloads([f1]) == q1 by { assert [f1][..0] == []; }
  }

  /**
   * Parts are matched by id, total and part number only: when message A
   * loses parts 2 and 3 and message B, with the same id and total, loses
   * part 1, A's part 1 and B's parts 2 and 3 are assembled into one payload.
   */
  lemma SameIdJoined(id: Uint8, a1: PayloadText, b2: PayloadText, b3: PayloadText)
    ensures var b0 := Empties(AivdmBufferSize);
            var s1 := Accepted(b0, Aivdm(1, 3, id, a1));
            var s2 := Accepted(s1.0, Aivdm(2, 3, id, b2));
            var s3 := Accepted(s2.0, Aivdm(3, 3, id, b3));
            s1.1 == None && s2.1 == None && s3.1 == Some(a1 + b2 + b3) && Parts(s3.0, id) == []
  {
    var b0 := Empties(AivdmBufferSize);
    var f1, f2, f3 := Aivdm(1, 3, id, a1), Aivdm(2, 3, id, b2), Aivdm(3, 3, id, b3);
    EmptyBufferChained(AivdmBufferSize);
    var s1 := Accepted(b0, f1);
    RemovedAbsent(b0, id);
    assert s1.0 == b0[0 := f1];
    assert !Full(s1.0) by { assert IsFree(s1.0[1]); }
    AcceptedOwnParts(b0, f1);
    AcceptedPacked(b0, f1);
    assert Continues(s1.0, f2);
    var s2 := Accepted(s1.0, f2);
    AcceptedOwnParts(s1.0, f2);
    AcceptedPacked(s1.0, f2);
    assert Continues(s2.0, f3);
    AcceptedOwnParts(s2.0, f3);
    assert Payloads([f1]) == a1 by { assert [f1][..0] == []; }
    assert Payloads([f1, f2]) == a1 + b2 by { assert [f1, f2][..1] == [f1]; }
    assert Payloads([f1, f2] + [f3]) == a1 + b2 + b3 by { assert ([f1, f2] + [f3])[..2] == [f1, f2]; }
  }

  // ---------------------------------------------------------------------
  // The buffer object
  // ---------------------------------------------------------------------

  class FragmentBuffer {
    const slots: array<Aivdm>   // _AIVDM_buffer

    ghost predicate Valid()
      reads this, slots
    {
      slots.Length == AivdmBufferSize && Packed(slots[..]) && Chained(slots[..])
    }

    constructor ()
      ensures Valid() && fresh(slots) && slots[..] == Empties(AivdmBufferSize)
    {
      slots := new Aivdm[AivdmBufferSize](_ => EmptyAivdm);
      new;
      assert slots[..] == Empties(AivdmBufferSize);
      EmptyBufferChained(AivdmBufferSize);
    }

    /** buffer_shift(i): drop slot i, move the later slots down, free the last slot. */
    method BufferShift(i: nat)
      requires slots.Length == AivdmBufferSize && i < AivdmBufferSize
      modifies slots
      ensures slots[..] == Shifted(old(slots[..]), i)
    {
      var n := i;
      while n < AivdmBufferSize - 1
        invariant i <= n <= AivdmBufferSize - 1
        invariant forall k :: 0 <= k < i ==> slots[k] == old(slots[k])
        invariant forall k :: i <= k < n ==> slots[k] == old(slots[k + 1])
        invariant forall k :: n <= k < AivdmBufferSize ==> slots[k] == old(slots[k])
      {
        slots[n] := slots[n + 1];
        n := n + 1;
      }
      slots[AivdmBufferSize - 1] := EmptyAivdm;
      assert forall k :: 0 <= k < AivdmBufferSize ==> slots[..][k] == Shifted(old(slots[..]), i)[k];
    }

    /** The first free slot, scanning from slot 0. */
    method FindFree() returns (r: Option<nat>)
      requires slots.Length == AivdmBufferSize
      ensures r == FirstFree(slots[..], 0)
    {
      var i := 0;
      while i < AivdmBufferSize
        invariant i <= AivdmBufferSize
        invariant FirstFree(slots[..], i) == FirstFree(slots[..], 0)
      {
        if IsFree(slots[i]) {
          return Some(i);
        }
        i := i + 1;
      }
      return None;
    }

    /** Put fragment f into the first free slot, evicting the oldest partial message when none is free. */
    method Store(f: Aivdm)
      requires slots.Length == AivdmBufferSize
      modifies slots
      ensures slots[..] == Stored(old(slots[..]), f)
    {
      var free := FindFree();
      match free
      case Some(k) =>
        slots[k] := f;
      case None =>
        var oldest := slots[0].id;
        RemoveParts(oldest);
        if oldest != f.id {
          var room := FindFree();
          if room.Some? {
            slots[room.value] := f;
          }
        }
    }

    /** The fragments held for message id, in slot order. */
    method PartsOf(id: Uint8) returns (p: seq<Aivdm>)
      requires slots.Length == AivdmBufferSize
      ensures p == Parts(slots[..], id)
    {
      p := [];
      var i := 0;
      while i < AivdmBufferSize
        invariant i <= AivdmBufferSize
        invariant p == Parts(slots[..i], id)
      {
        assert slots[..i + 1] == slots[..i] + [slots[i]];
        PartsAppend(slots[..i], [slots[i]], id);
        PartsOne(slots[i], id);
        if Holds(slots[i], id) {
          p := p + [slots[i]];
        }
        i := i + 1;
      }
      assert slots[..i] == slots[..];
    }

    /** Concatenate the payloads of p, in order. */
    method Concatenate(p: seq<Aivdm>) returns (s: seq<char>)
      ensures s == Payloads(p)
    {
      s := [];
      var k := 0;
      while k < |p|
        invariant k <= |p|
        invariant s == Payloads(p[..k])
      {
        assert p[..k + 1][..k] == p[..k];
        s := s + p[k].payload;
        k := k + 1;
      }
      assert p[..k] == p;
    }

    /** Free every slot of message id, from the last slot down so that buffer_shift leaves the others in place. */
    method RemoveParts(id: Uint8)
      requires slots.Length == AivdmBufferSize
      modifies slots
      ensures slots[..] == Removed(old(slots[..]), id)
    {
      ghost var b := slots[..];
      var k: nat := AivdmBufferSize;
      PartlyRemovedStart(b, id);
      while k > 0
        invariant k <= AivdmBufferSize
        invariant slots[..] == PartlyRemoved(b, id, k)
      {
        assert slots[k - 1] == b[k - 1] by {
          assert slots[..][k - 1] == b[..k][k - 1];
        }
        if Holds(slots[k - 1], id) {
          BufferShift(k - 1);
          RemoveStep(b, id, k);
        } else {
          KeepStep(b, id, k);
        }
        k := k - 1;
      }
      PartlyRemovedEnd(b, id);
    }

    /** Deal with fragment f and return the complete payload it yields, if any. */
    method Accept(f: Aivdm) returns (r: Option<seq<char>>)
      requires Valid()
      modifies slots
      ensures Valid()
      ensures (slots[..], r) == Accepted(old(slots[..]), f)
    {
      AcceptedPacked(slots[..], f);
      AcceptedChained(slots[..], f);
      r := None;
      if f.num < 1 || f.num > f.total {
        return;
      }
      if f.total == 1 {
        r := Some(f.payload);
        return;
      }
      if f.num == 1 {
        RemoveParts(f.id);
        Store(f);
        return;
      }
      var held := PartsOf(f.id);
      if |held| != f.num - 1 || !Chain(held, f.total) {
        RemoveParts(f.id);
        return;
      }
      if f.num == f.total {
        var text := Concatenate(held);
        RemoveParts(f.id);
        r := Some(text + f.payload);
        return;
      }
      Store(f);
    }
  }

  /** RemoveParts after it has dealt with slots k and above: b[..k], then what it kept, then free slots. */
  function PartlyRemoved(b: seq<Aivdm>, id: Uint8, k: nat): (r: seq<Aivdm>)
    requires k <= |b|
  {
    var kept := Others(b[k..], id);
    b[..k] + kept + Empties(|b| - k - |kept|)
  }

  lemma PartlyRemovedStart(b: seq<Aivdm>, id: Uint8)
    ensures PartlyRemoved(b, id, |b|) == b
  {
    assert b[|b|..] == [];
  }

  lemma PartlyRemovedEnd(b: seq<Aivdm>, id: Uint8)
    ensures PartlyRemoved(b, id, 0) == Removed(b, id)
  {
    assert b[..0] == [] && b[0..] == b;
  }

  /** Slot k-1 stays where it is. */
  lemma KeepStep(b: seq<Aivdm>, id: Uint8, k: nat)
    requires 0 < k <= |b| && !Holds(b[k - 1], id)
    ensures PartlyRemoved(b, id, k) == PartlyRemoved(b, id, k - 1)
  {
    var kept := Others(b[k..], id);
    assert b[k - 1..][0] == b[k - 1] && b[k - 1..][1..] == b[k..];
    assert Others(b[k - 1..], id) == [b[k - 1]] + kept;
    assert b[..k] == b[..k - 1] + [b[k - 1]];
    assert b[..k] + kept == b[..k - 1] + ([b[k - 1]] + kept);
  }

  /** Slot k-1 is shifted out and a free slot appears at the end. */
  lemma RemoveStep(b: seq<Aivdm>, id: Uint8, k: nat)
    requires 0 < k <= |b| && Holds(b[k - 1], id)
    ensures Shifted(PartlyRemoved(b, id, k), k - 1) == PartlyRemoved(b, id, k - 1)
  {
    var kept := Others(b[k..], id);
    var pad := |b| - k - |kept|;
    var front, tail := b[..k - 1], kept + Empties(pad);
    assert b[k - 1..][0] == b[k - 1] && b[k - 1..][1..] == b[k..];
    assert Others(b[k - 1..], id) == kept;
    assert b[..k] == front + [b[k - 1]];
    assert PartlyRemoved(b, id, k) == front + [b[k - 1]] + tail;
    ShiftOut(front, b[k - 1], tail);
    assert tail + [EmptyAivdm] == kept + Empties(pad + 1);
  }

  lemma ShiftOut(front: seq<Aivdm>, g: Aivdm, tail: seq<Aivdm>)
    ensures Shifted(front + [g] + tail, |front|) == front + (tail + [EmptyAivdm])
  {
    var cur := front + [g] + tail;
    assert cur[..|front|] == front;
    assert cur[|front| + 1..] == tail;
  }
}
