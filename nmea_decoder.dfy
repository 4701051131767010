/**
 * The character-at-a-time NMEA sentence decoder of the AIS receiver.
 *
 * A sentence `!AIVDM,<total>,<num>,<id>,<channel>,<payload>,<fill>*<hh>` is
 * read one character at a time into a fixed term buffer. Each completed term
 * is parsed by its position, every character between the start marker and
 * '*' is folded into an 8-bit XOR checksum, and the two hex digits after '*'
 * must match it (NMEA 0183 / IEC 61162-1 sentence checksum).
 *
 * SentenceDecoder holds the decoder's fields and updates them in place; Step
 * and CloseTerm are the same transitions on values, and the lemmas about Run
 * (Step over a whole string) are the properties of the decoder.
 */
module NmeaDecoder {
  import opened AisTypes

  // ---------------------------------------------------------------------
  // Checksum
  // ---------------------------------------------------------------------

  /** The byte a character arrives as on the serial line. */
  function ByteOf(c: char): bv8 {
    (c as int % 0x100) as bv8
  }

  /** The XOR of the bytes of s. */
  function XorChecksum(s: seq<char>): bv8 {
    if s == [] then 0 else XorChecksum(s[..|s| - 1]) ^ ByteOf(s[|s| - 1])
  }

  lemma XorAssociative(a: bv8, b: bv8, c: bv8)
    ensures (a ^ b) ^ c == a ^ (b ^ c)
  {
  }

  lemma {:induction false} XorChecksumAppend(s: seq<char>, t: seq<char>)
    ensures XorChecksum(s + t) == XorChecksum(s) ^ XorChecksum(t)
  {
    if t != [] {
      assert (s + t)[..|s + t| - 1] == s + t[..|t| - 1];
      assert (s + t)[|s + t| - 1] == t[|t| - 1];
      XorChecksumAppend(s, t[..|t| - 1]);
    } else {
      assert s + t == s;
    }
  }

  /** Changing any one byte of a sentence body changes its checksum. */
  lemma ChecksumDetectsChange(s: seq<char>, i: nat, d: char)
    requires i < |s| && ByteOf(d) != ByteOf(s[i])
    ensures XorChecksum(s[i := d]) != XorChecksum(s)
  {
    assert s == s[..i] + [s[i]] + s[i + 1..];
    assert s[i := d] == s[..i] + [d] + s[i + 1..];
    XorChecksumAppend(s[..i] + [s[i]], s[i + 1..]);
    XorChecksumAppend(s[..i], [s[i]]);
    XorChecksumAppend(s[..i] + [d], s[i + 1..]);
    XorChecksumAppend(s[..i], [d]);
    assert XorChecksum([s[i]]) == ByteOf(s[i]) by { assert [s[i]][..0] == []; }
    assert XorChecksum([d]) == ByteOf(d) by { assert [d][..0] == []; }
  }

  lemma ByteValueInjective(x: bv8, y: bv8)
    requires x != y
    ensures x as int != y as int
  {
  }

  /** The rendering of one checksum does not match any other. */
  lemma OtherChecksumMismatch(x: bv8, y: bv8)
    requires x != y
    ensures !ChecksumMatches([HexDigit(x as int / 16), HexDigit(x as int % 16)], y)
  {
    ByteValueInjective(x, y);
    assert 16 * (x as int / 16) + x as int % 16 == x as int;
  }

  predicate IsHexDigit(a: char) {
    '0' <= a <= '9' || 'A' <= a <= 'F' || 'a' <= a <= 'f'
  }

  /**
   * char_to_hex: the value of a hex digit of either case, and -1 (a value the
   * int16_t result can hold and no digit has) for any other character.
   */
  function CharToHex(a: char): (r: int)
    ensures -1 <= r < 16
    ensures r >= 0 <==> IsHexDigit(a)
  {
    if 'A' <= a <= 'F' then a as int - 'A' as int + 10
    else if 'a' <= a <= 'f' then a as int - 'a' as int + 10
    else if '0' <= a <= '9' then a as int - '0' as int
    else -1
  }

  /** The upper-case hex digit a sentence's checksum is written with. */
  function HexDigit(n: nat): (c: char)
    requires n < 16
    ensures IsHexDigit(c) && CharToHex(c) == n
  {
    if n < 10 then (n + '0' as int) as char else (n - 10 + 'A' as int) as char
  }

  /** The checksum term holds two hex digits whose value is the accumulated checksum. */
  predicate ChecksumMatches(term: seq<char>, checksum: bv8) {
    && |term| >= 2
    && CharToHex(term[0]) >= 0 && CharToHex(term[1]) >= 0
    && 16 * CharToHex(term[0]) + CharToHex(term[1]) == checksum as int
  }

  /**
   * Two checksum characters match exactly when they are hex digits (of either
   * case) of the checksum's high and low nibble; the upper-case rendering does.
   */
  lemma ChecksumDigits(h1: char, h2: char, checksum: bv8)
    ensures ChecksumMatches([h1, h2], checksum) <==>
              IsHexDigit(h1) && IsHexDigit(h2)
              && CharToHex(h1) == checksum as int / 16 && CharToHex(h2) == checksum as int % 16
    ensures ChecksumMatches([HexDigit(checksum as int / 16), HexDigit(checksum as int % 16)], checksum)
  {
  }

  // ---------------------------------------------------------------------
  // Small decimal fields
  // ---------------------------------------------------------------------

  predicate IsDigit(c: char) {
    '0' <= c <= '9'
  }

  predicate AllDigits(s: seq<char>) {
    forall i :: 0 <= i < |s| ==> IsDigit(s[i])
  }

  function DecimalValue(s: seq<char>): nat
    requires AllDigits(s)
  {
    if s == [] then 0 else 10 * DecimalValue(s[..|s| - 1]) + (s[|s| - 1] as int - '0' as int)
  }

  /** A term holding a uint8_t: one or more decimal digits, of value at most 255. */
  function ParseUint8(s: seq<char>): (r: Option<Uint8>)
    ensures r.Some? ==> |s| > 0 && AllDigits(s)
  {
    if |s| > 0 && AllDigits(s) && DecimalValue(s) < 0x100 then Some(DecimalValue(s)) else None
  }

  /** The decimal digits of n, as a sentence carries it. */
  function DecimalText(n: nat): (s: seq<char>)
    ensures |s| > 0 && AllDigits(s)
    ensures (n < 10 ==> |s| == 1) && (n < 100 ==> |s| <= 2) && (n < 1000 ==> |s| <= 3)
  {
    if n < 10 then [(n + '0' as int) as char]
    else DecimalText(n / 10) + [(n % 10 + '0' as int) as char]
  }

  lemma {:induction false} DecimalRoundTrip(n: nat)
    ensures DecimalValue(DecimalText(n)) == n
  {
    if n >= 10 {
      DecimalRoundTrip(n / 10);
      assert DecimalText(n)[..|DecimalText(n)| - 1] == DecimalText(n / 10);
    }
  }

  /** Every uint8_t written in decimal parses back to itself. */
  lemma ParseUint8RoundTrip(n: Uint8)
    ensures ParseUint8(DecimalText(n)) == Some(n)
  {
    DecimalRoundTrip(n);
  }

  // ---------------------------------------------------------------------
  // The decoder's transitions on values
  // ---------------------------------------------------------------------

  /**
   * The decoder's fields: the current term (the characters of _term before
   * _term_offset), the term number, the checksum accumulator, the three
   * sentence flags and the fragment being filled in.
   */
  datatype DecoderState = DecoderState(
    term: PayloadText,
    termNumber: Uint8,
    checksum: bv8,
    termIsChecksum: bool,
    sentenceValid: bool,
    sentenceDone: bool,
    incoming: Aivdm)

  const InitialState: DecoderState := DecoderState([], 0, 0, false, false, false, EmptyAivdm)

  predicate IsDelimiter(c: char) {
    c == ',' || c == '*' || c == '\r' || c == '\n'
  }

  predicate IsStart(c: char) {
    c == '!' || c == '$'
  }

  /** A character that is stored in a term: neither a delimiter nor a start marker. */
  predicate IsTermChar(c: char) {
    !IsDelimiter(c) && !IsStart(c)
  }

  /** Characters that all go into terms. */
  predicate TermChars(t: seq<char>) {
    forall i :: 0 <= i < |t| ==> IsTermChar(t[i])
  }

  /** The body of a sentence: term characters and the commas between terms. */
  predicate BodyChars(b: seq<char>) {
    forall i :: 0 <= i < |b| ==> IsTermChar(b[i]) || b[i] == ','
  }

  lemma BodyCharsJoin(a: seq<char>, b: seq<char>)
    requires BodyChars(a) && BodyChars(b)
    ensures BodyChars(a + b)
  {
  }

  lemma DigitsAreTermChars(s: seq<char>)
    requires AllDigits(s)
    ensures TermChars(s)
  {
  }

  /** The term fields of an AIVDM sentence: 1 total, 2 num, 3 id, 5 payload (4 and 6 are not kept). */
  function ParseField(st: DecoderState): DecoderState
    requires st.termNumber >= 1
  {
    var t := st.term;
    match st.termNumber
    case 1 =>
      (match ParseUint8(t)
       case Some(v) => st.(incoming := st.incoming.(total := v))
       case None => st.(sentenceValid := false))
    case 2 =>
      (match ParseUint8(t)
       case Some(v) => st.(incoming := st.incoming.(num := v))
       case None => st.(sentenceValid := false))
    case 3 =>
      if t == [] then
        // only a single-part message may leave the message id out
        st.(incoming := st.incoming.(id := 0),
            sentenceValid := st.incoming.num == 1 && st.incoming.total == 1)
      else
        (match ParseUint8(t)
         case Some(v) => st.(incoming := st.incoming.(id := v))
         case None => st.(sentenceValid := false))
    case 5 =>
      if t == [] then st.(sentenceValid := false) else st.(incoming := st.incoming.(payload := t))
    case _ => st
  }

  /**
   * decode_latest_term on values: the checksum term ends the sentence and
   * reports whether it matched a valid sentence; term 0 must be "AIVDM";
   * later terms are parsed only while the sentence is still valid.
   */
  function CloseTerm(st: DecoderState): (DecoderState, bool) {
    if st.termIsChecksum then
      (st.(sentenceDone := true), ChecksumMatches(st.term, st.checksum) && st.sentenceValid)
    else if st.termNumber == 0 then
      (if st.term == "AIVDM" then st.(sentenceValid := true) else st, false)
    else if !st.sentenceValid then
      (st, false)
    else
      (ParseField(st), false)
  }

  /** The state a start marker leaves: everything per-sentence reset. */
  function StartState(incoming: Aivdm): DecoderState {
    DecoderState([], 0, 0, false, false, false, incoming)
  }

  /** _term_number++ on a uint8_t: 255 wraps around to 0. */
  function NextTermNumber(n: Uint8): Uint8 {
    if n < 0xFF then n + 1 else 0
  }

  /** Of the delimiters only ',' is part of the checksummed text. */
  function FoldDelimiter(st: DecoderState, c: char): DecoderState {
    if c == ',' then st.(checksum := st.checksum ^ ByteOf(c)) else st
  }

  /** decode on a delimiter: fold a ',' into the checksum and, unless the sentence is over, close the term. */
  function EndTermStep(st: DecoderState, c: char): (DecoderState, bool) {
    var st1 := FoldDelimiter(st, c);
    if st1.sentenceDone then (st1, false)
    else
      var closed := CloseTerm(st1);
      (closed.0.(termNumber := NextTermNumber(closed.0.termNumber), term := [], termIsChecksum := c == '*'),
       closed.1)
  }

  /** decode on any other character: store it if the term has room, fold it into the checksum outside the checksum term. */
  function TermCharStep(st: DecoderState, c: char): DecoderState {
    var st1 := if |st.term| < AivdmPayloadSize - 1 then st.(term := st.term + [c])
               else st.(sentenceValid := false);
    if st1.termIsChecksum then st1 else st1.(checksum := st1.checksum ^ ByteOf(c))
  }

  /** decode on values: the next state, and whether a checked AIVDM fragment is now in `incoming`. */
  function Step(st: DecoderState, c: char): (DecoderState, bool) {
    if IsDelimiter(c) then EndTermStep(st, c)
    else if IsStart(c) then (StartState(st.incoming), false)
    else (TermCharStep(st, c), false)
  }

  /** The state after feeding s one character at a time, and what its last character returned. */
  function Run(st: DecoderState, s: seq<char>): (DecoderState, bool) {
    if s == [] then (st, false) else Step(Run(st, s[..|s| - 1]).0, s[|s| - 1])
  }

  // ---------------------------------------------------------------------
  // The decoder object
  // ---------------------------------------------------------------------

  class SentenceDecoder {
    const term: array<char>     // _term: the current term, NUL-terminated when closed
    var termOffset: nat         // where the next term character goes
    var termNumber: Uint8
    var checksum: bv8
    var termIsChecksum: bool
    var sentenceValid: bool
    var sentenceDone: bool
    var incoming: Aivdm         // the fragment the current sentence fills in

    /** The term cursor never leaves the buffer, and a NUL always fits after the term. */
    ghost predicate Valid()
      reads this
    {
      term.Length == AivdmPayloadSize && termOffset < AivdmPayloadSize
    }

    /** The first n characters of the term buffer. */
    ghost function TermText(n: nat): (t: seq<char>)
      reads term
      requires n <= term.Length
      ensures |t| == n
    {
      term[..n]
    }

    ghost function State(): DecoderState
      reads this, term
      requires Valid()
    {
      DecoderState(TermText(termOffset), termNumber, checksum, termIsChecksum,
                   sentenceValid, sentenceDone, incoming)
    }

    constructor ()
      ensures Valid() && fresh(term) && State() == InitialState
    {
      term := new char[AivdmPayloadSize](_ => '\0');
      termOffset := 0;
      termNumber := 0;
      checksum := 0;
      termIsChecksum := false;
      sentenceValid := false;
      sentenceDone := false;
      incoming := EmptyAivdm;
    }

    /** decode(c): consume one received character. */
    method Decode(c: char) returns (r: bool)
      requires Valid()
      modifies this, term
      ensures Valid()
      ensures (State(), r) == Step(old(State()), c)
    {
      if IsDelimiter(c) {
        r := EndTerm(c);
      } else if IsStart(c) {
        StartSentence();
        r := false;
      } else {
        AddTermChar(c);
        r := false;
      }
    }

    /** A delimiter: fold a ',' into the checksum and, unless the sentence is over, close the term. */
    method EndTerm(c: char) returns (r: bool)
      requires Valid()
      modifies this, term
      ensures Valid()
      ensures State() == EndTermStep(old(State()), c).0 && r == EndTermStep(old(State()), c).1
    {
      ghost var before := State();
      if c == ',' {
        checksum := checksum ^ ByteOf(c);
      }
      ghost var folded := FoldDelimiter(before, c);
      assert State() == folded;
      if sentenceDone {
        r := false;
        assert EndTermStep(before, c) == (folded, false);
      } else {
        r := CloseAndAdvance(c == '*');
        assert EndTermStep(before, c) == (CloseTerm(folded).0.(termNumber := NextTermNumber(CloseTerm(folded).0.termNumber),
                                                              term := [], termIsChecksum := c == '*'), CloseTerm(folded).1);
      }
    }

    /** Terminate the term with a NUL, act on it, and begin the next term. */
    method CloseAndAdvance(nextIsChecksum: bool) returns (r: bool)
      requires Valid()
      modifies this, term
      ensures Valid()
      ensures var closed := CloseTerm(old(State()));
              State() == closed.0.(termNumber := NextTermNumber(closed.0.termNumber), term := [], termIsChecksum := nextIsChecksum)
              && r == closed.1
    {
      ghost var before := State();
      term[termOffset] := '\0';
      assert State() == before;
      r := DecodeLatestTerm();
      NextTerm(nextIsChecksum);
    }

    /** Begin the next term: count it, empty the buffer, and note whether it is the checksum. */
    method NextTerm(isChecksum: bool)
      requires Valid()
      modifies this
      ensures Valid()
      ensures State() == old(State()).(termNumber := NextTermNumber(old(termNumber)), term := [], termIsChecksum := isChecksum)
    {
      termNumber := NextTermNumber(termNumber);
      termOffset := 0;
      termIsChecksum := isChecksum;
      assert term[..termOffset] == [];
    }

    /** A start marker: begin a new sentence, keeping the fragment record. */
    method StartSentence()
      requires Valid()
      modifies this
      ensures Valid()
      ensures State() == StartState(old(incoming))
    {
      sentenceValid := false;
      termNumber := 0;
      termOffset := 0;
      checksum := 0;
      termIsChecksum := false;
      sentenceDone := false;
    }

    /** Any other character: store it if the term has room, and fold it into the checksum outside the checksum term. */
    method AddTermChar(c: char)
      requires Valid()
      modifies this, term
      ensures Valid()
      ensures State() == TermCharStep(old(State()), c)
    {
      ghost var before := State();
      if termOffset < AivdmPayloadSize - 1 {
        term[termOffset] := c;
        termOffset := termOffset + 1;
        assert term[..termOffset] == before.term + [c];
      } else {
        sentenceValid := false;
      }
      if !termIsChecksum {
        checksum := checksum ^ ByteOf(c);
      }
    }

    /** decode_latest_term(): act on the term just closed. */
    method DecodeLatestTerm() returns (r: bool)
      requires Valid()
      modifies this
      ensures Valid() && termOffset == old(termOffset)
      ensures (State(), r) == CloseTerm(old(State()))
    {
      var t := term[..termOffset];
      if termIsChecksum {
        sentenceDone := true;
        return ChecksumMatches(t, checksum) && sentenceValid;
      }
      if termNumber == 0 {
        if t == "AIVDM" {
          sentenceValid := true;
        }
        return false;
      }
      if !sentenceValid {
        return false;
      }
      if termNumber == 1 || termNumber == 2 {
        var v := ParseUint8(t);
        if v.None? {
          sentenceValid := false;
        } else if termNumber == 1 {
          incoming := incoming.(total := v.value);
        } else {
          incoming := incoming.(num := v.value);
        }
      } else if termNumber == 3 {
        if t == [] {
          incoming := incoming.(id := 0);
          sentenceValid := incoming.num == 1 && incoming.total == 1;
        } else {
          var v := ParseUint8(t);
          if v.None? {
            sentenceValid := false;
          } else {
            incoming := incoming.(id := v.value);
          }
        }
      } else if termNumber == 5 {
        if t == [] {
          sentenceValid := false;
        } else {
          incoming := incoming.(payload := t);
        }
      }
      return false;
    }
  }

  // ---------------------------------------------------------------------
  // Properties of the decoder
  // ---------------------------------------------------------------------

  lemma {:induction false} RunAppend(st: DecoderState, a: seq<char>, b: seq<char>)
    ensures Run(st, a + b).0 == Run(Run(st, a).0, b).0
    ensures b != [] ==> Run(st, a + b) == Run(Run(st, a).0, b)
  {
    if b == [] {
      assert a + b == a;
    } else {
      assert (a + b)[..|a + b| - 1] == a + b[..|b| - 1];
      assert (a + b)[|a + b| - 1] == b[|b| - 1];
      RunAppend(st, a, b[..|b| - 1]);
    }
  }

  /** One term character with room left in the term. */
  lemma StepTermChar(st: DecoderState, c: char)
    requires IsTermChar(c) && |st.term| < AivdmPayloadSize - 1
    ensures Step(st, c) ==
      (st.(term := st.term + [c],
           checksum := if st.termIsChecksum then st.checksum else st.checksum ^ ByteOf(c)),
       false)
  {
  }

  /** One step of Run: the last character acts on the state the others left. */
  lemma RunLast(st: DecoderState, s: seq<char>)
    requires s != []
    ensures Run(st, s) == Step(Run(st, s[..|s| - 1]).0, s[|s| - 1])
  {
  }

  /** Term characters are stored in order and, outside the checksum term, folded into the checksum. */
  lemma {:induction false} RunTermChars(st: DecoderState, t: seq<char>)
    requires TermChars(t)
    requires |st.term| + |t| < AivdmPayloadSize
    ensures |st.term + t| < AivdmPayloadSize
    ensures Run(st, t) ==
      (st.(term := st.term + t,
           checksum := if st.termIsChecksum then st.checksum else st.checksum ^ XorChecksum(t)),
       false)
  {
    if t == [] {
      assert st.term + t == st.term;
    } else {
      var u, c := t[..|t| - 1], t[|t| - 1];
      RunTermChars(st, u);
      var mid := Run(st, u).0;
      RunLast(st, t);
      StepTermChar(mid, c);
      assert st.term + u + [c] == st.term + t;
      assert XorChecksum(t) == XorChecksum(u) ^ ByteOf(c);
    }
  }

  /** ParseField and CloseTerm outside the checksum term touch neither the checksum nor the flags of the term. */
  lemma CloseTermKeepsChecksum(st: DecoderState)
    requires !st.termIsChecksum && !st.sentenceDone
    ensures var closed := CloseTerm(st);
            closed.0.checksum == st.checksum && !closed.0.sentenceDone && !closed.1
  {
    if st.termNumber != 0 && st.sentenceValid {
      var p := ParseField(st);
      assert p.checksum == st.checksum && p.sentenceDone == st.sentenceDone;
    }
  }

  /** A body character (term character or comma) folds its byte into the checksum and closes nothing. */
  lemma StepBodyChar(st: DecoderState, c: char)
    requires !st.termIsChecksum && !st.sentenceDone
    requires IsTermChar(c) || c == ','
    ensures var r := Step(st, c);
            r.0.checksum == st.checksum ^ ByteOf(c) && !r.0.termIsChecksum && !r.0.sentenceDone && !r.1
  {
    if c == ',' {
      CloseTermKeepsChecksum(st.(checksum := st.checksum ^ ByteOf(c)));
    }
  }

  /**
   * Through the body of a sentence (term characters and commas) the sentence
   * is neither closed nor in its checksum term, and nothing is reported.
   */
  lemma {:induction false} RunBodyOpen(st: DecoderState, b: seq<char>)
    requires !st.termIsChecksum && !st.sentenceDone
    requires BodyChars(b)
    ensures !Run(st, b).0.termIsChecksum && !Run(st, b).0.sentenceDone && !Run(st, b).1
  {
    if b != [] {
      var u, c := b[..|b| - 1], b[|b| - 1];
      RunBodyOpen(st, u);
      RunLast(st, b);
      StepBodyChar(Run(st, u).0, c);
    }
  }

  /** The last character of a body folds its byte into the checksum the others left. */
  lemma RunBodyLast(st: DecoderState, b: seq<char>)
    requires !st.termIsChecksum && !st.sentenceDone && b != []
    requires BodyChars(b)
    ensures Run(st, b).0.checksum == Run(st, b[..|b| - 1]).0.checksum ^ ByteOf(b[|b| - 1])
  {
    var u := b[..|b| - 1];
    RunBodyOpen(st, u);
    RunLast(st, b);
    StepBodyChar(Run(st, u).0, b[|b| - 1]);
  }

  /** Through the body of a sentence the checksum accumulates the XOR of exactly the characters read. */
  lemma {:induction false} RunBody(st: DecoderState, b: seq<char>)
    requires !st.termIsChecksum && !st.sentenceDone
    requires BodyChars(b)
    ensures Run(st, b).0.checksum == st.checksum ^ XorChecksum(b)
  {
    if b != [] {
      var u, x := b[..|b| - 1], ByteOf(b[|b| - 1]);
      RunBody(st, u);
      RunBodyLast(st, b);
      XorAssociative(st.checksum, XorChecksum(u), x);
    }
  }

  /** The decoder fed a start marker and a body: the checksum is the XOR of the body. */
  lemma RunStartBody(st: DecoderState, start: char, body: seq<char>)
    requires IsStart(start)
    requires BodyChars(body)
    ensures var r := Run(st, [start] + body).0;
            r.checksum == XorChecksum(body) && !r.termIsChecksum && !r.sentenceDone
  {
    var s0 := Step(st, start).0;
    assert Run(st, [start]) == Step(st, start) by { assert [start][..0] == []; }
    assert s0.checksum == 0 && !s0.termIsChecksum && !s0.sentenceDone;
    RunAppend(st, [start], body);
    RunBody(s0, body);
    RunBodyOpen(s0, body);
  }

  /** Four characters fed one after the other. */
  lemma RunFour(st: DecoderState, a: char, b: char, c: char, d: char)
    ensures Run(st, [a, b, c, d]) == Step(Step(Step(Step(st, a).0, b).0, c).0, d)
  {
    RunLast(st, [a]);
    assert [a][..0] == [];
    RunLast(st, [a, b]);
    assert [a, b][..1] == [a];
    RunLast(st, [a, b, c]);
    assert [a, b, c][..2] == [a, b];
    RunLast(st, [a, b, c, d]);
    assert [a, b, c, d][..3] == [a, b, c];
  }

  /**
   * The checksum tail `*hh` and a terminator report a fragment only if the two
   * characters match the checksum accumulated before the '*'.
   */
  lemma ChecksumTail(st: DecoderState, h1: char, h2: char, end: char)
    requires !st.termIsChecksum && !st.sentenceDone
    requires IsTermChar(h1) && IsTermChar(h2) && (end == '\r' || end == '\n')
    ensures Run(st, ['*', h1, h2, end]).1 ==> ChecksumMatches([h1, h2], st.checksum)
  {
    RunFour(st, '*', h1, h2, end);
    CloseTermKeepsChecksum(st);
    var s1 := Step(st, '*').0;
    assert s1.checksum == st.checksum && s1.term == [] && s1.termIsChecksum && !s1.sentenceDone;
    StepTermChar(s1, h1);
    var s2 := Step(s1, h1).0;
    StepTermChar(s2, h2);
    var s3 := Step(s2, h2).0;
    assert s3.term == [h1, h2] && s3.checksum == st.checksum && s3.termIsChecksum && !s3.sentenceDone;
  }

  /**
   * Soundness of the checksum: a sentence that starts with a start marker and
   * whose body has no further marker or terminator is accepted at its
   * terminator only if its two checksum characters match the XOR of the body.
   */
  lemma AcceptedOnlyWithChecksum(st: DecoderState, start: char, body: seq<char>, h1: char, h2: char, end: char)
    requires IsStart(start) && (end == '\r' || end == '\n')
    requires BodyChars(body)
    requires IsTermChar(h1) && IsTermChar(h2)
    ensures Run(st, [start] + body + ['*', h1, h2, end]).1 ==> ChecksumMatches([h1, h2], XorChecksum(body))
  {
    RunStartBody(st, start, body);
    RunAppend(st, [start] + body, ['*', h1, h2, end]);
    ChecksumTail(Run(st, [start] + body).0, h1, h2, end);
  }

  /**
   * A sentence whose checksum is right is rejected once any one body
   * character is replaced by another term character or a comma of a
   * different byte. A replacement by a marker or terminator changes the
   * sentence's framing instead and is not covered here.
   */
  lemma ChangedBodyRejected(st: DecoderState, start: char, body: seq<char>, i: nat, d: char, end: char)
    requires IsStart(start) && (end == '\r' || end == '\n')
    requires BodyChars(body)
    requires i < |body| && (IsTermChar(d) || d == ',') && ByteOf(d) != ByteOf(body[i])
    ensures var cs := XorChecksum(body) as int;
            !Run(st, [start] + body[i := d] + ['*', HexDigit(cs / 16), HexDigit(cs % 16), end]).1
  {
    var cs := XorChecksum(body) as int;
    var changed := body[i := d];
    ChecksumDetectsChange(body, i, d);
    OtherChecksumMismatch(XorChecksum(body), XorChecksum(changed));
    AcceptedOnlyWithChecksum(st, start, changed, HexDigit(cs / 16), HexDigit(cs % 16), end);
  }
  /** After the identifier term alone, a matching checksum tail and a terminator report a fragment. */
  lemma IdentifierTail(y: DecoderState, h1: char, h2: char, end: char)
    requires y.term == "AIVDM" && y.termNumber == 0 && !y.termIsChecksum && !y.sentenceDone
    requires IsTermChar(h1) && IsTermChar(h2) && ChecksumMatches([h1, h2], y.checksum)
    requires end == '\r' || end == '\n'
    ensures Run(y, ['*', h1, h2, end]).1 && Run(y, ['*', h1, h2, end]).0.incoming == y.incoming
  {
    RunFour(y, '*', h1, h2, end);
    var s1 := Step(y, '*').0;
    assert s1 == y.(sentenceValid := true, termNumber := 1, term := [], termIsChecksum := true);
    StepTermChar(s1, h1);
    StepTermChar(Step(s1, h1).0, h2);
  }

  /**
   * The checksum term is accepted on the checksum and the sentence's validity
   * alone: a sentence that ends right after its identifier term (`!AIVDM*57`)
   * is reported, and `incoming` still holds whatever the decoder held before,
   * since none of its terms was read from this sentence.
   */
  lemma IdentifierOnlyAccepted(st: DecoderState, start: char, h1: char, h2: char, end: char)
    requires IsStart(start) && (end == '\r' || end == '\n')
    requires IsTermChar(h1) && IsTermChar(h2) && ChecksumMatches([h1, h2], XorChecksum("AIVDM"))
    ensures var r := Run(st, [start] + "AIVDM" + ['*', h1, h2, end]);
            r.1 && r.0.incoming == st.incoming
  {
    var x0 := Step(st, start).0;
    assert Run(st, [start]) == Step(st, start) by { assert [start][..0] == []; }
    RunAppend(st, [start], "AIVDM");
    assert TermChars("AIVDM");
    RunTermChars(x0, "AIVDM");
    var y := Run(st, [start] + "AIVDM").0;
    RunAppend(st, [start] + "AIVDM", ['*', h1, h2, end]);
    IdentifierTail(y, h1, h2, end);
  }

  /** The state after term t and the comma that ends it, from a state between terms. */
  function CommaClosed(x: DecoderState, t: PayloadText): DecoderState {
    EndTermStep(x.(term := t, checksum := x.checksum ^ XorChecksum(t)), ',').0
  }

  /** A term followed by a comma, read after a delimiter: the term is closed as EndTermStep closes it. */
  lemma RunTermFrom(st: DecoderState, pre: seq<char>, t: seq<char>)
    requires Run(st, pre).0.term == [] && !Run(st, pre).0.termIsChecksum && !Run(st, pre).0.sentenceDone
    requires TermChars(t)
    requires |t| < AivdmPayloadSize
    ensures Run(st, pre + t + ",").0 == CommaClosed(Run(st, pre).0, t)
  {
    var x := Run(st, pre).0;
    assert pre + t + "," == pre + (t + ",");
    RunAppend(st, pre, t + ",");
    RunAppend(x, t, ",");
    RunTermChars(x, t);
    assert x.term + t == t;
    RunLast(Run(x, t).0, ",");
    assert ","[..0] == [];
  }

  /** Closing a term moves on to the next term number. */
  lemma EndTermNumber(z: DecoderState, c: char)
    requires !z.sentenceDone
    ensures EndTermStep(z, c).0.termNumber == NextTermNumber(z.termNumber)
  {
    assert CloseTerm(FoldDelimiter(z, c)).0.termNumber == z.termNumber;
  }

  /** The checksum tail after the fill-bit term of a valid sentence: accepted exactly when the digits match. */
  lemma AcceptingTail(st: DecoderState, h1: char, h2: char, end: char)
    requires !st.termIsChecksum && !st.sentenceDone && st.sentenceValid && st.termNumber == 6
    requires IsTermChar(h1) && IsTermChar(h2) && (end == '\r' || end == '\n')
    ensures Run(st, ['*', h1, h2, end]).1 == ChecksumMatches([h1, h2], st.checksum)
    ensures Run(st, ['*', h1, h2, end]).0.incoming == st.incoming
  {
    RunFour(st, '*', h1, h2, end);
    var s1 := Step(st, '*').0;
    assert s1 == st.(termNumber := 7, term := [], termIsChecksum := true);
    StepTermChar(s1, h1);
    var s2 := Step(s1, h1).0;
    StepTermChar(s2, h2);
    var s3 := Step(s2, h2).0;
    assert s3 == st.(termNumber := 7, term := [h1, h2], termIsChecksum := true);
  }

  /** Between two terms of a sentence still valid: term k comes next, nothing stored, not yet at the checksum. */
  predicate Open(x: DecoderState, k: Uint8) {
    x.termNumber == k && x.term == [] && x.sentenceValid && !x.termIsChecksum && !x.sentenceDone
  }

  /** The identifier term "AIVDM" opens the sentence. */
  lemma IdentifierClosed(x: DecoderState)
    requires x.termNumber == 0 && x.term == [] && !x.termIsChecksum && !x.sentenceDone
    ensures Open(CommaClosed(x, "AIVDM"), 1) && CommaClosed(x, "AIVDM").incoming == x.incoming
  {
    EndTermNumber(x.(term := "AIVDM", checksum := x.checksum ^ XorChecksum("AIVDM")), ',');
  }

  /** Term 1, written in decimal, sets the number of parts. */
  lemma TotalClosed(x: DecoderState, n: Uint8)
    requires Open(x, 1)
    ensures Open(CommaClosed(x, DecimalText(n)), 2) && CommaClosed(x, DecimalText(n)).incoming == x.incoming.(total := n)
  {
    var t := DecimalText(n);
    ParseUint8RoundTrip(n);
    EndTermNumber(x.(term := t, checksum := x.checksum ^ XorChecksum(t)), ',');
  }

  /** Term 2, written in decimal, sets the part number. */
  lemma NumClosed(x: DecoderState, n: Uint8)
    requires Open(x, 2)
    ensures Open(CommaClosed(x, DecimalText(n)), 3) && CommaClosed(x, DecimalText(n)).incoming == x.incoming.(num := n)
  {
    var t := DecimalText(n);
    ParseUint8RoundTrip(n);
    EndTermNumber(x.(term := t, checksum := x.checksum ^ XorChecksum(t)), ',');
  }

  /** Term 3, written in decimal, sets the message id. */
  lemma IdClosed(x: DecoderState, n: Uint8)
    requires Open(x, 3)
    ensures Open(CommaClosed(x, DecimalText(n)), 4) && CommaClosed(x, DecimalText(n)).incoming == x.incoming.(id := n)
  {
    var t := DecimalText(n);
    ParseUint8RoundTrip(n);
    EndTermNumber(x.(term := t, checksum := x.checksum ^ XorChecksum(t)), ',');
  }

  /**
   * Term 3 left empty: the message id becomes 0, and the sentence stays valid
   * exactly when it is a single-part message (total and num both 1).
   */
  lemma IdClosedEmpty(x: DecoderState)
    requires Open(x, 3)
    ensures var y := CommaClosed(x, []);
            y.termNumber == 4 && y.term == [] && !y.termIsChecksum && !y.sentenceDone &&
            y.incoming == x.incoming.(id := 0) &&
            (y.sentenceValid <==> x.incoming.num == 1 && x.incoming.total == 1)
  {
    EndTermNumber(x.(term := [], checksum := x.checksum ^ XorChecksum([])), ',');
  }

  /** The message-id term of a sentence: empty, or the id in decimal. */
  function IdTerm(id: Option<Uint8>): (t: seq<char>)
    ensures TermChars(t) && |t| <= 3
  {
    match id
    case None => []
    case Some(v) => DigitsAreTermChars(DecimalText(v)); DecimalText(v)
  }

  /** The message id an id term leaves in the fragment: 0 when the term is empty. */
  function IdValue(id: Option<Uint8>): Uint8 {
    match id
    case None => 0
    case Some(v) => v
  }

  /** Term 4, the radio channel, is not kept. */
  lemma ChannelClosed(x: DecoderState, t: PayloadText)
    requires Open(x, 4)
    ensures Open(CommaClosed(x, t), 5) && CommaClosed(x, t).incoming == x.incoming
  {
    EndTermNumber(x.(term := t, checksum := x.checksum ^ XorChecksum(t)), ',');
  }

  /** Term 5, a non-empty payload, is kept as the fragment's payload. */
  lemma PayloadClosed(x: DecoderState, t: PayloadText)
    requires Open(x, 5) && t != []
    ensures Open(CommaClosed(x, t), 6) && CommaClosed(x, t).incoming == x.incoming.(payload := t)
  {
    EndTermNumber(x.(term := t, checksum := x.checksum ^ XorChecksum(t)), ',');
  }

  /** The terms of an AIVDM sentence up to the payload, each followed by its comma. */
  function AivdmHead(total: Uint8, num: Uint8, id: Option<Uint8>, channel: seq<char>, payload: seq<char>): seq<char> {
    AivdmNumbers(total, num, id) + channel + "," + payload + ","
  }

  /** The identifier and the three numeric terms, each followed by its comma. */
  function AivdmNumbers(total: Uint8, num: Uint8, id: Option<Uint8>): seq<char> {
    "AIVDM" + "," + DecimalText(total) + "," + DecimalText(num) + "," + IdTerm(id) + ","
  }

  /** The body of an AIVDM sentence: everything between the start marker and the '*'. */
  function AivdmBody(total: Uint8, num: Uint8, id: Option<Uint8>, channel: seq<char>, payload: seq<char>, fill: seq<char>): seq<char> {
    AivdmHead(total, num, id, channel, payload) + fill
  }

  /**
   * From the start of a sentence, the identifier and the numeric terms set
   * total, part number and id; an empty id term is accepted for a
   * single-part message and leaves id 0.
   */
  lemma RunNumbers(x0: DecoderState, total: Uint8, num: Uint8, id: Option<Uint8>)
    requires x0.termNumber == 0 && x0.term == [] && !x0.termIsChecksum && !x0.sentenceDone
    requires id.Some? || (total == 1 && num == 1)
    ensures var x := Run(x0, AivdmNumbers(total, num, id)).0;
            Open(x, 4) && x.incoming == x0.incoming.(total := total, num := num, id := IdValue(id))
  {
    var p1 := "AIVDM" + ",";
    RunTermFrom(x0, [], "AIVDM");
    assert [] + "AIVDM" + "," == p1;
    IdentifierClosed(x0);
    var x1 := Run(x0, p1).0;
    var p2 := p1 + DecimalText(total) + ",";
    DigitsAreTermChars(DecimalText(total));
    RunTermFrom(x0, p1, DecimalText(total));
    TotalClosed(x1, total);
    var x2 := Run(x0, p2).0;
    var p3 := p2 + DecimalText(num) + ",";
    DigitsAreTermChars(DecimalText(num));
    RunTermFrom(x0, p2, DecimalText(num));
    NumClosed(x2, num);
    var x3 := Run(x0, p3).0;
    RunTermFrom(x0, p3, IdTerm(id));
    match id
    case Some(v) => IdClosed(x3, v);
    case None => IdClosedEmpty(x3);
  }

  /** From the start of a sentence, the terms before the fill bits fill in the whole fragment. */
  lemma RunHeader(x0: DecoderState, total: Uint8, num: Uint8, id: Option<Uint8>, channel: seq<char>, payload: seq<char>)
    requires x0.termNumber == 0 && x0.term == [] && !x0.termIsChecksum && !x0.sentenceDone
    requires id.Some? || (total == 1 && num == 1)
    requires TermChars(channel) && TermChars(payload)
    requires |channel| < AivdmPayloadSize && 0 < |payload| < AivdmPayloadSize
    ensures var x := Run(x0, AivdmHead(total, num, id, channel, payload)).0;
            Open(x, 6) && x.incoming == Aivdm(num, total, IdValue(id), payload)
  {
    var p4 := AivdmNumbers(total, num, id);
    RunNumbers(x0, total, num, id);
    var x4 := Run(x0, p4).0;
    var p5 := p4 + channel + ",";
    RunTermFrom(x0, p4, channel);
    ChannelClosed(x4, channel);
    var x5 := Run(x0, p5).0;
    RunTermFrom(x0, p5, payload);
    PayloadClosed(x5, payload);
  }

  /** An AIVDM sentence body built from term characters is all term characters and commas. */
  lemma BodyOfTerms(total: Uint8, num: Uint8, id: Option<Uint8>, channel: seq<char>, payload: seq<char>, fill: seq<char>)
    requires TermChars(channel) && TermChars(payload) && TermChars(fill)
    ensures BodyChars(AivdmBody(total, num, id, channel, payload, fill))
  {
    var t1, t2, t3 := DecimalText(total), DecimalText(num), IdTerm(id);
    DigitsAreTermChars(t1);
    DigitsAreTermChars(t2);
    var b := "AIVDM" + ",";
    assert BodyChars(b) by { assert forall i :: 0 <= i < |b| ==> IsTermChar(b[i]) || b[i] == ','; }
    BodyCharsJoin(b, t1);
    BodyCharsJoin(b + t1, ",");
    b := b + t1 + ",";
    BodyCharsJoin(b, t2);
    BodyCharsJoin(b + t2, ",");
    b := b + t2 + ",";
    BodyCharsJoin(b, t3);
    BodyCharsJoin(b + t3, ",");
    b := b + t3 + ",";
    BodyCharsJoin(b, channel);
    BodyCharsJoin(b + channel, ",");
    b := b + channel + ",";
    BodyCharsJoin(b, payload);
    BodyCharsJoin(b + payload, ",");
    b := b + payload + ",";
    BodyCharsJoin(b, fill);
  }

  /** The fill-bit term is stored and kept open, without touching the fragment. */
  lemma RunFill(st: DecoderState, pre: seq<char>, fill: seq<char>)
    requires Open(Run(st, pre).0, 6) && TermChars(fill) && |fill| < AivdmPayloadSize
    ensures var x, y := Run(st, pre).0, Run(st, pre + fill).0;
            y.termNumber == 6 && y.sentenceValid && !y.termIsChecksum && !y.sentenceDone && y.incoming == x.incoming
  {
    RunAppend(st, pre, fill);
    RunTermChars(Run(st, pre).0, fill);
  }

  /**
   * Completeness of the decoder: a well-formed `!AIVDM` sentence (or `$AIVDM`)
   * whose checksum is the XOR of its body is accepted at its terminator, and
   * the fragment it leaves in `incoming` carries the sentence's total, part
   * number, message id and payload, whatever state the decoder was in before.
   * The id term may be empty in a single-part sentence (`,1,1,,`); id is then 0.
   */
  lemma SentenceAccepted(st: DecoderState, start: char, total: Uint8, num: Uint8, id: Option<Uint8>,
                         channel: seq<char>, payload: seq<char>, fill: seq<char>, end: char)
    requires IsStart(start) && (end == '\r' || end == '\n')
    requires id.Some? || (total == 1 && num == 1)
    requires TermChars(channel) && TermChars(payload) && TermChars(fill)
    requires |channel| < AivdmPayloadSize && 0 < |payload| < AivdmPayloadSize && |fill| < AivdmPayloadSize
    ensures var body := AivdmBody(total, num, id, channel, payload, fill);
            var cs := XorChecksum(body) as int;
            var r := Run(st, [start] + body + ['*', HexDigit(cs / 16), HexDigit(cs % 16), end]);
            r.1 && r.0.incoming == Aivdm(num, total, IdValue(id), payload)
  {
    var head := AivdmHead(total, num, id, channel, payload);
    var body := AivdmBody(total, num, id, channel, payload, fill);
    var x0 := Step(st, start).0;
    assert Run(st, [start]) == Step(st, start) by { assert [start][..0] == []; }
    RunAppend(st, [start], body);
    RunHeader(x0, total, num, id, channel, payload);
    RunFill(x0, head, fill);
    BodyOfTerms(total, num, id, channel, payload, fill);
    RunStartBody(st, start, body);
    var y := Run(st, [start] + body).0;
    var cs := XorChecksum(body) as int;
    var h1, h2 := HexDigit(cs / 16), HexDigit(cs % 16);
    RunAppend(st, [start] + body, ['*', h1, h2, end]);
    AcceptingTail(y, h1, h2, end);
    ChecksumDigits(h1, h2, XorChecksum(body));
  }
}
