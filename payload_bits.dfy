/**
 * The six-bit payload primitives of the AIS receiver: removing the ASCII
 * armoring of a payload character, reading an unsigned or a signed bit field
 * out of the payload's bit stream (six bits per character, most significant
 * bit first) and reading six-bit text into a NUL-terminated buffer.
 *
 * The header leaves open whether the `high` bound of get_bits is the last bit
 * of the field or the first bit after it; that choice is the explicit
 * HighBound parameter here.
 *
 * The second half of the module is the inverse direction (bit strings and
 * their armoring), which the message round trips are stated with.
 */
module PayloadBits {

  // ---------------------------------------------------------------------
  // Powers of two and binary digits
  // ---------------------------------------------------------------------

  /** 2^n, written out up to 2^32 (the widest field get_bits reads). */
  function Pow2(n: nat): (r: nat)
    ensures r > 0
  {
    match n
    case 0 => 1            case 1 => 2            case 2 => 4            case 3 => 8
    case 4 => 0x10         case 5 => 0x20         case 6 => 0x40         case 7 => 0x80
    case 8 => 0x100        case 9 => 0x200        case 10 => 0x400       case 11 => 0x800
    case 12 => 0x1000      case 13 => 0x2000      case 14 => 0x4000      case 15 => 0x8000
    case 16 => 0x1_0000    case 17 => 0x2_0000    case 18 => 0x4_0000    case 19 => 0x8_0000
    case 20 => 0x10_0000   case 21 => 0x20_0000   case 22 => 0x40_0000   case 23 => 0x80_0000
    case 24 => 0x100_0000  case 25 => 0x200_0000  case 26 => 0x400_0000  case 27 => 0x800_0000
    case 28 => 0x1000_0000 case 29 => 0x2000_0000 case 30 => 0x4000_0000 case 31 => 0x8000_0000
    case 32 => 0x1_0000_0000
    case _ => 2 * Pow2(n - 1)
  }

  /** Each power of two is twice the one before. */
  lemma Pow2Next(n: nat)
    ensures Pow2(n + 1) == 2 * Pow2(n)
  {
  }

  lemma {:induction false} Pow2Monotone(a: nat, b: nat)
    requires a <= b
    ensures Pow2(a) <= Pow2(b)
  {
    if a < b {
      Pow2Monotone(a, b - 1);
    }
  }

  /** The binary digit of x of weight 2^j. */
  function NatBit(x: nat, j: nat): (b: nat)
    ensures b < 2
  {
    if j == 0 then x % 2 else NatBit(x / 2, j - 1)
  }

  /** Two numbers below 2^n with the same n binary digits are equal. */
  lemma {:induction false} BitsDetermine(x: nat, y: nat, n: nat)
    requires x < Pow2(n) && y < Pow2(n)
    requires forall j :: 0 <= j < n ==> NatBit(x, j) == NatBit(y, j)
    ensures x == y
  {
    if n > 0 {
      Pow2Next(n - 1);
      assert NatBit(x, 0) == NatBit(y, 0);
      forall j | 0 <= j < n - 1
        ensures NatBit(x / 2, j) == NatBit(y / 2, j)
      {
        assert NatBit(x, j + 1) == NatBit(y, j + 1);
      }
      BitsDetermine(x / 2, y / 2, n - 1);
    }
  }

  /** The top digit of an n-bit number is set exactly when it is at least 2^(n-1). */
  lemma {:induction false} TopBit(u: nat, n: nat)
    requires 1 <= n && u < Pow2(n)
    ensures NatBit(u, n - 1) == 1 <==> u >= Pow2(n - 1)
  {
    if n > 1 {
      Pow2Next(n - 1);
      Pow2Next(n - 2);
      TopBit(u / 2, n - 1);
    }
  }

  type Bit = x: nat | x < 2

  /** The value of a bit string, most significant bit first. */
  function BitsToNat(b: seq<Bit>): (r: nat)
    ensures r < Pow2(|b|)
  {
    if b == [] then 0 else 2 * BitsToNat(b[..|b| - 1]) + b[|b| - 1]
  }

  lemma {:induction false} BitsToNatBit(b: seq<Bit>, i: nat)
    requires i < |b|
    ensures NatBit(BitsToNat(b), |b| - 1 - i) == b[i]
  {
    if i < |b| - 1 {
      assert (2 * BitsToNat(b[..|b| - 1]) + b[|b| - 1]) / 2 == BitsToNat(b[..|b| - 1]);
      BitsToNatBit(b[..|b| - 1], i);
    }
  }

  // ---------------------------------------------------------------------
  // The ASCII armoring (ITU-R M.1371, Annex 8, section 3.3.7)
  // ---------------------------------------------------------------------

  /** The characters an armored payload is made of: '0'..'W' and '`'..'w'. */
  predicate IsArmorChar(c: char) {
    '0' <= c <= 'W' || '`' <= c <= 'w'
  }

  predicate IsArmored(p: seq<char>) {
    forall i :: 0 <= i < |p| ==> IsArmorChar(p[i])
  }

  /**
   * payload_char_decode: subtract 48, and 8 more above 40, in the 8-bit
   * unsigned arithmetic of the declared uint8_t result. On the armored range
   * the result is the character's six-bit value.
   */
  function PayloadCharDecode(c: char): (v: nat)
    ensures v < 0x100
    ensures IsArmorChar(c) ==> v < 64
  {
    var b := (c as int - 48) % 0x100;
    if b > 40 then b - 8 else b
  }

  /** The armored character of a six-bit value: the inverse of PayloadCharDecode. */
  function ArmorChar(v: nat): (c: char)
    requires v < 64
    ensures IsArmorChar(c) && PayloadCharDecode(c) == v
  {
    if v < 40 then (v + 48) as char else (v + 56) as char
  }

  /** Decoding then re-armoring gives back every armored character. */
  lemma ArmorCharOfDecode(c: char)
    requires IsArmorChar(c)
    ensures ArmorChar(PayloadCharDecode(c)) == c
  {
  }

  // ---------------------------------------------------------------------
  // Reading bit fields
  // ---------------------------------------------------------------------

  /**
   * Bit i of the payload's bit stream: character i / 6 gives the six bits
   * i - i % 6 .. i - i % 6 + 5, its most significant bit first.
   */
  function PayloadBit(p: seq<char>, i: nat): Bit
    requires i < 6 * |p|
  {
    NatBit(PayloadCharDecode(p[i / 6]) % 64, 5 - i % 6)
  }

  /** The n payload bits starting at bit lo, in stream order. */
  function FieldBits(p: seq<char>, lo: nat, n: nat): (b: seq<Bit>)
    requires lo + n <= 6 * |p|
    ensures |b| == n
  {
    seq<Bit>(n, j requires 0 <= j < n => PayloadBit(p, lo + j))
  }

  /** The unsigned big-endian value of the n payload bits starting at bit lo. */
  function FieldValue(p: seq<char>, lo: nat, n: nat): (r: nat)
    requires lo + n <= 6 * |p|
    ensures r < Pow2(n)
  {
    BitsToNat(FieldBits(p, lo, n))
  }

  /** The field's first bit is its most significant digit, its last bit the least. */
  lemma FieldValueBit(p: seq<char>, lo: nat, n: nat, i: nat)
    requires lo + n <= 6 * |p|
    requires lo <= i < lo + n
    ensures NatBit(FieldValue(p, lo, n), lo + n - 1 - i) == PayloadBit(p, i)
  {
    BitsToNatBit(FieldBits(p, lo, n), i - lo);
  }

  /** A six-bit field aligned on a character is that character's six-bit value. */
  lemma CharField(p: seq<char>, k: nat)
    requires k < |p|
    ensures FieldValue(p, 6 * k, 6) == PayloadCharDecode(p[k]) % 64
  {
    var v := PayloadCharDecode(p[k]) % 64;
    forall j | 0 <= j < 6
      ensures NatBit(FieldValue(p, 6 * k, 6), j) == NatBit(v, j)
    {
      FieldValueBit(p, 6 * k, 6, 6 * k + 5 - j);
      assert (6 * k + 5 - j) / 6 == k && (6 * k + 5 - j) % 6 == 5 - j;
    }
    BitsDetermine(FieldValue(p, 6 * k, 6), v, 6);
  }

  /** Whether get_bits' `high` names the last bit of the field or the first bit after it. */
  datatype HighBound = Inclusive | Exclusive

  /** The number of bits from low to high under the chosen reading of high. */
  function FieldWidth(low: nat, high: nat, hb: HighBound): int {
    if hb == Inclusive then high - low + 1 else high - low
  }

  /**
   * get_bits: the unsigned big-endian value of the payload bits from low to
   * high, as a uint32_t (GetBitsDigits says which bits).
   */
  function GetBits(p: seq<char>, low: nat, high: nat, hb: HighBound): (r: nat)
    requires 0 <= FieldWidth(low, high, hb) <= 32
    requires low + FieldWidth(low, high, hb) <= 6 * |p|
    ensures r < Pow2(FieldWidth(low, high, hb)) && r < 0x1_0000_0000
  {
    var w := FieldWidth(low, high, hb);
    Pow2Monotone(w, 32);
    FieldValue(p, low, w)
  }

  /** The binary digits of get_bits are exactly the selected payload bits, the bit at `low` the most significant. */
  lemma GetBitsDigits(p: seq<char>, low: nat, high: nat, hb: HighBound)
    requires 0 <= FieldWidth(low, high, hb) <= 32
    requires low + FieldWidth(low, high, hb) <= 6 * |p|
    ensures var w := FieldWidth(low, high, hb);
            forall i :: low <= i < low + w ==> NatBit(GetBits(p, low, high, hb), low + w - 1 - i) == PayloadBit(p, i)
  {
    var w := FieldWidth(low, high, hb);
    forall i | low <= i < low + w
      ensures NatBit(FieldValue(p, low, w), low + w - 1 - i) == PayloadBit(p, i)
    {
      FieldValueBit(p, low, w, i);
    }
  }

  /** The two readings of `high` name the same field when the exclusive bound is one further. */
  lemma GetBitsBounds(p: seq<char>, low: nat, high: nat)
    requires low <= high && high - low <= 32 && high <= 6 * |p|
    ensures low < high ==> GetBits(p, low, high, Exclusive) == GetBits(p, low, high - 1, Inclusive)
    ensures GetBits(p, low, high, Exclusive) == FieldValue(p, low, high - low)
  {
  }

  /**
   * get_bits_signed: the same field as get_bits, read as a two's-complement
   * number of the field's width, as an int32_t. Its sign is the field's first
   * bit, and adding 2^width to a negative result gives back the unsigned
   * reading.
   */
  function GetBitsSigned(p: seq<char>, low: nat, high: nat, hb: HighBound): (r: int)
    requires 1 <= FieldWidth(low, high, hb) <= 32
    requires low + FieldWidth(low, high, hb) <= 6 * |p|
    ensures -(Pow2(FieldWidth(low, high, hb) - 1) as int) <= r < Pow2(FieldWidth(low, high, hb) - 1)
    ensures -0x8000_0000 <= r < 0x8000_0000
    ensures r < 0 <==> PayloadBit(p, low) == 1
    ensures GetBits(p, low, high, hb) == if r < 0 then r + Pow2(FieldWidth(low, high, hb)) else r
  {
    var w := FieldWidth(low, high, hb);
    var u := GetBits(p, low, high, hb);
    GetBitsDigits(p, low, high, hb);
    TopBit(u, w);
    Pow2Next(w - 1);
    Pow2Monotone(w - 1, 31);
    if PayloadBit(p, low) == 1 then u - Pow2(w) else u
  }

  // ---------------------------------------------------------------------
  // Six-bit text (ITU-R M.1371, Annex 8, Table 47)
  // ---------------------------------------------------------------------

  /** The six-bit text alphabet: 0..31 are '@'..'_', 32..63 are ' '..'?'. */
  function SixBitAscii(v: nat): (c: char)
    requires v < 64
    ensures 32 <= c as int < 96
  {
    if v < 32 then (v + 64) as char else v as char
  }

  /** Each six-bit code has its own character: the code is the character's value modulo 64. */
  lemma SixBitAsciiCode(v: nat)
    requires v < 64
    ensures SixBitAscii(v) as int % 64 == v
  {
  }

  /** Text character k of the field starting at bit lo. */
  function TextChar(p: seq<char>, lo: nat, k: nat): char
    requires lo + 6 * k + 6 <= 6 * |p|
  {
    SixBitAscii(GetBits(p, lo + 6 * k, lo + 6 * k + 5, Inclusive))
  }

  /** The n text characters whose six-bit codes start at bit lo. */
  function SixBitText(p: seq<char>, lo: nat, n: nat): seq<char>
    requires lo + 6 * n <= 6 * |p|
  {
    seq(n, k requires 0 <= k < n => TextChar(p, lo, k))
  }

  /** '@' (code 0) and space are the padding of a text field. */
  predicate IsPad(c: char) {
    c == '@' || c == ' '
  }

  predicate AllPad(s: seq<char>) {
    forall i :: 0 <= i < |s| ==> IsPad(s[i])
  }

  /** Text as get_char stores it: every '@', and every space followed only by padding, becomes NUL. */
  function Blanked(s: seq<char>): (t: seq<char>)
    ensures |t| == |s|
  {
    seq(|s|, i requires 0 <= i < |s| => BlankedChar(s, i))
  }

  /** Character i of Blanked(s). */
  function BlankedChar(s: seq<char>, i: nat): char
    requires i < |s|
  {
    if s[i] == '@' || (s[i] == ' ' && AllPad(s[i + 1..])) then '\0' else s[i]
  }

  /**
   * get_char: writes the (width / 6) text characters of the field into
   * `text`, padding turned into NUL as Blanked says, followed by a NUL.
   * Nothing else in the array changes.
   */
  method GetChar(p: seq<char>, text: array<char>, low: nat, high: nat, hb: HighBound)
    requires 0 <= FieldWidth(low, high, hb) && low + FieldWidth(low, high, hb) <= 6 * |p|
    requires FieldWidth(low, high, hb) / 6 < text.Length
    modifies text
    ensures var n := FieldWidth(low, high, hb) / 6;
            && text[..n] == Blanked(SixBitText(p, low, n))
            && text[n] == '\0'
            && text[n + 1..] == old(text[n + 1..])
  {
    var n := FieldWidth(low, high, hb) / 6;
    assert low + 6 * n <= 6 * |p|;
    ghost var chars := SixBitText(p, low, n);
    var foundChar := false;
    var i := n;
    while i > 0
      invariant 0 <= i <= n
      invariant foundChar == !AllPad(chars[i..])
      invariant forall k :: i <= k < n ==> text[k] == BlankedChar(chars, k)
      invariant forall k :: n <= k < text.Length ==> text[k] == old(text[k])
    {
      var c := TextChar(p, low, i - 1);
      GetCharStep(chars, i, foundChar);
      text[i - 1] := if c == '@' || (c == ' ' && !foundChar) then '\0' else c;
      foundChar := foundChar || !IsPad(c);
      i := i - 1;
    }
    text[n] := '\0';
    assert text[..n] == Blanked(chars);
  }

  /** One step of get_char's backward scan, on the text characters. */
  lemma GetCharStep(chars: seq<char>, i: nat, foundChar: bool)
    requires 0 < i <= |chars| && foundChar == !AllPad(chars[i..])
    ensures var c := chars[i - 1];
            && BlankedChar(chars, i - 1) == (if c == '@' || (c == ' ' && !foundChar) then '\0' else c)
            && (foundChar || !IsPad(c)) == !AllPad(chars[i - 1..])
  {
    AllPadStep(chars, i);
  }

  lemma AllPadStep(s: seq<char>, i: nat)
    requires 0 < i <= |s|
    ensures AllPad(s[i - 1..]) <==> IsPad(s[i - 1]) && AllPad(s[i..])
  {
    assert s[i - 1..] == [s[i - 1]] + s[i..];
  }

  /** The C string in a buffer: everything before its first NUL. */
  function CString(s: seq<char>): (t: seq<char>)
    ensures t <= s && '\0' !in t
    ensures |t| < |s| ==> s[|t|] == '\0'
  {
    if s == [] || s[0] == '\0' then [] else [s[0]] + CString(s[1..])
  }

  /** The text without its trailing spaces. */
  function TrimTrailingSpaces(s: seq<char>): (t: seq<char>)
    ensures t <= s
    ensures forall i :: |t| <= i < |s| ==> s[i] == ' '
    ensures |t| > 0 ==> t[|t| - 1] != ' '
  {
    if |s| > 0 && s[|s| - 1] == ' ' then TrimTrailingSpaces(s[..|s| - 1]) else s
  }

  /** A buffer whose first NUL is at index k reads back as its first k characters. */
  lemma {:induction false} CStringOfBuffer(b: seq<char>, k: nat)
    requires k < |b| && b[k] == '\0'
    requires forall i :: 0 <= i < k ==> b[i] != '\0'
    ensures CString(b) == b[..k]
  {
    if k > 0 {
      CStringOfBuffer(b[1..], k - 1);
      assert b[..k] == [b[0]] + b[1..][..k - 1];
    }
  }

  /** Where Blanked keeps a character and where it puts NUL, for text without '@' inside. */
  lemma BlankedOfTrimmed(s: seq<char>, i: nat)
    requires forall k :: 0 <= k < |s| ==> s[k] != '@' && s[k] != '\0'
    requires i < |s|
    ensures Blanked(s)[i] == if i < |TrimTrailingSpaces(s)| then s[i] else '\0'
  {
    var t := TrimTrailingSpaces(s);
    if i < |t| {
      if s[i] == ' ' {
        assert i < |t| - 1;
        var j := |t| - 1 - (i + 1);
        assert s[i + 1..][j] == t[|t| - 1];
        assert !AllPad(s[i + 1..]);
      }
    } else {
      assert s[i] == ' ';
      var rest := s[i + 1..];
      forall k | 0 <= k < |rest|
        ensures IsPad(rest[k])
      {
        assert rest[k] == s[i + 1 + k];
      }
    }
  }

  /** Blanked keeps the trimmed text and puts a NUL right after it. */
  lemma BlankedSplit(s: seq<char>)
    requires forall i :: 0 <= i < |s| ==> s[i] != '@' && s[i] != '\0'
    ensures var t := TrimTrailingSpaces(s);
            var b := Blanked(s) + ['\0'];
            b[..|t|] == t && b[|t|] == '\0'
  {
    var t := TrimTrailingSpaces(s);
    var b := Blanked(s) + ['\0'];
    forall i | 0 <= i < |t|
      ensures b[i] == t[i]
    {
      BlankedOfTrimmed(s, i);
    }
    if |t| < |s| {
      BlankedOfTrimmed(s, |t|);
    }
  }

  /**
   * A text field without '@' inside reads back, as a C string, as the text
   * with its trailing spaces removed.
   */
  lemma TextFieldTrimmed(s: seq<char>)
    requires forall i :: 0 <= i < |s| ==> s[i] != '@' && s[i] != '\0'
    ensures CString(Blanked(s) + ['\0']) == TrimTrailingSpaces(s)
  {
    var t := TrimTrailingSpaces(s);
    var b := Blanked(s) + ['\0'];
    BlankedSplit(s);
    forall i | 0 <= i < |t|
      ensures b[i] != '\0'
    {
      assert b[i] == b[..|t|][i] == t[i] == s[i];
    }
    CStringOfBuffer(b, |t|);
  }

  // ---------------------------------------------------------------------
  // The inverse direction: bit strings and their armoring
  // ---------------------------------------------------------------------

  /** The n-bit big-endian bit string of v (its n low digits). */
  function NatToBits(v: nat, n: nat): (b: seq<Bit>)
    ensures |b| == n
  {
    if n == 0 then [] else NatToBits(v / 2, n - 1) + [v % 2]
  }

  /** Reading back the n bits written for a value below 2^n gives that value. */
  lemma {:induction false} NatToBitsRoundTrip(v: nat, n: nat)
    requires v < Pow2(n)
    ensures BitsToNat(NatToBits(v, n)) == v
  {
    if n > 0 {
      NatToBitsRoundTrip(v / 2, n - 1);
      assert NatToBits(v, n)[..n - 1] == NatToBits(v / 2, n - 1);
    }
  }

  /** The armored payload whose bit stream is b, six bits per character. */
  function ArmorBits(b: seq<Bit>): (p: seq<char>)
    requires |b| % 6 == 0
    ensures |p| == |b| / 6 && IsArmored(p)
  {
    seq(|b| / 6, k requires 0 <= k < |b| / 6 => ArmorChar(BitsToNat(b[6 * k..6 * k + 6])))
  }

  /** Every bit of the stream survives armoring. */
  lemma ArmorBitsBit(b: seq<Bit>, i: nat)
    requires |b| % 6 == 0 && i < |b|
    ensures PayloadBit(ArmorBits(b), i) == b[i]
  {
    var k, m := i / 6, i % 6;
    var chunk := b[6 * k..6 * k + 6];
    var v := BitsToNat(chunk);
    assert v < 64;
    assert ArmorBits(b)[k] == ArmorChar(v);
    assert PayloadCharDecode(ArmorBits(b)[k]) % 64 == v;
    BitsToNatBit(chunk, m);
    assert chunk[m] == b[i];
  }

  /** Any field read from an armored bit string is the value of the corresponding bits. */
  lemma ArmoredField(b: seq<Bit>, lo: nat, n: nat)
    requires |b| % 6 == 0 && lo + n <= |b|
    ensures FieldValue(ArmorBits(b), lo, n) == BitsToNat(b[lo..lo + n])
  {
    var p := ArmorBits(b);
    assert 6 * |p| == |b|;
    forall j | 0 <= j < n
      ensures FieldBits(p, lo, n)[j] == b[lo..lo + n][j]
    {
      ArmorBitsBit(b, lo + j);
    }
    assert FieldBits(p, lo, n) == b[lo..lo + n];
  }
}
