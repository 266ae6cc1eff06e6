/**
 * Percent-escaping (section 2.1 of RFC 3986): one printer over several
 * character maps, and the binary unescape that reads its output back.
 */
module PercentEscape {
  import opened Bytes
  import opened Seqs

  // ------------------------------------------------------------------
  // Character maps
  // ------------------------------------------------------------------

  /** 256 membership bits in eight 32-bit words. */
  datatype Charmap = Charmap(
    w0: bv32, w1: bv32, w2: bv32, w3: bv32,
    w4: bv32, w5: bv32, w6: bv32, w7: bv32)
  {
    function Word(row: bv8): bv32
      requires row < 8
    {
      if row == 0 then w0 else if row == 1 then w1
      else if row == 2 then w2 else if row == 3 then w3
      else if row == 4 then w4 else if row == 5 then w5
      else if row == 6 then w6 else w7
    }

    predicate HasBit(c: bv8) {
      Word(c >> 5) & ((1 as bv32) << ((c & 31) as bv32)) != 0
    }

    predicate Contains(c: byte) {
      HasBit(c as bv8)
    }

    function Members(): set<byte> {
      set c: byte | 0 <= c < 256 && Contains(c)
    }
  }

  const ALL_BITS: bv32 := 0xffffffff

  const UNRESERVED_CHARMAP := Charmap(
    ALL_BITS, 0xfc009fff, 0x78000001, 0xb8000001, ALL_BITS, ALL_BITS, ALL_BITS, ALL_BITS)
  const QUERY_CHARMAP := Charmap(
    ALL_BITS, 0xfc00987d, 0x78000001, 0xb8000001, ALL_BITS, ALL_BITS, ALL_BITS, ALL_BITS)
  const PATH_CHARMAP := Charmap(
    ALL_BITS, 0xd400002d, 0x78000000, 0xb8000001, ALL_BITS, ALL_BITS, ALL_BITS, ALL_BITS)
  const NSURL_CHARMAP := Charmap(
    ALL_BITS, 0x5000002d, 0x78000000, 0xb8000001, ALL_BITS, ALL_BITS, ALL_BITS, ALL_BITS)
  const URL_ESCAPE_CHARMAP := Charmap(
    ALL_BITS, 0xf80008fd, 0x78000001, 0xb8000001, ALL_BITS, ALL_BITS, ALL_BITS, ALL_BITS)
  const NON_ASCII_AND_PERCENT_CHARMAP := Charmap(0, 0x00000020, 0, 0, ALL_BITS, ALL_BITS, ALL_BITS, ALL_BITS)
  const NON_ASCII_CHARMAP := Charmap(0, 0, 0, 0, ALL_BITS, ALL_BITS, ALL_BITS, ALL_BITS)
  const EXTERNAL_HANDLER_CHARMAP := Charmap(
    ALL_BITS, 0x50000025, 0x50000000, 0xb8000001, ALL_BITS, ALL_BITS, ALL_BITS, ALL_BITS)

  /** `-._~`, the marks section 2.3 of RFC 3986 leaves unreserved. */
  predicate IsUnreservedMark(c: byte) {
    c == 0x2D || c == 0x2E || c == 0x5F || c == 0x7E
  }

  /** `!'()*`, the further marks of RFC 2396. */
  predicate IsExtraMark(c: byte) {
    c == 0x21 || 0x27 <= c <= 0x2A
  }

  /** `;/?:@&=+$,#[]` */
  predicate IsRestricted(c: byte) {
    c == 0x3B || c == 0x2F || c == 0x3F || c == 0x3A || c == 0x40 || c == 0x26 || c == 0x3D
    || c == 0x2B || c == 0x24 || c == 0x2C || c == 0x23 || c == 0x5B || c == 0x5D
  }

  lemma UnreservedBits(b: bv8)
    ensures UNRESERVED_CHARMAP.HasBit(b) <==> var c := b as int; !(IsAlphanumeric(c) || IsUnreservedMark(c))
  {
  }

  lemma QueryBits(b: bv8)
    ensures QUERY_CHARMAP.HasBit(b)
       <==> var c := b as int; !(IsAlphanumeric(c) || IsUnreservedMark(c) || IsExtraMark(c))
  {
  }

  lemma ExternalHandlerBits(b: bv8)
    ensures EXTERNAL_HANDLER_CHARMAP.HasBit(b)
       <==> var c := b as int; !(IsAlphanumeric(c) || IsUnreservedMark(c) || IsExtraMark(c) || IsRestricted(c))
  {
  }

  /** Not a printable character of seven bits, the space included. */
  predicate IsUnprintable(c: byte) {
    c <= 0x20 || c >= 0x7F
  }

  /** `[\]^` and, from the next block, the backtick and `{|}` */
  predicate IsUnwise(c: byte) {
    0x5B <= c <= 0x5E || c == 0x60 || 0x7B <= c <= 0x7D
  }

  /** `"#%<>` */
  predicate IsDelimiter(c: byte) {
    c == 0x22 || c == 0x23 || c == 0x25 || c == 0x3C || c == 0x3E
  }

  /** `?=;+'&$`, which with the others are escaped in form content. */
  predicate IsFormMark(c: byte) {
    c == 0x3F || c == 0x3D || c == 0x3B || c == 0x2B || c == 0x27 || c == 0x26 || c == 0x24
  }

  lemma PathBits(b: bv8)
    ensures PATH_CHARMAP.HasBit(b)
       <==> var c := b as int; IsUnprintable(c) || IsUnwise(c) || IsDelimiter(c) || c == 0x3A || c == 0x3F
  {
  }

  lemma NsurlBits(b: bv8)
    ensures NSURL_CHARMAP.HasBit(b) <==> var c := b as int; IsUnprintable(c) || IsUnwise(c) || IsDelimiter(c)
  {
  }

  lemma UrlEscapeBits(b: bv8)
    ensures URL_ESCAPE_CHARMAP.HasBit(b)
       <==> var c := b as int; IsUnprintable(c) || IsUnwise(c) || IsDelimiter(c) || IsFormMark(c) || c == 0x40
  {
  }

  lemma NonAsciiBits(b: bv8)
    ensures NON_ASCII_AND_PERCENT_CHARMAP.HasBit(b) <==> var c := b as int; c >= 0x80 || c == 0x25
    ensures NON_ASCII_CHARMAP.HasBit(b) <==> var c := b as int; c >= 0x80
  {
  }

  lemma ByteOfBits(c: byte)
    ensures (c as bv8) as int == c
  {
    var b := BitsOf(c);
    BitsAreUnique(b, c);
  }

  lemma {:induction false} BitsOf(c: byte) returns (b: bv8)
    ensures b as int == c
    decreases c
  {
    if c == 0 {
      b := 0;
    } else {
      var half := BitsOf(c / 2);
      var bit: bv8 := if c % 2 == 1 then 1 else 0;
      ShiftIn(half, bit);
      b := (half << 1) | bit;
    }
  }

  lemma ShiftIn(half: bv8, bit: bv8)
    requires half as int < 128 && bit < 2
    ensures ((half << 1) | bit) as int == 2 * (half as int) + bit as int
  {
  }

  lemma BitsAreUnique(b: bv8, c: byte)
    requires b as int == c
    ensures c as bv8 == b
  {
  }

  /** The bytes each of the eight maps holds. */
  lemma CharmapMeanings(c: byte)
    ensures UNRESERVED_CHARMAP.Contains(c) <==> !(IsAlphanumeric(c) || IsUnreservedMark(c))
    ensures QUERY_CHARMAP.Contains(c) <==> !(IsAlphanumeric(c) || IsUnreservedMark(c) || IsExtraMark(c))
    ensures EXTERNAL_HANDLER_CHARMAP.Contains(c)
       <==> !(IsAlphanumeric(c) || IsUnreservedMark(c) || IsExtraMark(c) || IsRestricted(c))
    ensures PATH_CHARMAP.Contains(c)
       <==> IsUnprintable(c) || IsUnwise(c) || IsDelimiter(c) || c == 0x3A || c == 0x3F
    ensures NSURL_CHARMAP.Contains(c) <==> IsUnprintable(c) || IsUnwise(c) || IsDelimiter(c)
    ensures URL_ESCAPE_CHARMAP.Contains(c)
       <==> IsUnprintable(c) || IsUnwise(c) || IsDelimiter(c) || IsFormMark(c) || c == 0x40
    ensures NON_ASCII_AND_PERCENT_CHARMAP.Contains(c) <==> c >= 0x80 || c == 0x25
    ensures NON_ASCII_CHARMAP.Contains(c) <==> c >= 0x80
  {
    hide IsAlphanumeric, IsUnreservedMark, IsExtraMark, IsRestricted, IsUnprintable, IsUnwise, IsDelimiter, IsFormMark;
    var b := c as bv8;
    ByteOfBits(c);
    UnreservedBits(b);
    QueryBits(b);
    ExternalHandlerBits(b);
    PathBits(b);
    NsurlBits(b);
    UrlEscapeBits(b);
    NonAsciiBits(b);
  }

  /**
   * The documentation of the form-content escape lists the exclamation mark and not the at
   * sign; the map differs from it in exactly these two.
   */
  lemma UrlEncodedDiffersFromDocumentation(c: byte)
    ensures (URL_ESCAPE_CHARMAP.Contains(c)
             <==> IsUnprintable(c) || IsUnwise(c) || IsDelimiter(c) || IsFormMark(c) || c == 0x21)
       <==> c != 0x21 && c != 0x40
  {
    CharmapMeanings(c);
  }

  // ------------------------------------------------------------------
  // Escaping
  // ------------------------------------------------------------------

  /** A well-formed `%XX` stands at offset `i`. */
  predicate IsTriple(s: seq<byte>, i: nat) {
    i + 2 < |s| && s[i] == PERCENT && IsHexDigit(s[i + 1]) && IsHexDigit(s[i + 2])
  }

  function TripleValue(s: seq<byte>, i: nat): byte
    requires IsTriple(s, i)
  {
    HexPair(s[i + 1], s[i + 2])
  }

  /** What one byte of the text contributes, given what follows it. */
  function EscapeByte(text: seq<byte>, i: nat, esc: set<byte>, usePlus: bool, keepEscaped: bool): seq<byte>
    requires i < |text|
  {
    var c := text[i];
    if usePlus && c == SPACE then [PLUS]
    else if keepEscaped && IsTriple(text, i) then [PERCENT]
    else if c in esc then [PERCENT, IntToHex(c / 16), IntToHex(c % 16)]
    else [c]
  }

  function Escaped(text: seq<byte>, esc: set<byte>, usePlus: bool, keepEscaped: bool): seq<byte> {
    if text == [] then []
    else EscapeByte(text, 0, esc, usePlus, keepEscaped) + Escaped(text[1..], esc, usePlus, keepEscaped)
  }

  lemma EscapedStep(text: seq<byte>, i: nat, esc: set<byte>, usePlus: bool, keepEscaped: bool)
    requires i < |text|
    ensures Escaped(text[i..], esc, usePlus, keepEscaped)
         == EscapeByte(text, i, esc, usePlus, keepEscaped) + Escaped(text[i + 1..], esc, usePlus, keepEscaped)
  {
    assert text[i..][1..] == text[i + 1..];
  }

  /** Without kept escapes a text is escaped piece by piece. */
  lemma {:induction false} EscapedJoin(a: seq<byte>, b: seq<byte>, esc: set<byte>, usePlus: bool)
    ensures Escaped(a + b, esc, usePlus, false) == Escaped(a, esc, usePlus, false) + Escaped(b, esc, usePlus, false)
  {
    if a == [] {
      assert a + b == b;
    } else {
      EscapedJoin(a[1..], b, esc, usePlus);
      assert (a + b)[1..] == a[1..] + b;
      Append3(EscapeByte(a, 0, esc, usePlus, false), Escaped(a[1..], esc, usePlus, false),
              Escaped(b, esc, usePlus, false));
    }
  }

  /**
   * A byte is escaped exactly if the map holds it, as a percent sign and its upper-case
   * digits; on request a space is a plus sign instead; any other byte stands for itself.
   */
  lemma EscapedByte(c: byte, esc: set<byte>, usePlus: bool)
    ensures var r := Escaped([c], esc, usePlus, false);
            && (usePlus && c == ' ' as int ==> r == ['+' as int])
            && (c in esc && !(usePlus && c == ' ' as int) ==>
                  r == ['%' as int, UPPER_DIGITS[c / 16] as int, UPPER_DIGITS[c % 16] as int])
            && (c !in esc && !(usePlus && c == ' ' as int) ==> r == [c])
  {
    EscapedOne(c, esc, usePlus, false);
    HexDigitsByTable(0, c / 16);
    HexDigitsByTable(0, c % 16);
  }

  /** Keeping escapes makes no difference where there are none. */
  lemma {:induction false} KeepsOnlyEscapes(text: seq<byte>, esc: set<byte>, usePlus: bool)
    requires HasNoTriple(text)
    ensures Escaped(text, esc, usePlus, true) == Escaped(text, esc, usePlus, false)
  {
    if text != [] {
      assert forall i: nat :: IsTriple(text[1..], i) ==> IsTriple(text, i + 1);
      KeepsOnlyEscapes(text[1..], esc, usePlus);
    }
  }

  method Escape(text: seq<byte>, m: Charmap, usePlus: bool, keepEscaped: bool) returns (escaped: seq<byte>)
    ensures escaped == Escaped(text, m.Members(), usePlus, keepEscaped)
  {
    escaped := [];
    var i := 0;
    assert text[0..] == text;
    while i < |text|
      invariant i <= |text|
      invariant escaped + Escaped(text[i..], m.Members(), usePlus, keepEscaped)
             == Escaped(text, m.Members(), usePlus, keepEscaped)
    {
      EscapedStep(text, i, m.Members(), usePlus, keepEscaped);
      Append3(escaped, EscapeByte(text, i, m.Members(), usePlus, keepEscaped),
              Escaped(text[i + 1..], m.Members(), usePlus, keepEscaped));
      var c := text[i];
      if usePlus && c == SPACE {
        escaped := escaped + [PLUS];
      } else if keepEscaped && c == PERCENT && i + 2 < |text| && IsHexDigit(text[i + 1]) && IsHexDigit(text[i + 2]) {
        escaped := escaped + [PERCENT];
      } else if m.Contains(c) {
        escaped := escaped + [PERCENT, IntToHex(c / 16), IntToHex(c % 16)];
      } else {
        escaped := escaped + [c];
      }
      i := i + 1;
    }
  }

  // ------------------------------------------------------------------
  // Binary unescaping
  // ------------------------------------------------------------------

  function ReplacePlus(c: byte, replacePlus: bool): byte {
    if replacePlus && c == PLUS then SPACE else c
  }

  function Unescaped(s: seq<byte>, replacePlus: bool): seq<byte> {
    if s == [] then []
    else if IsTriple(s, 0) then [TripleValue(s, 0)] + Unescaped(s[3..], replacePlus)
    else [ReplacePlus(s[0], replacePlus)] + Unescaped(s[1..], replacePlus)
  }

  /** The escape at `i` spells its byte in digits of either case. */
  lemma TripleSpellsByte(s: seq<byte>, i: nat, v: byte)
    ensures IsTriple(s, i) && TripleValue(s, i) == v <==>
              && i + 2 < |s| && s[i] == '%' as int
              && (s[i + 1] == UPPER_DIGITS[v / 16] as int || s[i + 1] == LOWER_DIGITS[v / 16] as int)
              && (s[i + 2] == UPPER_DIGITS[v % 16] as int || s[i + 2] == LOWER_DIGITS[v % 16] as int)
  {
    if i + 2 < |s| {
      HexDigitsByTable(s[i + 1], v / 16);
      HexDigitsByTable(s[i + 2], v % 16);
    }
  }

  /** The texts agree but for the case of digits that belong to an escape. */
  ghost predicate Recased(s: seq<byte>, t: seq<byte>) {
    && |s| == |t|
    && forall i :: 0 <= i < |s| && s[i] != t[i] ==>
         && IsHexDigit(s[i]) && IsHexDigit(t[i]) && HexDigitToInt(s[i]) == HexDigitToInt(t[i])
         && exists j: nat :: j < i <= j + 2 && IsTriple(s, j)
  }

  /** No escape reaches over `i`. */
  ghost predicate AtBoundary(s: seq<byte>, i: nat) {
    forall j: nat :: j < i <= j + 2 ==> !IsTriple(s, j)
  }

  lemma {:induction false} CaseIsIrrelevantFrom(s: seq<byte>, t: seq<byte>, i: nat, replacePlus: bool)
    requires Recased(s, t) && i <= |s| && AtBoundary(s, i)
    ensures Unescaped(s[i..], replacePlus) == Unescaped(t[i..], replacePlus)
    decreases |s| - i
  {
    if i < |s| {
      hide Recased, AtBoundary, Unescaped, IsTriple, TripleValue;
      RecasedStep(s, t, i);
      UnescapedStep(s, i, replacePlus);
      UnescapedStep(t, i, replacePlus);
      CaseIsIrrelevantFrom(s, t, if IsTriple(s, i) then i + 3 else i + 1, replacePlus);
    }
  }

  /** At a boundary both texts go on alike, and up to another boundary. */
  lemma RecasedStep(s: seq<byte>, t: seq<byte>, i: nat)
    requires Recased(s, t) && i < |s| && AtBoundary(s, i)
    ensures |s| == |t| && s[i] == t[i] && (IsTriple(s, i) <==> IsTriple(t, i))
    ensures IsTriple(s, i) ==> i + 3 <= |s| && TripleValue(s, i) == TripleValue(t, i) && AtBoundary(s, i + 3)
    ensures !IsTriple(s, i) ==> AtBoundary(s, i + 1)
  {
  }

  /** Changing the case of the digits of any escapes does not change what a text unescapes to. */
  lemma CaseIsIrrelevant(s: seq<byte>, t: seq<byte>, replacePlus: bool)
    requires Recased(s, t)
    ensures Unescaped(s, replacePlus) == Unescaped(t, replacePlus)
  {
    CaseIsIrrelevantFrom(s, t, 0, replacePlus);
    assert s[0..] == s && t[0..] == t;
  }

  /** Reads `%XX` at `index`, checking bounds first. */
  method UnescapeUnsignedByteAtIndex(s: seq<byte>, index: nat) returns (ok: bool, value: byte)
    ensures ok <==> IsTriple(s, index)
    ensures ok ==> value == TripleValue(s, index)
  {
    value := 0;
    if index + 2 >= |s| { return false, value; }
    if s[index] != PERCENT { return false, value; }
    var mostSigDigit := s[index + 1];
    var leastSigDigit := s[index + 2];
    if IsHexDigit(mostSigDigit) && IsHexDigit(leastSigDigit) {
      value := HexDigitToInt(mostSigDigit) * 16 + HexDigitToInt(leastSigDigit);
      return true, value;
    }
    return false, value;
  }

  /** One step of the unescape at offset `i` of the whole string. */
  lemma UnescapedStep(s: seq<byte>, i: nat, replacePlus: bool)
    requires i < |s|
    ensures IsTriple(s, i) ==>
              Unescaped(s[i..], replacePlus) == [TripleValue(s, i)] + Unescaped(s[i + 3..], replacePlus)
    ensures !IsTriple(s, i) ==>
              Unescaped(s[i..], replacePlus) == [ReplacePlus(s[i], replacePlus)] + Unescaped(s[i + 1..], replacePlus)
  {
    var rest := s[i..];
    assert IsTriple(rest, 0) == IsTriple(s, i);
    if IsTriple(s, i) {
      assert rest[3..] == s[i + 3..];
    } else {
      assert rest[1..] == s[i + 1..];
    }
  }

  /** Writes into a buffer as long as the input and trims it at the end. */
  method UnescapeBinaryURLComponent(s: seq<byte>, replacePlus: bool) returns (r: seq<byte>)
    ensures r == Unescaped(s, replacePlus)
  {
    hide Unescaped, TripleValue;
    var buffer := new byte[|s|];
    var outputIndex := 0;
    var i := 0;
    assert s[0..] == s;
    while i < |s|
      invariant i <= |s| && outputIndex <= i && buffer.Length == |s|
      invariant buffer[..outputIndex] + Unescaped(s[i..], replacePlus) == Unescaped(s, replacePlus)
    {
      UnescapedStep(s, i, replacePlus);
      ghost var done := buffer[..outputIndex];
      var ok, value := UnescapeUnsignedByteAtIndex(s, i);
      if ok {
        buffer[outputIndex] := value;
        i := i + 3;
      } else if replacePlus && s[i] == PLUS {
        buffer[outputIndex] := SPACE;
        i := i + 1;
      } else {
        buffer[outputIndex] := s[i];
        i := i + 1;
      }
      outputIndex := outputIndex + 1;
      assert buffer[..outputIndex] == done + [buffer[outputIndex - 1]];
      Append3(done, [buffer[outputIndex - 1]], Unescaped(s[i..], replacePlus));
    }
    r := buffer[..outputIndex];
    assert s[i..] == [] && r + [] == r;
    NothingUnescaped(replacePlus);
  }

  lemma NothingUnescaped(replacePlus: bool)
    ensures Unescaped([], replacePlus) == []
  {
  }

  // ------------------------------------------------------------------
  // Unescaping undoes escaping
  // ------------------------------------------------------------------

  ghost predicate EscapesEveryHexDigit(esc: set<byte>) {
    forall h: byte :: IsHexDigit(h) ==> h in esc
  }

  ghost predicate EscapesNoHexDigit(esc: set<byte>) {
    forall h: byte :: IsHexDigit(h) ==> h !in esc
  }

  ghost predicate RoundTrips(esc: set<byte>, usePlus: bool, replacePlus: bool) {
    forall text: seq<byte> :: Unescaped(Escaped(text, esc, usePlus, false), replacePlus) == text
  }

  /** What a caller can check about the map and the flags before escaping. */
  ghost predicate RoundTripCondition(esc: set<byte>, usePlus: bool, replacePlus: bool) {
    && (usePlus ==> replacePlus)
    && (replacePlus ==> PLUS in esc)
    && (PERCENT in esc || EscapesEveryHexDigit(esc))
  }

  lemma UnescapeTriple(c: byte, rest: seq<byte>, replacePlus: bool)
    ensures Unescaped([PERCENT, IntToHex(c / 16), IntToHex(c % 16)] + rest, replacePlus)
         == [c] + Unescaped(rest, replacePlus)
  {
    HexPairOfByte(c);
    var s := [PERCENT, IntToHex(c / 16), IntToHex(c % 16)] + rest;
    assert s[3..] == rest;
  }

  lemma UnescapeRaw(c: byte, rest: seq<byte>, replacePlus: bool)
    requires !IsTriple([c] + rest, 0)
    ensures Unescaped([c] + rest, replacePlus) == [ReplacePlus(c, replacePlus)] + Unescaped(rest, replacePlus)
  {
    assert ([c] + rest)[1..] == rest;
  }

  lemma {:induction false} RoundTrip(text: seq<byte>, esc: set<byte>, usePlus: bool, replacePlus: bool)
    requires RoundTripCondition(esc, usePlus, replacePlus)
    ensures Unescaped(Escaped(text, esc, usePlus, false), replacePlus) == text
  {
    if text != [] {
      var c := text[0];
      var rest := Escaped(text[1..], esc, usePlus, false);
      RoundTrip(text[1..], esc, usePlus, replacePlus);
      assert text == [c] + text[1..];
      if usePlus && c == SPACE {
        UnescapeRaw(PLUS, rest, replacePlus);
      } else if c in esc {
        UnescapeTriple(c, rest, replacePlus);
      } else {
        UnescapeRaw(c, rest, replacePlus);
      }
    }
  }

  /**
   * Unescaping undoes escaping on every byte string exactly when spaces written
   * as plus signs are read back as spaces, plus signs that would be read as spaces
   * are escaped, and no raw percent sign can come to stand before two raw digits.
   */
  lemma RoundTripExactly(esc: set<byte>, usePlus: bool, replacePlus: bool)
    ensures RoundTrips(esc, usePlus, replacePlus) <==> RoundTripCondition(esc, usePlus, replacePlus)
  {
    if RoundTripCondition(esc, usePlus, replacePlus) {
      forall text: seq<byte> ensures Unescaped(Escaped(text, esc, usePlus, false), replacePlus) == text {
        RoundTrip(text, esc, usePlus, replacePlus);
      }
    } else if usePlus && !replacePlus {
      EscapedOne(SPACE, esc, usePlus, false);
      UnescapedOne(PLUS, replacePlus);
      assert Unescaped(Escaped([SPACE], esc, usePlus, false), replacePlus) != [SPACE];
    } else if replacePlus && PLUS !in esc {
      EscapedOne(PLUS, esc, usePlus, false);
      UnescapedOne(PLUS, replacePlus);
      assert Unescaped(Escaped([PLUS], esc, usePlus, false), replacePlus) != [PLUS];
    } else {
      var h: byte :| IsHexDigit(h) && h !in esc;
      var text := [PERCENT, h, h];
      EscapedTriple(h, esc, usePlus);
      assert |Unescaped(Escaped(text, esc, usePlus, false), replacePlus)| == 1;
    }
  }

  lemma EscapedOne(c: byte, esc: set<byte>, usePlus: bool, keepEscaped: bool)
    ensures Escaped([c], esc, usePlus, keepEscaped) == EscapeByte([c], 0, esc, usePlus, keepEscaped)
  {
    assert [c][1..] == [];
  }

  lemma UnescapedOne(c: byte, replacePlus: bool)
    ensures Unescaped([c], replacePlus) == [ReplacePlus(c, replacePlus)]
  {
    assert [c][1..] == [];
  }

  lemma EscapedTriple(h: byte, esc: set<byte>, usePlus: bool)
    requires IsHexDigit(h) && h !in esc && PERCENT !in esc
    ensures Escaped([PERCENT, h, h], esc, usePlus, false) == [PERCENT, h, h]
    ensures forall replacePlus :: |Unescaped([PERCENT, h, h], replacePlus)| == 1
  {
    assert [PERCENT, h, h][1..] == [h, h];
    assert [h, h][1..] == [h];
    EscapedOne(h, esc, usePlus, false);
    assert [PERCENT, h, h][3..] == [];
  }

  /** Every escaper of the public interface that is documented as reversible is. */
  lemma PublicEscapersRoundTrip()
    ensures RoundTrips(UNRESERVED_CHARMAP.Members(), false, false)
    ensures RoundTrips(QUERY_CHARMAP.Members(), false, false) && RoundTrips(QUERY_CHARMAP.Members(), true, true)
    ensures RoundTrips(PATH_CHARMAP.Members(), false, false)
    ensures RoundTrips(URL_ESCAPE_CHARMAP.Members(), false, false)
    ensures RoundTrips(URL_ESCAPE_CHARMAP.Members(), true, true)
    ensures RoundTrips(NON_ASCII_AND_PERCENT_CHARMAP.Members(), false, false)
    ensures !RoundTrips(NON_ASCII_CHARMAP.Members(), false, false)
    ensures forall text, m :: m == NSURL_CHARMAP || m == EXTERNAL_HANDLER_CHARMAP ==>
              (Unescaped(Escaped(text, m.Members(), false, true), false) == text <==> HasNoTriple(text))
  {
    forall text, m | m == NSURL_CHARMAP || m == EXTERNAL_HANDLER_CHARMAP
      ensures Unescaped(Escaped(text, m.Members(), false, true), false) == text <==> HasNoTriple(text)
    {
      KeepingEscapes(text, m);
    }
    RoundTripExactly(UNRESERVED_CHARMAP.Members(), false, false);
    RoundTripExactly(QUERY_CHARMAP.Members(), false, false);
    RoundTripExactly(QUERY_CHARMAP.Members(), true, true);
    RoundTripExactly(PATH_CHARMAP.Members(), false, false);
    RoundTripExactly(URL_ESCAPE_CHARMAP.Members(), false, false);
    RoundTripExactly(URL_ESCAPE_CHARMAP.Members(), true, true);
    RoundTripExactly(NON_ASCII_AND_PERCENT_CHARMAP.Members(), false, false);
    assert IsHexDigit(0x30) && 0x30 !in NON_ASCII_CHARMAP.Members();
    RoundTripExactly(NON_ASCII_CHARMAP.Members(), false, false);
  }

  // ------------------------------------------------------------------
  // Keeping what is already escaped
  // ------------------------------------------------------------------

  ghost predicate PreservesMeaning(esc: set<byte>, usePlus: bool, replacePlus: bool) {
    forall text: seq<byte> ::
      Unescaped(Escaped(text, esc, usePlus, true), replacePlus) == Unescaped(text, replacePlus)
  }

  ghost predicate MeaningCondition(esc: set<byte>, usePlus: bool, replacePlus: bool) {
    && (usePlus ==> replacePlus)
    && (replacePlus ==> PLUS !in esc)
    && EscapesNoHexDigit(esc)
  }

  /** A digit that opens the output is a digit copied from the text. */
  lemma EscapedDigit(text: seq<byte>, esc: set<byte>, usePlus: bool)
    requires Escaped(text, esc, usePlus, true) != [] && IsHexDigit(Escaped(text, esc, usePlus, true)[0])
    ensures text != [] && IsHexDigit(text[0])
    ensures Escaped(text, esc, usePlus, true) == [text[0]] + Escaped(text[1..], esc, usePlus, true)
  {
    assert EscapeByte(text, 0, esc, usePlus, true) == [text[0]];
  }

  /** A digit of the text is copied when the map spares digits. */
  lemma DigitEscaped(text: seq<byte>, esc: set<byte>, usePlus: bool)
    requires EscapesNoHexDigit(esc) && text != [] && IsHexDigit(text[0])
    ensures Escaped(text, esc, usePlus, true) == [text[0]] + Escaped(text[1..], esc, usePlus, true)
  {
    assert EscapeByte(text, 0, esc, usePlus, true) == [text[0]];
  }

  /** A kept `%XX` comes out whole. */
  lemma TripleKept(text: seq<byte>, esc: set<byte>, usePlus: bool)
    requires EscapesNoHexDigit(esc) && IsTriple(text, 0)
    ensures Escaped(text, esc, usePlus, true)
         == [PERCENT, text[1], text[2]] + Escaped(text[3..], esc, usePlus, true)
  {
    assert EscapeByte(text, 0, esc, usePlus, true) == [PERCENT];
    DigitEscaped(text[1..], esc, usePlus);
    assert text[1..][1..] == text[2..];
    DigitEscaped(text[2..], esc, usePlus);
    assert text[2..][1..] == text[3..];
    Append3([text[1]], [text[2]], Escaped(text[3..], esc, usePlus, true));
    Append3([PERCENT], [text[1]] + [text[2]], Escaped(text[3..], esc, usePlus, true));
  }

  /** A percent sign that opens no `%XX` in the text opens none in the output. */
  lemma NoNewTriple(text: seq<byte>, esc: set<byte>, usePlus: bool)
    requires text != [] && !IsTriple(text, 0)
    ensures !IsTriple([text[0]] + Escaped(text[1..], esc, usePlus, true), 0)
  {
    var rest := text[1..];
    var out := [text[0]] + Escaped(rest, esc, usePlus, true);
    if IsTriple(out, 0) {
      assert out[1] == Escaped(rest, esc, usePlus, true)[0];
      EscapedDigit(rest, esc, usePlus);
      assert out[2] == Escaped(rest[1..], esc, usePlus, true)[0];
      EscapedDigit(rest[1..], esc, usePlus);
    }
  }

  lemma {:induction false} MeaningPreserved(text: seq<byte>, esc: set<byte>, usePlus: bool, replacePlus: bool)
    requires MeaningCondition(esc, usePlus, replacePlus)
    ensures Unescaped(Escaped(text, esc, usePlus, true), replacePlus) == Unescaped(text, replacePlus)
  {
    if text != [] {
      var c := text[0];
      if IsTriple(text, 0) {
        MeaningPreserved(text[3..], esc, usePlus, replacePlus);
        TripleKept(text, esc, usePlus);
        var out := [PERCENT, text[1], text[2]] + Escaped(text[3..], esc, usePlus, true);
        assert out[3..] == Escaped(text[3..], esc, usePlus, true);
      } else {
        MeaningPreserved(text[1..], esc, usePlus, replacePlus);
        var rest := Escaped(text[1..], esc, usePlus, true);
        if usePlus && c == SPACE {
          UnescapeRaw(PLUS, rest, replacePlus);
        } else if c in esc {
          UnescapeTriple(c, rest, replacePlus);
        } else {
          NoNewTriple(text, esc, usePlus);
          UnescapeRaw(c, rest, replacePlus);
        }
      }
    }
  }

  /**
   * Escaping that keeps valid escapes leaves the binary meaning of every byte string
   * alone, stray and overlapping percent signs included, exactly when the map spares
   * the hexadecimal digits and the plus sign is treated alike by both directions.
   * Whether the map holds the percent sign does not matter.
   */
  lemma MeaningPreservedExactly(esc: set<byte>, usePlus: bool, replacePlus: bool)
    ensures PreservesMeaning(esc, usePlus, replacePlus) <==> MeaningCondition(esc, usePlus, replacePlus)
  {
    if MeaningCondition(esc, usePlus, replacePlus) {
      forall text: seq<byte>
        ensures Unescaped(Escaped(text, esc, usePlus, true), replacePlus) == Unescaped(text, replacePlus)
      {
        MeaningPreserved(text, esc, usePlus, replacePlus);
      }
    } else if usePlus && !replacePlus {
      EscapedOne(SPACE, esc, usePlus, true);
      UnescapedOne(SPACE, replacePlus);
      UnescapedOne(PLUS, replacePlus);
      assert Unescaped(Escaped([SPACE], esc, usePlus, true), replacePlus) != Unescaped([SPACE], replacePlus);
    } else if replacePlus && PLUS in esc {
      EscapedOne(PLUS, esc, usePlus, true);
      UnescapedOne(PLUS, replacePlus);
      var coded := [PERCENT, IntToHex(PLUS / 16), IntToHex(PLUS % 16)];
      UnescapeTriple(PLUS, [], replacePlus);
      assert coded + [] == coded == Escaped([PLUS], esc, usePlus, true);
      assert Unescaped(coded, replacePlus)[0] == PLUS;
      assert Unescaped(Escaped([PLUS], esc, usePlus, true), replacePlus) != Unescaped([PLUS], replacePlus);
    } else {
      var h: byte :| IsHexDigit(h) && h in esc;
      DigitInMapBreaksTriple(h, esc, usePlus, replacePlus);
    }
  }

  /** With the digit `h` in the map, `%hh` is one byte before escaping and three after. */
  lemma DigitInMapBreaksTriple(h: byte, esc: set<byte>, usePlus: bool, replacePlus: bool)
    requires IsHexDigit(h) && h in esc
    ensures Unescaped(Escaped([PERCENT, h, h], esc, usePlus, true), replacePlus)
         != Unescaped([PERCENT, h, h], replacePlus)
  {
    var text := [PERCENT, h, h];
    var coded := [PERCENT, IntToHex(h / 16), IntToHex(h % 16)];
    assert text[1..] == [h, h] && [h, h][1..] == [h];
    EscapedOne(h, esc, usePlus, true);
    assert EscapeByte([h], 0, esc, usePlus, true) == coded;
    assert EscapeByte([h, h], 0, esc, usePlus, true) == coded;
    assert EscapeByte(text, 0, esc, usePlus, true) == [PERCENT];
    UnescapeTriple(h, [], replacePlus);
    assert coded + [] == coded;
    UnescapeTriple(h, coded, replacePlus);
    UnescapeRaw(PERCENT, coded + coded, replacePlus);
    assert text[3..] == [];
  }

  /** Escaping the output again changes nothing. */
  lemma {:induction false} Idempotent(text: seq<byte>, esc: set<byte>, usePlus: bool)
    requires EscapesNoHexDigit(esc) && !(usePlus && PLUS in esc)
    ensures Escaped(Escaped(text, esc, usePlus, true), esc, usePlus, true) == Escaped(text, esc, usePlus, true)
  {
    if text != [] {
      var c := text[0];
      if IsTriple(text, 0) {
        Idempotent(text[3..], esc, usePlus);
        TripleKept(text, esc, usePlus);
        TripleFixed(text[1], text[2], Escaped(text[3..], esc, usePlus, true), esc, usePlus);
      } else {
        Idempotent(text[1..], esc, usePlus);
        var rest := Escaped(text[1..], esc, usePlus, true);
        if usePlus && c == SPACE {
          assert ([PLUS] + rest)[1..] == rest;
        } else if c in esc {
          HexPairOfByte(c);
          TripleFixed(IntToHex(c / 16), IntToHex(c % 16), rest, esc, usePlus);
        } else {
          NoNewTriple(text, esc, usePlus);
          assert ([c] + rest)[1..] == rest;
        }
      }
    }
  }

  lemma TripleFixed(hi: byte, lo: byte, rest: seq<byte>, esc: set<byte>, usePlus: bool)
    requires EscapesNoHexDigit(esc) && IsHexDigit(hi) && IsHexDigit(lo)
    requires Escaped(rest, esc, usePlus, true) == rest
    ensures Escaped([PERCENT, hi, lo] + rest, esc, usePlus, true) == [PERCENT, hi, lo] + rest
  {
    var s := [PERCENT, hi, lo] + rest;
    TripleKept(s, esc, usePlus);
    assert s[3..] == rest;
  }

  lemma {:induction false} UnescapedUnchanged(s: seq<byte>, i: nat)
    requires i <= |s|
    ensures (forall j: nat :: i <= j ==> !IsTriple(s, j)) ==> Unescaped(s[i..], false) == s[i..]
    ensures |Unescaped(s[i..], false)| <= |s| - i
    ensures (exists j: nat :: i <= j && IsTriple(s, j)) ==> |Unescaped(s[i..], false)| < |s| - i
    decreases |s| - i
  {
    if i < |s| {
      UnescapedStep(s, i, false);
      UnescapedUnchanged(s, if IsTriple(s, i) then i + 3 else i + 1);
    }
  }

  /** The two maps used in keep-escaped mode spare the digits and the plus sign. */
  lemma KeepingMapsSpareDigits()
    ensures forall m :: m == EXTERNAL_HANDLER_CHARMAP || m == NSURL_CHARMAP ==>
                          EscapesNoHexDigit(m.Members()) && PLUS !in m.Members()
  {
    forall c: byte
      ensures c in EXTERNAL_HANDLER_CHARMAP.Members()
         <==> !(IsAlphanumeric(c) || IsUnreservedMark(c) || IsExtraMark(c) || IsRestricted(c))
      ensures c in NSURL_CHARMAP.Members() <==> IsUnprintable(c) || IsUnwise(c) || IsDelimiter(c)
    {
      CharmapMeanings(c);
    }
  }

  ghost predicate HasNoTriple(text: seq<byte>) {
    forall i: nat :: !IsTriple(text, i)
  }

  /** In keep-escaped mode unescaping undoes escaping exactly for the texts without an escape. */
  lemma KeptRoundTrip(text: seq<byte>, esc: set<byte>)
    requires EscapesNoHexDigit(esc)
    ensures Unescaped(Escaped(text, esc, false, true), false) == text <==> HasNoTriple(text)
  {
    MeaningPreserved(text, esc, false, false);
    UnescapedUnchanged(text, 0);
    assert text[0..] == text;
  }

  /**
   * The external-handler and the NSURL escape: idempotent, invisible to the binary
   * unescape, and undone by it exactly for the texts without an escape.
   */
  lemma KeepingEscapes(text: seq<byte>, m: Charmap)
    requires m == EXTERNAL_HANDLER_CHARMAP || m == NSURL_CHARMAP
    ensures var once := Escaped(text, m.Members(), false, true);
            && Escaped(once, m.Members(), false, true) == once
            && Unescaped(once, false) == Unescaped(text, false)
            && Unescaped(once, true) == Unescaped(text, true)
            && (Unescaped(once, false) == text <==> HasNoTriple(text))
  {
    KeepingMapsSpareDigits();
    var esc := m.Members();
    Idempotent(text, esc, false);
    MeaningPreserved(text, esc, false, false);
    MeaningPreserved(text, esc, false, true);
    KeptRoundTrip(text, esc);
  }

  // ------------------------------------------------------------------
  // Refusing encoded bytes
  // ------------------------------------------------------------------

  ghost predicate HasEncoded(s: seq<byte>, bytes: set<byte>) {
    exists i: nat :: IsTriple(s, i) && TripleValue(s, i) in bytes
  }

  method ContainsEncodedBytes(s: seq<byte>, bytes: set<byte>) returns (found: bool)
    ensures found <==> HasEncoded(s, bytes)
  {
    var i := 0;
    while i < |s|
      invariant i <= |s|
      invariant forall j: nat :: j < i && IsTriple(s, j) ==> TripleValue(s, j) !in bytes
    {
      var ok, value := UnescapeUnsignedByteAtIndex(s, i);
      if ok {
        if value in bytes { return true; }
        assert !IsTriple(s, i + 1) && !IsTriple(s, i + 2);
        i := i + 3;
      } else {
        i := i + 1;
      }
    }
    return false;
  }

  /** Control bytes, and path separators on request. */
  ghost predicate IsIllegalEncoded(c: byte, failOnPathSeparators: bool) {
    c < 0x20 || (failOnPathSeparators && (c == SLASH || c == BACKSLASH))
  }

  method UnescapeBinaryURLComponentSafe(s: seq<byte>, failOnPathSeparators: bool)
    returns (ok: bool, unescaped: seq<byte>)
    ensures ok <==> forall i: nat :: IsTriple(s, i) ==>
                      && 0x20 <= TripleValue(s, i)
                      && (failOnPathSeparators ==> TripleValue(s, i) != '/' as int && TripleValue(s, i) != '\\' as int)
    ensures unescaped == if ok then Unescaped(s, false) else []
  {
    unescaped := [];
    var illegal: set<byte> := {};
    var c: byte := 0;
    while c < 0x20
      invariant c <= 0x20
      invariant forall b: byte :: b in illegal <==> b < c
      decreases 0x20 - c
    {
      illegal := illegal + {c};
      c := c + 1;
    }
    if failOnPathSeparators {
      illegal := illegal + {SLASH, BACKSLASH};
    }
    assert forall b: byte :: b in illegal <==> IsIllegalEncoded(b, failOnPathSeparators);
    var found := ContainsEncodedBytes(s, illegal);
    if found { return false, unescaped; }
    unescaped := UnescapeBinaryURLComponent(s, false);
    return true, unescaped;
  }

  function Occurrences(s: seq<byte>, c: byte): nat {
    if s == [] then 0 else (if s[0] == c then 1 else 0) + Occurrences(s[1..], c)
  }

  /**
   * What the safe variant lets through: an illegal byte occurs in the output exactly as
   * often as it stood unescaped in the input.
   */
  lemma {:induction false} SafeUnescapeAddsNothing(s: seq<byte>, c: byte, failOnPathSeparators: bool)
    requires IsIllegalEncoded(c, failOnPathSeparators)
    requires forall i: nat :: IsTriple(s, i) ==> !IsIllegalEncoded(TripleValue(s, i), failOnPathSeparators)
    ensures Occurrences(Unescaped(s, false), c) == Occurrences(s, c)
  {
    if s != [] {
      var n := if IsTriple(s, 0) then 3 else 1;
      var rest := s[n..];
      forall i: nat | IsTriple(rest, i)
        ensures !IsIllegalEncoded(TripleValue(rest, i), failOnPathSeparators)
      {
        assert IsTriple(s, i + n) && TripleValue(s, i + n) == TripleValue(rest, i);
      }
      SafeUnescapeAddsNothing(rest, c, failOnPathSeparators);
      UnescapedStep(s, 0, false);
      assert s[0..] == s;
      if IsTriple(s, 0) {
        assert TripleValue(s, 0) != c;
        assert ([TripleValue(s, 0)] + Unescaped(rest, false))[1..] == Unescaped(rest, false);
        assert s[1..][1..] == s[2..] && s[2..][1..] == rest;
        assert Occurrences(s[2..], c) == Occurrences(rest, c);
      } else {
        assert ([s[0]] + Unescaped(rest, false))[1..] == Unescaped(rest, false);
      }
    }
  }
}
