/**
 * Which escapes the display unescape decodes, read off the text: by the characters their
 * bytes encode, and by the flags.
 */
module UrlUnescapeRules {
  import opened Bytes
  import opened Seqs
  import opened PercentEscape
  import opened UrlUnescape

  // ------------------------------------------------------------------
  // Characters and their bytes (section 3 of RFC 3629)
  // ------------------------------------------------------------------

  predicate IsScalar(c: nat) {
    c < 0xD800 || 0xE000 <= c < 0x110000
  }

  /** The code point in groups of six bits, behind a lead byte that tells how many. */
  function Encode(c: nat): seq<byte>
    requires IsScalar(c)
  {
    var q := c / 0x40;
    var h := q / 0x40;
    if c < 0x80 then [c]
    else if c < 0x800 then [0xC0 + q, 0x80 + c % 0x40]
    else if c < 0x10000 then [0xE0 + h, 0x80 + q % 0x40, 0x80 + c % 0x40]
    else [0xF0 + h / 0x40, 0x80 + h % 0x40, 0x80 + q % 0x40, 0x80 + c % 0x40]
  }

  /** The first of `n` given bytes are the encoding. */
  ghost predicate StartsWith(e: seq<byte>, n: nat, b0: byte, b1: byte, b2: byte, b3: byte) {
    && |e| <= n && 1 <= |e| <= 4
    && e[0] == b0 && (|e| > 1 ==> e[1] == b1) && (|e| > 2 ==> e[2] == b2) && (|e| > 3 ==> e[3] == b3)
  }

  lemma EncodingIsRead(c: nat, n: nat, b0: byte, b1: byte, b2: byte, b3: byte)
    requires IsScalar(c) && StartsWith(Encode(c), n, b0, b1, b2, b3)
    ensures ReadUnicodeCharacter(n, b0, b1, b2, b3) == Valid(c, |Encode(c)|)
  {
    var q := c / 0x40;
    var h := q / 0x40;
    var l, m, k, t := c % 0x40, q % 0x40, h % 0x40, h / 0x40;
    assert c == q * 0x40 + l && q == h * 0x40 + m && h == t * 0x40 + k;
    if c < 0x80 {
    } else if c < 0x800 {
    } else if c < 0x10000 {
      assert c == h * 0x1000 + m * 0x40 + l;
    } else {
      assert c == t * 0x40000 + k * 0x1000 + m * 0x40 + l;
    }
  }

  lemma SplitOff(q: nat, l: nat)
    requires l < 0x40
    ensures (q * 0x40 + l) / 0x40 == q && (q * 0x40 + l) % 0x40 == l
  {
  }

  lemma ReadIsEncoding(n: nat, b0: byte, b1: byte, b2: byte, b3: byte)
    ensures var r := ReadUnicodeCharacter(n, b0, b1, b2, b3);
            r.Valid? ==> IsScalar(r.codePoint) && r.length == |Encode(r.codePoint)|
                         && StartsWith(Encode(r.codePoint), n, b0, b1, b2, b3)
  {
    var r := ReadUnicodeCharacter(n, b0, b1, b2, b3);
    if r.Valid? {
      var c := r.codePoint;
      if r.length == 2 {
        SplitOff(b0 - 0xC0, SixBits(b1));
      } else if r.length == 3 {
        var q := (b0 - 0xE0) * 0x40 + SixBits(b1);
        SplitOff(q, SixBits(b2));
        SplitOff(b0 - 0xE0, SixBits(b1));
        assert c == q * 0x40 + SixBits(b2);
      } else if r.length == 4 {
        var h := (b0 - 0xF0) * 0x40 + SixBits(b1);
        var q := h * 0x40 + SixBits(b2);
        SplitOff(q, SixBits(b3));
        SplitOff(h, SixBits(b2));
        SplitOff(b0 - 0xF0, SixBits(b1));
        assert c == q * 0x40 + SixBits(b3);
      }
    }
  }

  // ------------------------------------------------------------------
  // Escaped characters
  // ------------------------------------------------------------------

  /** The escapes one after the other from `i` spell these bytes. */
  ghost predicate SpellsAt(s: seq<byte>, i: nat, bytes: seq<byte>) {
    forall k: nat :: k < |bytes| ==> IsTriple(s, i + 3 * k) && TripleValue(s, i + 3 * k) == bytes[k]
  }

  lemma {:induction false} CollectsTrails(s: seq<byte>, i: nat, n: nat, m: nat)
    requires 1 <= n <= m <= MAX_UTF8_LENGTH && AreTriples(s, i, n)
    requires forall k: nat :: n <= k < m ==> IsTriple(s, i + 3 * k) && IsTrail(TripleValue(s, i + 3 * k))
    ensures Collected(s, i, n) >= m
    decreases m - n
  {
    hide TripleValue;
    if n < m {
      TriplesSnoc(s, i, n);
      CollectsTrails(s, i, n + 1, m);
    }
  }

  lemma EncodingShape(c: nat)
    requires IsScalar(c)
    ensures 1 <= |Encode(c)| <= MAX_UTF8_LENGTH
    ensures |Encode(c)| > 1 ==> IsLead(Encode(c)[0])
    ensures forall k :: 1 <= k < |Encode(c)| ==> IsTrail(Encode(c)[k])
  {
  }

  lemma SpelledIsCandidate(s: seq<byte>, i: nat, c: nat)
    requires IsScalar(c) && SpellsAt(s, i, Encode(c))
    ensures IsTriple(s, i) && CandidateLength(s, i) >= |Encode(c)|
  {
    EncodingShape(c);
    hide Encode, TripleValue, IsTriple;
    assert IsTriple(s, i + 3 * 0);
    if |Encode(c)| > 1 {
      assert AreTriples(s, i, 1);
      CollectsTrails(s, i, 1, |Encode(c)|);
    }
  }

  /** A character is read at a position exactly if the escapes there spell its encoding. */
  lemma CharacterExactly(s: seq<byte>, i: nat, c: nat, n: nat)
    ensures CharacterAt(s, i) == Valid(c, n) <==> IsScalar(c) && n == |Encode(c)| && SpellsAt(s, i, Encode(c))
  {
    hide ReadUnicodeCharacter, Encode, CandidateLength, AreTriples, TripleValue;
    if IsTriple(s, i) {
      var b0, b1, b2, b3 := BufferByte(s, i), BufferByte(s, i + 3), BufferByte(s, i + 6), BufferByte(s, i + 9);
      var m := CandidateLength(s, i);
      ReadIsEncoding(m, b0, b1, b2, b3);
      if CharacterAt(s, i) == Valid(c, n) {
        forall k: nat | k < n ensures IsTriple(s, i + 3 * k) && TripleValue(s, i + 3 * k) == Encode(c)[k] {
          TriplesAt(s, i, n, k);
        }
      }
    }
    if IsScalar(c) && SpellsAt(s, i, Encode(c)) {
      EncodingShape(c);
      SpelledIsCandidate(s, i, c);
      assert i + 3 * 1 == i + 3 && i + 3 * 2 == i + 6 && i + 3 * 3 == i + 9;
      assert forall k: nat :: k < |Encode(c)| ==> BufferByte(s, i + 3 * k) == Encode(c)[k];
      EncodingIsRead(c, CandidateLength(s, i), BufferByte(s, i), BufferByte(s, i + 3),
                     BufferByte(s, i + 6), BufferByte(s, i + 9));
    }
  }

  // ------------------------------------------------------------------
  // Positions the scan stops at
  // ------------------------------------------------------------------

  /** How far the scan moves at `i`, whatever the rules. */
  function WidthAt(s: seq<byte>, i: nat): (w: nat)
    requires i < |s|
    ensures w >= 1
  {
    match CharacterAt(s, i)
    case Valid(_, n) => 3 * n
    case Invalid => if IsTriple(s, i) then 3 else 1
  }

  /** The scan from `i` stops at `j`. */
  ghost predicate StopsAt(s: seq<byte>, i: nat, j: nat)
    decreases |s| - i
  {
    i == j || (i < |s| && StopsAt(s, i + WidthAt(s, i), j))
  }

  lemma StopsLater(s: seq<byte>, i: nat, j: nat)
    requires StopsAt(s, i, j)
    ensures i <= j
    decreases |s| - i
  {
    if i != j {
      StopsLater(s, i + WidthAt(s, i), j);
    }
  }

  lemma MarkedHere(s: seq<byte>, j: nat, g: Segment, rest: seq<Adjustment>)
    requires Fits(s, j, g) && IsTriple(s, j)
    requires forall a :: a in rest ==> a.offset >= j + g.Width()
    ensures g.Triples?
    ensures Adjustment(j, 3, 1) in SegmentMarks(j, g) + rest <==> g.decoded
  {
    if g.Triples? && g.decoded {
      assert Marks(j, g.n)[0] == Adjustment(j, 3, 1);
      assert (SegmentMarks(j, g) + rest)[0] == Adjustment(j, 3, 1);
    }
  }

  /** The marks of the rest of a text are those of its first segment and, behind them, those of the others. */
  lemma MarksUnfold(s: seq<byte>, i: nat, rules: Rules)
    requires i < |s|
    ensures var g := SegmentAt(s, i, rules);
            var next := i + g.Width();
            && WidthAt(s, i) == g.Width() && i < next <= |s|
            && var rest := MarksOf(next, CutFrom(s, next, rules));
            && MarksOf(i, CutFrom(s, i, rules)) == SegmentMarks(i, g) + rest
            && (forall a :: a in rest ==> a.offset >= next)
            && (forall a :: a in SegmentMarks(i, g) ==> a.offset + 3 <= next)
  {
    hide CutFrom, Covers, SegmentMarks, MarksOf, SegmentAt, WidthAt, MarksTriples, Fits;
    var g := SegmentAt(s, i, rules);
    SegmentAdvances(s, i, rules);
    WidthIsOfSegment(s, i, rules);
    CutUnfolds(s, i, rules);
    var next := i + g.Width();
    var rest := CutFrom(s, next, rules);
    MarksOfAreTriples(s, next, rest);
    SegmentMarksAreTriples(s, i, g);
    MarksBetween(s, next, |s|, MarksOf(next, rest));
    MarksBetween(s, i, next, SegmentMarks(i, g));
  }

  lemma WidthIsOfSegment(s: seq<byte>, i: nat, rules: Rules)
    requires i < |s|
    ensures WidthAt(s, i) == SegmentAt(s, i, rules).Width()
  {
    hide CharacterAt, ShouldUnescapeCodePoint, AreTriples, IsTriple;
  }

  lemma CutUnfolds(s: seq<byte>, i: nat, rules: Rules)
    requires i < |s|
    ensures var g := SegmentAt(s, i, rules);
            var next := i + g.Width();
            && next <= |s|
            && MarksOf(i, CutFrom(s, i, rules)) == SegmentMarks(i, g) + MarksOf(next, CutFrom(s, next, rules))
  {
    hide SegmentAt, SegmentMarks, Covers, Fits;
    SegmentAdvances(s, i, rules);
    var g := SegmentAt(s, i, rules);
    assert CutFrom(s, i, rules) == Then(g, CutFrom(s, i + g.Width(), rules));
  }

  lemma MarksBetween(s: seq<byte>, lo: nat, hi: nat, marks: seq<Adjustment>)
    requires MarksTriples(s, lo, hi, marks)
    ensures forall a :: a in marks ==> lo <= a.offset && a.offset + 3 <= hi
  {
  }

  lemma {:induction false} MarkedExactlyIfDecoded(s: seq<byte>, i: nat, j: nat, rules: Rules)
    requires i <= |s| && j < |s| && StopsAt(s, i, j) && IsTriple(s, j)
    ensures SegmentAt(s, j, rules).Triples?
    ensures Adjustment(j, 3, 1) in MarksOf(i, CutFrom(s, i, rules)) <==> SegmentAt(s, j, rules).decoded
    decreases |s| - i
  {
    hide CutFrom, Covers, SegmentMarks, MarksOf, SegmentAt, WidthAt, IsTriple;
    StopsLater(s, i, j);
    MarksUnfold(s, i, rules);
    var g := SegmentAt(s, i, rules);
    var next := i + g.Width();
    var rest := MarksOf(next, CutFrom(s, next, rules));
    if i == j {
      MarkedHere(s, j, g, rest);
    } else {
      MarkedExactlyIfDecoded(s, next, j, rules);
      StopsLater(s, next, j);
    }
  }

  // ------------------------------------------------------------------
  // The rules
  // ------------------------------------------------------------------

  /** The characters of seven bits that are decoded, by the flags. */
  ghost predicate ShownAscii(rules: Rules, c: nat) {
    || c == '"' as int || c == '-' as int || c == '<' as int || c == '>' as int || c == '_' as int || c == '~' as int
    || '0' as int <= c <= '9' as int || 'A' as int <= c <= 'Z' as int || 'a' as int <= c <= 'z' as int
    || (c == ' ' as int && rules & 0x2 != 0)
    || ((c == '/' as int || c == '\\' as int) && rules & 0x4 != 0)
    || (c > ' ' as int && c != '/' as int && c != '\\' as int && rules & 0x8 != 0)
  }

  /** The code points beyond seven bits that stay escaped, in ascending ranges. */
  ghost predicate IsBanned(c: nat) {
    || c == 0x85 || c == 0xA0 || c == 0xAD || c == 0x34F || 0x600 <= c <= 0x605 || c == 0x61C || c == 0x6DD
    || c == 0x70F || c == 0x8E2 || 0x115F <= c <= 0x1160 || c == 0x1680 || 0x17B4 <= c <= 0x17B5
    || 0x180B <= c <= 0x180E || 0x2000 <= c <= 0x200F || 0x2028 <= c <= 0x202F || 0x205F <= c <= 0x206F
    || c == 0x3000 || c == 0x3164 || 0xFE00 <= c <= 0xFE0F || c == 0xFEFF || c == 0xFFA0 || 0xFFF0 <= c <= 0xFFFB
    || c == 0x110BD || c == 0x110CD || 0x13430 <= c <= 0x13438 || 0x1BCA0 <= c <= 0x1BCA3
    || 0x1D173 <= c <= 0x1D17A || 0x1F50F <= c <= 0x1F510 || 0x1F512 <= c <= 0x1F513 || 0xE0000 <= c <= 0xE0FFF
  }

  /** What is shown decoded: by the flags up to seven bits, by the ranges beyond. */
  ghost predicate IsShown(rules: Rules, c: nat) {
    if c < 0x80 then ShownAscii(rules, c) else !IsBanned(c)
  }

  lemma RulesByTable(rules: Rules, c: nat)
    ensures ShouldUnescapeCodePoint(rules, c) <==> IsShown(rules, c)
    ensures PlusOf(rules) <==> rules & 0x10 != 0
  {
  }

  /**
   * Where the scan stops at the escapes of a character, they are marked as decoded exactly
   * if the flags and the ranges say that it is shown.
   */
  lemma MarkedExactlyIfShown(s: seq<byte>, j: nat, c: nat, rules: Rules)
    requires rules != NONE && StopsAt(s, 0, j) && IsScalar(c) && SpellsAt(s, j, Encode(c))
    ensures Adjustment(j, 3, 1) in Adjustments(s, rules) <==> IsShown(rules, c)
  {
    CharacterExactly(s, j, c, |Encode(c)|);
    EncodingShape(c);
    assert IsTriple(s, j + 3 * 0);
    MarkedExactlyIfDecoded(s, 0, j, rules);
    RulesByTable(rules, c);
    hide ShouldUnescapeCodePoint, IsShown, CharacterAt, MarksOf, CutFrom, Encode;
  }

  /** Where the scan stops at an escape that starts no character, it is marked whatever the flags. */
  lemma MarkedIfUndecodable(s: seq<byte>, j: nat, rules: Rules)
    requires rules != NONE && StopsAt(s, 0, j) && IsTriple(s, j)
    requires forall c: nat :: IsScalar(c) ==> !SpellsAt(s, j, Encode(c))
    ensures Adjustment(j, 3, 1) in Adjustments(s, rules)
  {
    MarkedExactlyIfDecoded(s, 0, j, rules);
    var r := CharacterAt(s, j);
    if r.Valid? {
      CharacterExactly(s, j, r.codePoint, r.length);
    }
    hide MarksOf, CutFrom, Encode, CharacterAt;
  }
}
