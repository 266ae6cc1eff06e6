/**
 * The unescape meant for display: it decodes `%XX` runs as UTF-8 characters, leaves
 * unsafe characters escaped, and records where the text got shorter.
 */
module UrlUnescape {
  import opened Bytes
  import opened Seqs
  import opened PercentEscape

  // ------------------------------------------------------------------
  // Rules
  // ------------------------------------------------------------------

  type Rules = bv32

  const NONE: Rules := 0
  const NORMAL: Rules := 1
  const SPACES: Rules := 2
  const PATH_SEPARATORS: Rules := 4
  const URL_SPECIAL_CHARS_EXCEPT_PATH_SEPARATORS: Rules := 8
  const REPLACE_PLUS_WITH_SPACE: Rules := 16

  predicate Has(rules: Rules, flag: Rules) {
    rules & flag != 0
  }

  /** ASCII characters that are unescaped whatever the flags. */
  predicate IsAlwaysUnescaped(c: nat) {
    || c == 0x22 || c == 0x2D || 0x30 <= c <= 0x39 || c == 0x3C || c == 0x3E
    || 0x41 <= c <= 0x5A || c == 0x5F || 0x61 <= c <= 0x7A || c == 0x7E
  }

  /** BiDi controls (section 4.1 of RFC 3987) and the isolates added since. */
  predicate IsBidiControl(c: nat) {
    || c == 0x200E || c == 0x200F || 0x202A <= c <= 0x202E || c == 0x061C || 0x2066 <= c <= 0x2069
  }

  predicate IsLockSymbol(c: nat) {
    c == 0x1F50F || c == 0x1F510 || c == 0x1F512 || c == 0x1F513
  }

  predicate IsUnicodeSpace(c: nat) {
    || c == 0x0085 || c == 0x00A0 || c == 0x1680 || 0x2000 <= c <= 0x200A
    || c == 0x2028 || c == 0x2029 || c == 0x202F || c == 0x205F || c == 0x3000
  }

  predicate IsIgnorableOrFormat(c: nat) {
    || c == 0x00AD || c == 0x034F || 0x0600 <= c <= 0x0605 || c == 0x06DD || c == 0x070F || c == 0x08E2
    || c == 0x115F || c == 0x1160 || c == 0x17B4 || c == 0x17B5 || 0x180B <= c <= 0x180E
    || 0x200B <= c <= 0x200D || 0x2060 <= c <= 0x2065 || 0x206A <= c <= 0x206F || c == 0x3164
    || 0xFFF0 <= c <= 0xFFF8 || 0xFE00 <= c <= 0xFE0F || c == 0xFEFF || c == 0xFFA0 || 0xFFF9 <= c <= 0xFFFB
    || c == 0x110BD || c == 0x110CD || 0x13430 <= c <= 0x13438 || 0x1BCA0 <= c <= 0x1BCA3
    || 0x1D173 <= c <= 0x1D17A || 0xE0000 <= c <= 0xE0FFF
  }

  predicate ShouldUnescapeCodePoint(rules: Rules, c: nat) {
    if c < 0x80 then
      || IsAlwaysUnescaped(c)
      || (c == 0x20 && Has(rules, SPACES))
      || ((c == 0x2F || c == 0x5C) && Has(rules, PATH_SEPARATORS))
      || (c > 0x20 && c != 0x2F && c != 0x5C && Has(rules, URL_SPECIAL_CHARS_EXCEPT_PATH_SEPARATORS))
    else
      !(IsBidiControl(c) || IsLockSymbol(c) || IsUnicodeSpace(c) || IsIgnorableOrFormat(c))
  }

  lemma MoreFlagsUnescapeMore(rules: Rules, more: Rules, c: nat)
    requires rules & more == rules
    requires ShouldUnescapeCodePoint(rules, c)
    ensures ShouldUnescapeCodePoint(more, c)
  {
  }

  // ------------------------------------------------------------------
  // UTF-8 (section 4 of RFC 3629)
  // ------------------------------------------------------------------

  const MAX_UTF8_LENGTH: nat := 4

  predicate IsLead(b: byte) {
    0xC2 <= b <= 0xF4
  }

  predicate IsTrail(b: byte) {
    0x80 <= b <= 0xBF
  }

  datatype Character = Invalid | Valid(codePoint: nat, length: nat)

  /** The character that the first of the `n` bytes given starts, if it is well-formed. */
  function ReadUnicodeCharacter(n: nat, b0: byte, b1: byte, b2: byte, b3: byte): (r: Character)
    ensures r.Valid? ==> 1 <= r.length <= n && r.length <= MAX_UTF8_LENGTH
  {
    if n == 0 then Invalid
    else if b0 <= 0x7F then Valid(b0, 1)
    else if 0xC2 <= b0 <= 0xDF then
      if n >= 2 && IsTrail(b1) then Valid((b0 as int - 0xC0) * 0x40 + SixBits(b1), 2) else Invalid
    else if 0xE0 <= b0 <= 0xEF then
      if n >= 3 && IsTrail(b1) && IsTrail(b2) && (b0 == 0xE0 ==> b1 >= 0xA0) && (b0 == 0xED ==> b1 <= 0x9F)
      then Valid((b0 as int - 0xE0) * 0x1000 + SixBits(b1) * 0x40 + SixBits(b2), 3)
      else Invalid
    else if 0xF0 <= b0 <= 0xF4 then
      if n >= 4 && IsTrail(b1) && IsTrail(b2) && IsTrail(b3)
         && (b0 == 0xF0 ==> b1 >= 0x90) && (b0 == 0xF4 ==> b1 <= 0x8F)
      then Valid((b0 as int - 0xF0) * 0x40000 + SixBits(b1) * 0x1000 + SixBits(b2) * 0x40 + SixBits(b3), 4)
      else Invalid
    else Invalid
  }

  lemma ReadsOnlyGiven(n: nat, b0: byte, b1: byte, b2: byte, b3: byte, c0: byte, c1: byte, c2: byte, c3: byte)
    requires (n >= 1 ==> b0 == c0) && (n >= 2 ==> b1 == c1) && (n >= 3 ==> b2 == c2) && (n >= 4 ==> b3 == c3)
    ensures ReadUnicodeCharacter(n, b0, b1, b2, b3) == ReadUnicodeCharacter(n, c0, c1, c2, c3)
  {
  }

  /** The payload of a trail byte. */
  function SixBits(b: byte): nat
    requires IsTrail(b)
  {
    b - 0x80
  }

  // ------------------------------------------------------------------
  // One escaped character
  // ------------------------------------------------------------------

  /** `n` triples stand one after the other from `i`. */
  predicate AreTriples(s: seq<byte>, i: nat, n: nat)
    decreases n
  {
    n == 0 || (IsTriple(s, i) && AreTriples(s, i + 3, n - 1))
  }

  function TripleValues(s: seq<byte>, i: nat, n: nat): (r: seq<byte>)
    requires AreTriples(s, i, n)
    ensures |r| == n
    decreases n
  {
    if n == 0 then [] else [TripleValue(s, i)] + TripleValues(s, i + 3, n - 1)
  }

  lemma {:induction false} TriplesInRange(s: seq<byte>, i: nat, n: nat)
    requires n >= 1 && AreTriples(s, i, n)
    ensures i + 3 * n <= |s|
    decreases n
  {
    if n > 1 { TriplesInRange(s, i + 3, n - 1); }
  }

  lemma {:induction false} TriplesSnoc(s: seq<byte>, i: nat, n: nat)
    requires AreTriples(s, i, n) && IsTriple(s, i + 3 * n)
    ensures AreTriples(s, i, n + 1)
    ensures TripleValues(s, i, n + 1) == TripleValues(s, i, n) + [TripleValue(s, i + 3 * n)]
    decreases n
  {
    if n > 0 { TriplesSnoc(s, i + 3, n - 1); }
  }

  lemma {:induction false} TriplesPrefix(s: seq<byte>, i: nat, n: nat, m: nat)
    requires AreTriples(s, i, n) && m <= n
    ensures AreTriples(s, i, m) && TripleValues(s, i, m) == TripleValues(s, i, n)[..m]
    decreases m
  {
    if m > 0 { TriplesPrefix(s, i + 3, n - 1, m - 1); }
  }

  lemma {:induction false} TriplesAt(s: seq<byte>, i: nat, n: nat, k: nat)
    requires AreTriples(s, i, n) && k < n
    ensures IsTriple(s, i + 3 * k) && TripleValues(s, i, n)[k] == TripleValue(s, i + 3 * k)
    decreases k
  {
    if k > 0 { TriplesAt(s, i + 3, n - 1, k - 1); }
  }

  /** How many escaped bytes are collected, `n` of them already: trail bytes up to the longest character. */
  function Collected(s: seq<byte>, i: nat, n: nat): (r: nat)
    requires 1 <= n <= MAX_UTF8_LENGTH && AreTriples(s, i, n)
    ensures n <= r <= MAX_UTF8_LENGTH && AreTriples(s, i, r)
    decreases MAX_UTF8_LENGTH - n
  {
    if n < MAX_UTF8_LENGTH && IsTriple(s, i + 3 * n) && IsTrail(TripleValue(s, i + 3 * n)) then
      TriplesSnoc(s, i, n);
      Collected(s, i, n + 1)
    else n
  }

  /** The bytes tried as one character: a lead byte takes the trail bytes behind it. */
  function CandidateLength(s: seq<byte>, i: nat): (n: nat)
    requires IsTriple(s, i)
    ensures 1 <= n <= MAX_UTF8_LENGTH && AreTriples(s, i, n)
  {
    if IsLead(TripleValue(s, i)) then Collected(s, i, 1) else 1
  }

  /** The byte escaped at `i`, or zero where the buffer was not filled. */
  function BufferByte(s: seq<byte>, i: nat): byte {
    if IsTriple(s, i) then TripleValue(s, i) else 0
  }

  function CharacterAt(s: seq<byte>, i: nat): (r: Character)
    ensures r.Valid? ==> 1 <= r.length && i + 3 * r.length <= |s| && AreTriples(s, i, r.length)
  {
    if !IsTriple(s, i) then Invalid
    else
      var n := CandidateLength(s, i);
      var r := ReadUnicodeCharacter(n, BufferByte(s, i), BufferByte(s, i + 3),
                                    BufferByte(s, i + 6), BufferByte(s, i + 9));
      assert r.Valid? ==> AreTriples(s, i, r.length) && i + 3 * r.length <= |s| by {
        if r.Valid? {
          TriplesPrefix(s, i, n, r.length);
          TriplesInRange(s, i, r.length);
        }
      }
      r
  }

  method UnescapeUTF8CharacterAtIndex(s: seq<byte>, index: nat)
    returns (ok: bool, codePoint: nat, unescaped: seq<byte>)
    ensures ok <==> CharacterAt(s, index).Valid?
    ensures ok ==> codePoint == CharacterAt(s, index).codePoint
    ensures ok ==> unescaped == TripleValues(s, index, CharacterAt(s, index).length)
  {
    hide AreTriples, ReadUnicodeCharacter, HexPair;
    codePoint, unescaped := 0, [];
    var found, value := UnescapeUnsignedByteAtIndex(s, index);
    if !found { return false, codePoint, unescaped; }
    var numBytes, bytes := CollectBytes(s, index, value);
    forall k: nat | k < numBytes ensures bytes[k] == BufferByte(s, index + 3 * k) {
      TriplesAt(s, index, numBytes, k);
      assert bytes[k] == bytes[..numBytes][k];
    }
    ReadsOnlyGiven(numBytes, bytes[0], bytes[1], bytes[2], bytes[3],
      BufferByte(s, index), BufferByte(s, index + 3), BufferByte(s, index + 6), BufferByte(s, index + 9));
    match ReadUnicodeCharacter(numBytes, bytes[0], bytes[1], bytes[2], bytes[3])
    case Invalid =>
      return false, codePoint, unescaped;
    case Valid(c, n) =>
      TriplesPrefix(s, index, numBytes, n);
      return true, c, bytes[..n];
  }

  method CollectBytes(s: seq<byte>, index: nat, first: byte) returns (numBytes: nat, bytes: array<byte>)
    requires IsTriple(s, index) && first == TripleValue(s, index)
    ensures bytes.Length == MAX_UTF8_LENGTH
    ensures numBytes == CandidateLength(s, index)
    ensures bytes[..numBytes] == TripleValues(s, index, numBytes)
  {
    hide HexPair;
    bytes := new byte[MAX_UTF8_LENGTH];
    bytes[0] := first;
    numBytes := 1;
    if IsLead(first) {
      var more := true;
      while more
        invariant 1 <= numBytes <= MAX_UTF8_LENGTH
        invariant AreTriples(s, index, numBytes) && bytes[..numBytes] == TripleValues(s, index, numBytes)
        invariant Collected(s, index, 1) == if more then Collected(s, index, numBytes) else numBytes
        decreases MAX_UTF8_LENGTH - numBytes, more
      {
        more := false;
        if numBytes < MAX_UTF8_LENGTH {
          var found, value := UnescapeUnsignedByteAtIndex(s, index + numBytes * 3);
          bytes[numBytes] := value;
          if found && IsTrail(value) {
            TriplesSnoc(s, index, numBytes);
            numBytes := numBytes + 1;
            more := true;
          }
        }
      }
    }
  }

  // ------------------------------------------------------------------
  // The whole text, cut into segments
  // ------------------------------------------------------------------

  /** What one turn of the loop consumes: a byte that is no escape, or a run of `n` triples. */
  datatype Segment = Raw | Triples(n: nat, decoded: bool) {
    function Width(): nat {
      match this
      case Raw => 1
      case Triples(n, _) => 3 * n
    }
  }

  ghost predicate Fits(s: seq<byte>, i: nat, g: Segment) {
    match g
    case Raw => i < |s| && !IsTriple(s, i)
    case Triples(n, _) => n >= 1 && i + 3 * n <= |s| && AreTriples(s, i, n)
  }

  /** A text cut into segments from left to right. */
  datatype Cut = Done | Then(head: Segment, tail: Cut)

  ghost predicate Covers(s: seq<byte>, i: nat, cut: Cut)
    decreases cut
  {
    match cut
    case Done => i == |s|
    case Then(g, tail) => Fits(s, i, g) && Covers(s, i + g.Width(), tail)
  }

  /** A safe character or a byte that starts no character is decoded; an unsafe character is kept. */
  function SegmentAt(s: seq<byte>, i: nat, rules: Rules): (g: Segment)
    requires i < |s|
    ensures Fits(s, i, g)
  {
    match CharacterAt(s, i)
    case Valid(c, n) =>
      Triples(n, ShouldUnescapeCodePoint(rules, c))
    case Invalid =>
      if IsTriple(s, i) then Triples(1, true) else Raw
  }

  /** The cut is the one the rules make. */
  ghost predicate FollowsRules(s: seq<byte>, i: nat, rules: Rules, cut: Cut)
    decreases cut
  {
    match cut
    case Done => i == |s|
    case Then(g, tail) => i < |s| && g == SegmentAt(s, i, rules) && FollowsRules(s, i + g.Width(), rules, tail)
  }

  function CutFrom(s: seq<byte>, i: nat, rules: Rules): (cut: Cut)
    requires i <= |s|
    ensures Covers(s, i, cut)
    decreases |s| - i
  {
    if i == |s| then Done
    else
      var g := SegmentAt(s, i, rules);
      Then(g, CutFrom(s, i + g.Width(), rules))
  }

  lemma SegmentAdvances(s: seq<byte>, i: nat, rules: Rules)
    requires i < |s|
    ensures i < i + SegmentAt(s, i, rules).Width() <= |s|
  {
    hide SegmentAt, AreTriples, IsTriple;
  }

  lemma {:induction false} CutFollowsRules(s: seq<byte>, i: nat, rules: Rules)
    requires i <= |s|
    ensures FollowsRules(s, i, rules, CutFrom(s, i, rules))
    decreases |s| - i
  {
    hide SegmentAt, Fits, Covers;
    if i < |s| {
      var g := SegmentAt(s, i, rules);
      SegmentAdvances(s, i, rules);
      CutFollowsRules(s, i + g.Width(), rules);
      assert CutFrom(s, i, rules) == Then(g, CutFrom(s, i + g.Width(), rules));
    }
  }

  /** `originalLength` bytes at `offset` of the input became `outputLength`. */
  datatype Adjustment = Adjustment(offset: nat, originalLength: nat, outputLength: nat)

  function Marks(i: nat, n: nat): (r: seq<Adjustment>)
    ensures |r| == n
    decreases n
  {
    if n == 0 then [] else [Adjustment(i, 3, 1)] + Marks(i + 3, n - 1)
  }

  lemma {:induction false} MarksSnoc(i: nat, n: nat)
    ensures Marks(i, n + 1) == Marks(i, n) + [Adjustment(i + 3 * n, 3, 1)]
    decreases n
  {
    if n > 0 { MarksSnoc(i + 3, n - 1); }
  }

  function SegmentOutput(s: seq<byte>, i: nat, g: Segment, replacePlus: bool): seq<byte>
    requires Fits(s, i, g)
  {
    match g
    case Raw => [ReplacePlus(s[i], replacePlus)]
    case Triples(n, decoded) => if decoded then TripleValues(s, i, n) else s[i..i + 3 * n]
  }

  function SegmentMarks(i: nat, g: Segment): seq<Adjustment> {
    if g.Triples? && g.decoded then Marks(i, g.n) else []
  }

  function OutputOf(s: seq<byte>, i: nat, cut: Cut, replacePlus: bool): seq<byte>
    requires Covers(s, i, cut)
    decreases cut
  {
    match cut
    case Done => []
    case Then(g, tail) => SegmentOutput(s, i, g, replacePlus) + OutputOf(s, i + g.Width(), tail, replacePlus)
  }

  function MarksOf(i: nat, cut: Cut): seq<Adjustment>
    decreases cut
  {
    match cut
    case Done => []
    case Then(g, tail) => SegmentMarks(i, g) + MarksOf(i + g.Width(), tail)
  }

  function PlusOf(rules: Rules): bool {
    Has(rules, REPLACE_PLUS_WITH_SPACE)
  }

  function Output(s: seq<byte>, rules: Rules): seq<byte> {
    if rules == NONE then s else OutputOf(s, 0, CutFrom(s, 0, rules), PlusOf(rules))
  }

  function Adjustments(s: seq<byte>, rules: Rules): seq<Adjustment> {
    if rules == NONE then [] else MarksOf(0, CutFrom(s, 0, rules))
  }

  /** What the loop has written. */
  datatype Written = Written(out: seq<byte>, marks: seq<Adjustment>)

  function Write(s: seq<byte>, i: nat, g: Segment, replacePlus: bool, w: Written): Written
    requires Fits(s, i, g)
  {
    Written(w.out + SegmentOutput(s, i, g, replacePlus), w.marks + SegmentMarks(i, g))
  }

  method UnescapeSegment(s: seq<byte>, i: nat, rules: Rules)
    returns (step: seq<byte>, marks: seq<Adjustment>, next: nat)
    requires i < |s|
    ensures step == SegmentOutput(s, i, SegmentAt(s, i, rules), PlusOf(rules))
    ensures marks == SegmentMarks(i, SegmentAt(s, i, rules))
    ensures next == i + SegmentAt(s, i, rules).Width()
  {
    var ok, codePoint, unescaped := UnescapeUTF8CharacterAtIndex(s, i);
    if !ok {
      var found, nonUtf8Byte := UnescapeUnsignedByteAtIndex(s, i);
      if found {
        assert Marks(i, 1) == [Adjustment(i, 3, 1)];
        assert TripleValues(s, i, 1) == [nonUtf8Byte];
        return [nonUtf8Byte], [Adjustment(i, 3, 1)], i + 3;
      }
      if s[i] == PLUS && Has(rules, REPLACE_PLUS_WITH_SPACE) {
        return [SPACE], [], i + 1;
      }
      return [s[i]], [], i + 1;
    }
    if !ShouldUnescapeCodePoint(rules, codePoint) {
      return s[i..i + 3 * |unescaped|], [], i + 3 * |unescaped|;
    }
    marks := MarkTriples(i, |unescaped|);
    return unescaped, marks, i + 3 * |unescaped|;
  }

  method MarkTriples(i: nat, n: nat) returns (marks: seq<Adjustment>)
    ensures marks == Marks(i, n)
  {
    marks := [];
    for j := 0 to n
      invariant marks == Marks(i, j)
    {
      MarksSnoc(i, j);
      marks := marks + [Adjustment(i + j * 3, 3, 1)];
    }
  }

  /** Consuming the rest of the text takes what is written to `target`. */
  ghost predicate WritesTo(s: seq<byte>, i: nat, cut: Cut, replacePlus: bool, w: Written, target: Written)
    requires Covers(s, i, cut)
    decreases cut
  {
    match cut
    case Done => w == target
    case Then(g, tail) => WritesTo(s, i + g.Width(), tail, replacePlus, Write(s, i, g, replacePlus, w), target)
  }

  lemma {:induction false} WritesAppended(s: seq<byte>, i: nat, cut: Cut, replacePlus: bool,
                                          w: Written, target: Written)
    requires Covers(s, i, cut)
    requires target.out == w.out + OutputOf(s, i, cut, replacePlus)
    requires target.marks == w.marks + MarksOf(i, cut)
    ensures WritesTo(s, i, cut, replacePlus, w, target)
    decreases cut
  {
    hide Fits, SegmentOutput, SegmentMarks;
    match cut
    case Done =>
    case Then(g, tail) =>
      Append3(w.out, SegmentOutput(s, i, g, replacePlus), OutputOf(s, i + g.Width(), tail, replacePlus));
      Append3(w.marks, SegmentMarks(i, g), MarksOf(i + g.Width(), tail));
      WritesAppended(s, i + g.Width(), tail, replacePlus, Write(s, i, g, replacePlus, w), target);
  }

  /** One turn of the loop: writes to the output and the adjustments and moves on. */
  method UnescapeTurn(s: seq<byte>, i: nat, rules: Rules, w: Written, ghost tail: Cut, ghost target: Written)
    returns (w': Written, next: nat)
    requires i < |s| && Covers(s, i + SegmentAt(s, i, rules).Width(), tail)
    requires WritesTo(s, i, Then(SegmentAt(s, i, rules), tail), PlusOf(rules), w, target)
    ensures next == i + SegmentAt(s, i, rules).Width()
    ensures WritesTo(s, next, tail, PlusOf(rules), w', target)
  {
    hide SegmentAt, AreTriples, SegmentOutput, SegmentMarks;
    var step, marks;
    step, marks, next := UnescapeSegment(s, i, rules);
    w' := Written(w.out + step, w.marks + marks);
    assert w' == Write(s, i, SegmentAt(s, i, rules), PlusOf(rules), w);
  }

  method UnescapeURLWithAdjustments(s: seq<byte>, rules: Rules)
    returns (result: seq<byte>, adjustments: seq<Adjustment>)
    ensures result == Output(s, rules)
    ensures adjustments == Adjustments(s, rules)
  {
    if rules == NONE { return s, []; }
    ghost var cut := CutFrom(s, 0, rules);
    ghost var target := Written(OutputOf(s, 0, cut, PlusOf(rules)), MarksOf(0, cut));
    PrependNothing(target.out);
    PrependNothing(target.marks);
    CutFollowsRules(s, 0, rules);
    WritesAppended(s, 0, cut, PlusOf(rules), Written([], []), target);
    var w := UnescapeLoop(s, rules, cut, target);
    return w.out, w.marks;
  }

  method UnescapeLoop(s: seq<byte>, rules: Rules, ghost whole: Cut, ghost target: Written) returns (w: Written)
    requires Covers(s, 0, whole) && FollowsRules(s, 0, rules, whole)
    requires WritesTo(s, 0, whole, PlusOf(rules), Written([], []), target)
    ensures w == target
  {
    hide SegmentAt, AreTriples, Write, Fits;
    w := Written([], []);
    var i := 0;
    ghost var cut := whole;
    while i < |s|
      invariant i <= |s| && Covers(s, i, cut) && FollowsRules(s, i, rules, cut)
      invariant WritesTo(s, i, cut, PlusOf(rules), w, target)
    {
      SegmentAdvances(s, i, rules);
      w, i := UnescapeTurn(s, i, rules, w, cut.tail, target);
      cut := cut.tail;
    }
  }

  // ------------------------------------------------------------------
  // What the adjustments promise
  // ------------------------------------------------------------------

  /** Triples of the input between `from` and `to`, in order and at least three apart. */
  ghost predicate MarksTriples(s: seq<byte>, from: nat, to: nat, a: seq<Adjustment>) {
    && (forall k :: 0 <= k < |a| ==> from <= a[k].offset && a[k].offset + 3 <= to && IsTriple(s, a[k].offset))
    && (forall k :: 0 <= k < |a| ==> a[k].originalLength == 3 && a[k].outputLength == 1)
    && (forall j, k :: 0 <= j < k < |a| ==> a[j].offset + 3 <= a[k].offset)
  }

  /**
   * The reader of the adjustments: copies the input, except that a marked triple becomes
   * its byte and, on request, a plus sign becomes a space.
   */
  function Rebuild(s: seq<byte>, i: nat, a: seq<Adjustment>, replacePlus: bool): seq<byte>
    requires i <= |s|
    decreases |s| - i
  {
    if i == |s| then []
    else if a != [] && a[0].offset == i && IsTriple(s, i)
    then [TripleValue(s, i)] + Rebuild(s, i + 3, a[1..], replacePlus)
    else [ReplacePlus(s[i], replacePlus)] + Rebuild(s, i + 1, a, replacePlus)
  }

  lemma MarksTriplesJoin(s: seq<byte>, from: nat, mid: nat, to: nat, a: seq<Adjustment>, b: seq<Adjustment>)
    requires from <= mid <= to && MarksTriples(s, from, mid, a) && MarksTriples(s, mid, to, b)
    ensures MarksTriples(s, from, to, a + b)
  {
  }

  lemma {:induction false} MarksAreTriples(s: seq<byte>, i: nat, n: nat)
    requires AreTriples(s, i, n)
    ensures MarksTriples(s, i, i + 3 * n, Marks(i, n))
    decreases n
  {
    if n > 0 {
      MarksAreTriples(s, i + 3, n - 1);
      assert MarksTriples(s, i, i + 3, [Adjustment(i, 3, 1)]);
      MarksTriplesJoin(s, i, i + 3, i + 3 * n, [Adjustment(i, 3, 1)], Marks(i + 3, n - 1));
    }
  }

  lemma SegmentMarksAreTriples(s: seq<byte>, i: nat, g: Segment)
    requires Fits(s, i, g)
    ensures MarksTriples(s, i, i + g.Width(), SegmentMarks(i, g))
  {
    if g.Triples? {
      MarksAreTriples(s, i, g.n);
    }
  }

  lemma {:induction false} MarksOfAreTriples(s: seq<byte>, i: nat, cut: Cut)
    requires Covers(s, i, cut)
    ensures i <= |s| && MarksTriples(s, i, |s|, MarksOf(i, cut))
    decreases cut
  {
    match cut
    case Done =>
    case Then(g, tail) =>
      hide MarksTriples, SegmentMarks, Fits;
      MarksOfAreTriples(s, i + g.Width(), tail);
      SegmentMarksAreTriples(s, i, g);
      MarksTriplesJoin(s, i, i + g.Width(), |s|, SegmentMarks(i, g), MarksOf(i + g.Width(), tail));
  }

  lemma {:induction false} OutputLength(s: seq<byte>, i: nat, cut: Cut, replacePlus: bool)
    requires Covers(s, i, cut)
    ensures |OutputOf(s, i, cut, replacePlus)| + 2 * |MarksOf(i, cut)| == |s| - i
    decreases cut
  {
    match cut
    case Done =>
    case Then(g, tail) =>
      OutputLength(s, i + g.Width(), tail, replacePlus);
  }

  /** Marked triples are rebuilt one by one. */
  lemma {:induction false} RebuildMarked(s: seq<byte>, i: nat, n: nat, rest: seq<Adjustment>, replacePlus: bool)
    requires AreTriples(s, i, n) && i + 3 * n <= |s|
    ensures Rebuild(s, i, Marks(i, n) + rest, replacePlus)
         == TripleValues(s, i, n) + Rebuild(s, i + 3 * n, rest, replacePlus)
    decreases n
  {
    if n == 0 {
      assert Marks(i, n) + rest == rest;
    } else {
      RebuildMarked(s, i + 3, n - 1, rest, replacePlus);
      Append3([Adjustment(i, 3, 1)], Marks(i + 3, n - 1), rest);
      TailOfCons(Adjustment(i, 3, 1), Marks(i + 3, n - 1) + rest);
      Append3([TripleValue(s, i)], TripleValues(s, i + 3, n - 1), Rebuild(s, i + 3 * n, rest, replacePlus));
    }
  }

  /** Unmarked triples are copied byte by byte. */
  lemma {:induction false} RebuildCopied(s: seq<byte>, i: nat, n: nat, rest: seq<Adjustment>, replacePlus: bool)
    requires AreTriples(s, i, n) && i + 3 * n <= |s|
    requires rest == [] || i + 3 * n <= rest[0].offset
    ensures Rebuild(s, i, rest, replacePlus)
         == s[i..i + 3 * n] + Rebuild(s, i + 3 * n, rest, replacePlus)
    decreases n
  {
    if n > 0 {
      RebuildCopied(s, i + 3, n - 1, rest, replacePlus);
      CopyThree(s, i, rest, replacePlus);
      assert s[i..i + 3 * n] == s[i..i + 3] + s[i + 3..i + 3 * n];
    }
  }

  lemma CopyThree(s: seq<byte>, i: nat, rest: seq<Adjustment>, replacePlus: bool)
    requires IsTriple(s, i)
    requires rest == [] || i + 3 <= rest[0].offset
    ensures Rebuild(s, i, rest, replacePlus) == s[i..i + 3] + Rebuild(s, i + 3, rest, replacePlus)
  {
    hide TripleValue;
    assert Rebuild(s, i + 2, rest, replacePlus) == [s[i + 2]] + Rebuild(s, i + 3, rest, replacePlus);
    assert Rebuild(s, i + 1, rest, replacePlus) == [s[i + 1]] + Rebuild(s, i + 2, rest, replacePlus);
  }

  lemma MarksStartLater(s: seq<byte>, i: nat, cut: Cut)
    requires Covers(s, i, cut)
    ensures i <= |s| && (MarksOf(i, cut) == [] || i <= MarksOf(i, cut)[0].offset)
  {
    MarksOfAreTriples(s, i, cut);
  }

  lemma {:induction false} RebuildGivesOutput(s: seq<byte>, i: nat, cut: Cut, replacePlus: bool)
    requires i <= |s| && Covers(s, i, cut)
    ensures Rebuild(s, i, MarksOf(i, cut), replacePlus) == OutputOf(s, i, cut, replacePlus)
    decreases cut
  {
    hide IsTriple, AreTriples, SegmentOutput, SegmentMarks, MarksTriples;
    match cut
    case Done =>
    case Then(g, tail) =>
      hide Rebuild;
      MarksStartLater(s, i + g.Width(), tail);
      RebuildGivesOutput(s, i + g.Width(), tail, replacePlus);
      RebuildSegment(s, i, g, MarksOf(i + g.Width(), tail), replacePlus);
  }

  lemma RebuildSegment(s: seq<byte>, i: nat, g: Segment, rest: seq<Adjustment>, replacePlus: bool)
    requires Fits(s, i, g) && i + g.Width() <= |s|
    requires rest == [] || i + g.Width() <= rest[0].offset
    ensures Rebuild(s, i, SegmentMarks(i, g) + rest, replacePlus)
         == SegmentOutput(s, i, g, replacePlus) + Rebuild(s, i + g.Width(), rest, replacePlus)
  {
    if g.Triples? && g.decoded {
      RebuildMarked(s, i, g.n, rest, replacePlus);
    } else if g.Triples? {
      PrependNothing(rest);
      RebuildCopied(s, i, g.n, rest, replacePlus);
    } else {
      PrependNothing(rest);
    }
  }

  lemma {:induction false} RebuildNothing(s: seq<byte>, i: nat)
    requires i <= |s|
    ensures Rebuild(s, i, [], false) == s[i..]
    decreases |s| - i
  {
    if i < |s| {
      RebuildNothing(s, i + 1);
    }
  }

  /**
   * For every input and every rule set the adjustments are valid triples of the input, in
   * increasing order and at least three apart; each shortens the text by two; and replaying
   * them over the input gives the output.
   */
  lemma AdjustmentsDescribeOutput(s: seq<byte>, rules: Rules)
    ensures MarksTriples(s, 0, |s|, Adjustments(s, rules))
    ensures |Output(s, rules)| == |s| - 2 * |Adjustments(s, rules)|
    ensures Rebuild(s, 0, Adjustments(s, rules), PlusOf(rules)) == Output(s, rules)
  {
    if rules == NONE {
      RebuildNothing(s, 0);
    } else {
      var cut := CutFrom(s, 0, rules);
      MarksOfAreTriples(s, 0, cut);
      OutputLength(s, 0, cut, PlusOf(rules));
      RebuildGivesOutput(s, 0, cut, PlusOf(rules));
    }
  }

  // ------------------------------------------------------------------
  // More flags, more unescaping
  // ------------------------------------------------------------------

  lemma {:induction false} MarksMonotone(s: seq<byte>, i: nat, rules: Rules, more: Rules, a: Adjustment)
    requires i <= |s| && rules & more == rules
    requires a in MarksOf(i, CutFrom(s, i, rules))
    ensures a in MarksOf(i, CutFrom(s, i, more))
    decreases |s| - i
  {
    hide SegmentAt, SegmentMarks, AreTriples;
    var g, h := SegmentAt(s, i, rules), SegmentAt(s, i, more);
    SegmentMonotone(s, i, rules, more);
    var next := i + g.Width();
    assert MarksOf(i, CutFrom(s, i, rules)) == SegmentMarks(i, g) + MarksOf(next, CutFrom(s, next, rules));
    assert MarksOf(i, CutFrom(s, i, more)) == SegmentMarks(i, h) + MarksOf(next, CutFrom(s, next, more));
    if a !in SegmentMarks(i, g) {
      MarksMonotone(s, next, rules, more, a);
    }
  }

  lemma SegmentMonotone(s: seq<byte>, i: nat, rules: Rules, more: Rules)
    requires i < |s| && rules & more == rules
    ensures SegmentAt(s, i, rules).Width() == SegmentAt(s, i, more).Width()
    ensures forall a :: a in SegmentMarks(i, SegmentAt(s, i, rules)) ==> a in SegmentMarks(i, SegmentAt(s, i, more))
  {
    hide CharacterAt, ShouldUnescapeCodePoint;
    if CharacterAt(s, i).Valid? && ShouldUnescapeCodePoint(rules, CharacterAt(s, i).codePoint) {
      MoreFlagsUnescapeMore(rules, more, CharacterAt(s, i).codePoint);
    }
  }

  /** Setting more flags never leaves escaped what fewer flags unescaped. */
  lemma MoreFlagsMarkMore(s: seq<byte>, rules: Rules, more: Rules)
    requires rules & more == rules
    ensures forall a :: a in Adjustments(s, rules) ==> a in Adjustments(s, more)
  {
    forall a | a in Adjustments(s, rules) ensures a in Adjustments(s, more) {
      MarksMonotone(s, 0, rules, more, a);
    }
  }

  // ------------------------------------------------------------------
  // Against the binary unescape
  // ------------------------------------------------------------------

  ghost predicate AllTriplesMarked(s: seq<byte>, from: nat, marks: seq<Adjustment>) {
    forall j: nat :: from <= j && IsTriple(s, j) ==> Adjustment(j, 3, 1) in marks
  }

  ghost predicate AllDecoded(cut: Cut) {
    match cut
    case Done => true
    case Then(g, tail) => (g.Triples? ==> g.decoded) && AllDecoded(tail)
  }

  /** Triples do not overlap, so a run of triples holds no others. */
  lemma {:induction false} MarksComplete(s: seq<byte>, i: nat, n: nat, j: nat)
    requires AreTriples(s, i, n) && i <= j < i + 3 * n && IsTriple(s, j)
    ensures Adjustment(j, 3, 1) in Marks(i, n)
    decreases n
  {
    if j >= i + 3 {
      MarksComplete(s, i + 3, n - 1, j);
    }
  }

  lemma {:induction false} DecodedMeansMarked(s: seq<byte>, i: nat, cut: Cut, j: nat)
    requires Covers(s, i, cut) && AllDecoded(cut) && i <= j && IsTriple(s, j)
    ensures Adjustment(j, 3, 1) in MarksOf(i, cut)
    decreases cut
  {
    if cut.Then? {
      var g := cut.head;
      if j >= i + g.Width() {
        DecodedMeansMarked(s, i + g.Width(), cut.tail, j);
      } else if g.Triples? {
        MarksComplete(s, i, g.n, j);
      }
    }
  }

  lemma {:induction false} MarkedMeansDecoded(s: seq<byte>, i: nat, cut: Cut)
    requires Covers(s, i, cut) && AllTriplesMarked(s, i, MarksOf(i, cut))
    ensures AllDecoded(cut)
    decreases cut
  {
    if cut.Then? {
      var g, next := cut.head, i + cut.head.Width();
      MarksOfAreTriples(s, next, cut.tail);
      if g.Triples? {
        assert IsTriple(s, i);
        MarksAreTriples(s, i, g.n);
      }
      MarkedMeansDecoded(s, next, cut.tail);
    }
  }

  /** A run of triples is unescaped byte by byte by the binary unescape. */
  lemma {:induction false} UnescapedRun(s: seq<byte>, i: nat, n: nat, replacePlus: bool)
    requires AreTriples(s, i, n) && i + 3 * n <= |s|
    ensures Unescaped(s[i..], replacePlus) == TripleValues(s, i, n) + Unescaped(s[i + 3 * n..], replacePlus)
    decreases n
  {
    if n > 0 {
      UnescapedRun(s, i + 3, n - 1, replacePlus);
      UnescapedStep(s, i, replacePlus);
      Append3([TripleValue(s, i)], TripleValues(s, i + 3, n - 1), Unescaped(s[i + 3 * n..], replacePlus));
    }
  }

  /** What the binary unescape makes of a segment. */
  ghost function BinaryOutput(s: seq<byte>, i: nat, g: Segment, replacePlus: bool): seq<byte>
    requires Fits(s, i, g)
  {
    if g.Raw? then [ReplacePlus(s[i], replacePlus)] else TripleValues(s, i, g.n)
  }

  lemma UnescapedSegment(s: seq<byte>, i: nat, g: Segment, replacePlus: bool)
    requires Fits(s, i, g)
    ensures Unescaped(s[i..], replacePlus)
         == BinaryOutput(s, i, g, replacePlus) + Unescaped(s[i + g.Width()..], replacePlus)
  {
    if g.Triples? {
      UnescapedRun(s, i, g.n, replacePlus);
    } else {
      UnescapedStep(s, i, replacePlus);
    }
  }

  lemma {:induction false} VersusBinary(s: seq<byte>, i: nat, cut: Cut, replacePlus: bool)
    requires i <= |s| && Covers(s, i, cut)
    ensures AllDecoded(cut) ==> OutputOf(s, i, cut, replacePlus) == Unescaped(s[i..], replacePlus)
    ensures |OutputOf(s, i, cut, replacePlus)| >= |Unescaped(s[i..], replacePlus)|
    ensures !AllDecoded(cut) ==> |OutputOf(s, i, cut, replacePlus)| > |Unescaped(s[i..], replacePlus)|
    decreases cut
  {
    match cut
    case Done =>
    case Then(g, tail) =>
      hide Unescaped, TripleValues, AreTriples;
      VersusBinary(s, i + g.Width(), tail, replacePlus);
      UnescapedSegment(s, i, g, replacePlus);
  }

  /**
   * The output is the binary unescape of the input exactly when no valid triple of the
   * input was left escaped.
   */
  lemma BinaryExactlyWhenAllMarked(s: seq<byte>, rules: Rules)
    ensures Output(s, rules) == Unescaped(s, PlusOf(rules)) <==> AllTriplesMarked(s, 0, Adjustments(s, rules))
  {
    assert s[0..] == s;
    if rules == NONE {
      UnescapedUnchanged(s, 0);
    } else {
      var cut := CutFrom(s, 0, rules);
      VersusBinary(s, 0, cut, PlusOf(rules));
      if AllDecoded(cut) {
        forall j: nat | IsTriple(s, j) ensures Adjustment(j, 3, 1) in MarksOf(0, cut) {
          DecodedMeansMarked(s, 0, cut, j);
        }
      } else if AllTriplesMarked(s, 0, MarksOf(0, cut)) {
        MarkedMeansDecoded(s, 0, cut);
      }
    }
  }
}
