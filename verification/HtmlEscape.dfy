/**
 * HTML escaping: a per-character printer, and an unescape that rewrites its text in
 * place while it scans.
 */
module HtmlEscape {
  import opened Seqs

  /** A UTF-16 code unit. */
  type unit = c: int | 0 <= c < 0x10000

  const AMPERSAND: unit := 0x26
  const LESS: unit := 0x3C
  const GREATER: unit := 0x3E
  const QUOTE: unit := 0x22
  const APOSTROPHE: unit := 0x27

  /** `&lt;`, `&gt;`, `&amp;`, `&quot;` and `&#39;` */
  const CODES: seq<seq<unit>> := [
    [0x26, 0x6C, 0x74, 0x3B],
    [0x26, 0x67, 0x74, 0x3B],
    [0x26, 0x61, 0x6D, 0x70, 0x3B],
    [0x26, 0x71, 0x75, 0x6F, 0x74, 0x3B],
    [0x26, 0x23, 0x33, 0x39, 0x3B]]

  /** What each code stands for, in the same order. */
  const KEYS: seq<unit> := [LESS, GREATER, AMPERSAND, QUOTE, APOSTROPHE]

  const COUNT: nat := 5

  predicate IsSpecial(c: unit) {
    c == LESS || c == GREATER || c == AMPERSAND || c == QUOTE || c == APOSTROPHE
  }

  // ------------------------------------------------------------------
  // Escaping
  // ------------------------------------------------------------------

  /** The position of `c` among the keys, or `COUNT`. */
  function KeyIndex(c: unit): (k: nat)
    ensures k <= COUNT && (k < COUNT <==> IsSpecial(c)) && (k < COUNT ==> KEYS[k] == c)
  {
    if c == LESS then 0 else if c == GREATER then 1 else if c == AMPERSAND then 2
    else if c == QUOTE then 3 else if c == APOSTROPHE then 4 else COUNT
  }

  function EscapedChar(c: unit): seq<unit> {
    if KeyIndex(c) < COUNT then CODES[KeyIndex(c)] else [c]
  }

  function Escaped(s: seq<unit>): seq<unit> {
    if s == [] then [] else EscapedChar(s[0]) + Escaped(s[1..])
  }

  function Units(s: string): seq<unit>
    requires forall i :: 0 <= i < |s| ==> s[i] as int < 0x80
  {
    seq(|s|, i requires 0 <= i < |s| => s[i] as int)
  }

  /** The five entities, and that nothing else is escaped. */
  lemma EntityTable(c: unit)
    ensures EscapedChar('<' as int) == Units("&lt;")
    ensures EscapedChar('>' as int) == Units("&gt;")
    ensures EscapedChar('&' as int) == Units("&amp;")
    ensures EscapedChar('"' as int) == Units("&quot;")
    ensures EscapedChar('\'' as int) == Units("&#39;")
    ensures EscapedChar(c) != [c] ==> c in Units("<>&\"'")
  {
    assert Units("<>&\"'") == [LESS, GREATER, AMPERSAND, QUOTE, APOSTROPHE];
  }

  method AppendEscapedChar(c: unit, output: seq<unit>) returns (r: seq<unit>)
    ensures r == output + EscapedChar(c)
  {
    for k := 0 to COUNT
      invariant forall j :: 0 <= j < k ==> KEYS[j] != c
    {
      if c == KEYS[k] {
        assert KeyIndex(c) == k;
        return output + CODES[k];
      }
    }
    assert forall j :: 0 <= j < COUNT ==> KEYS[j] != c;
    return output + [c];
  }

  method EscapeForHTML(s: seq<unit>) returns (r: seq<unit>)
    ensures r == Escaped(s)
  {
    r := [];
    var i := 0;
    assert s[0..] == s;
    while i < |s|
      invariant i <= |s|
      invariant r + Escaped(s[i..]) == Escaped(s)
    {
      Append3(r, EscapedChar(s[i]), Escaped(s[i + 1..]));
      assert s[i..][1..] == s[i + 1..];
      r := AppendEscapedChar(s[i], r);
      i := i + 1;
    }
  }

  // ------------------------------------------------------------------
  // Unescaping
  // ------------------------------------------------------------------

  predicate MatchesAt(text: seq<unit>, i: nat, code: seq<unit>) {
    i + |code| <= |text| && text[i..i + |code|] == code
  }

  /** The first code, from the `k`-th on, that stands at `i`, or `COUNT`. */
  function CodeFrom(text: seq<unit>, i: nat, k: nat): (r: nat)
    requires k <= COUNT
    ensures k <= r <= COUNT
    ensures r < COUNT ==> MatchesAt(text, i, CODES[r])
    ensures forall j :: k <= j < r ==> !MatchesAt(text, i, CODES[j])
    decreases COUNT - k
  {
    if k == COUNT then COUNT
    else if MatchesAt(text, i, CODES[k]) then k
    else CodeFrom(text, i, k + 1)
  }

  function CodeAt(text: seq<unit>, i: nat): (r: nat)
    ensures r <= COUNT
    ensures r < COUNT ==> MatchesAt(text, i, CODES[r])
    ensures r == COUNT ==> forall j :: 0 <= j < COUNT ==> !MatchesAt(text, i, CODES[j])
  {
    CodeFrom(text, i, 0)
  }

  /** One left-to-right decoding pass. */
  function Decoded(s: seq<unit>): seq<unit> {
    if s == [] then []
    else
      var k := CodeAt(s, 0);
      if k < COUNT then [KEYS[k]] + Decoded(s[|CODES[k]|..])
      else [s[0]] + Decoded(s[1..])
  }

  /** Nothing but an ampersand opens a code. */
  lemma CodeOpensWithAmpersand(text: seq<unit>, i: nat)
    ensures CodeAt(text, i) < COUNT ==> i < |text| && text[i] == AMPERSAND
  {
    var k := CodeAt(text, i);
    if k < COUNT {
      assert text[i..i + |CODES[k]|][0] == CODES[k][0];
    }
  }

  lemma CodeAtSuffix(text: seq<unit>, i: nat)
    requires i <= |text|
    ensures CodeAt(text[i..], 0) == CodeAt(text, i)
  {
    forall j | 0 <= j < COUNT ensures MatchesAt(text[i..], 0, CODES[j]) == MatchesAt(text, i, CODES[j]) {
      if i + |CODES[j]| <= |text| {
        assert text[i..][0..|CODES[j]|] == text[i..i + |CODES[j]|];
      }
    }
  }

  lemma DecodedStep(text: seq<unit>, i: nat)
    requires i < |text|
    ensures var k := CodeAt(text, i);
            Decoded(text[i..]) ==
            if k < COUNT then [KEYS[k]] + Decoded(text[i + |CODES[k]|..])
            else [text[i]] + Decoded(text[i + 1..])
  {
    var k := CodeAt(text, i);
    CodeAtSuffix(text, i);
    if k < COUNT {
      assert text[i..][|CODES[k]|..] == text[i + |CODES[k]|..];
    } else {
      assert text[i..][1..] == text[i + 1..];
    }
  }

  lemma {:induction false} NothingToDecode(s: seq<unit>)
    requires AMPERSAND !in s
    ensures Decoded(s) == s
  {
    if s != [] {
      CodeOpensWithAmpersand(s, 0);
      NothingToDecode(s[1..]);
    }
  }

  /** The text before the cursor is final; what follows is still to be decoded. */
  ghost predicate DecodesTo(text: seq<unit>, i: nat, target: seq<unit>) {
    i <= |text| && text[..i] + Decoded(text[i..]) == target
  }

  /** Rewriting a code in front of the cursor and stepping over the result is one step of the pass. */
  lemma RewriteStep(text: seq<unit>, i: nat, target: seq<unit>)
    requires DecodesTo(text, i, target) && i < |text| && CodeAt(text, i) < COUNT
    ensures var k := CodeAt(text, i);
            DecodesTo(text[..i] + [KEYS[k]] + text[i + |CODES[k]|..], i + 1, target)
  {
    var k := CodeAt(text, i);
    hide CodeAt, Decoded;
    var rest := text[i + |CODES[k]|..];
    var text' := text[..i] + [KEYS[k]] + rest;
    DecodedStep(text, i);
    assert text'[..i + 1] == text[..i] + [KEYS[k]] && text'[i + 1..] == rest;
    Append3(text[..i], [KEYS[k]], Decoded(rest));
  }

  lemma SkipStep(text: seq<unit>, i: nat, target: seq<unit>)
    requires DecodesTo(text, i, target) && i < |text| && CodeAt(text, i) == COUNT
    ensures DecodesTo(text, i + 1, target)
  {
    DecodedStep(text, i);
    assert text[..i + 1] == text[..i] + [text[i]];
    Append3(text[..i], [text[i]], Decoded(text[i + 1..]));
  }

  method UnescapeForHTML(input: seq<unit>) returns (text: seq<unit>)
    ensures text == Decoded(input)
  {
    if AMPERSAND !in input {
      NothingToDecode(input);
      return input;
    }
    text := input;
    var i := 0;
    assert input[0..] == input;
    while i < |text|
      invariant DecodesTo(text, i, Decoded(input))
      decreases |text| - i
    {
      if text[i] == AMPERSAND {
        text := ReplaceCode(text, i, Decoded(input));
      } else {
        CodeOpensWithAmpersand(text, i);
        SkipStep(text, i, Decoded(input));
      }
      i := i + 1;
    }
  }

  /** Replaces the code at the cursor, if one stands there, by its character. */
  method ReplaceCode(text: seq<unit>, i: nat, ghost target: seq<unit>) returns (text': seq<unit>)
    requires i < |text| && DecodesTo(text, i, target)
    ensures |text'| <= |text| && DecodesTo(text', i + 1, target)
  {
    hide DecodesTo;
    for k := 0 to COUNT
      invariant CodeAt(text, i) == CodeFrom(text, i, k)
    {
      if MatchesAt(text, i, CODES[k]) {
        RewriteStep(text, i, target);
        return text[..i] + [KEYS[k]] + text[i + |CODES[k]|..];
      }
    }
    SkipStep(text, i, target);
    return text;
  }

  // ------------------------------------------------------------------
  // The two directions
  // ------------------------------------------------------------------

  lemma CodeReads(k: nat, rest: seq<unit>)
    requires k < COUNT
    ensures CodeAt(CODES[k] + rest, 0) == k
  {
    var s := CODES[k] + rest;
    assert s[0..|CODES[k]|] == CODES[k];
    assert CODES[k][1] != 0x61 || k == 2;
    forall j | 0 <= j < k ensures !MatchesAt(s, 0, CODES[j]) {
      assert s[1] == CODES[k][1];
      assert |CODES[j]| <= |s| ==> s[0..|CODES[j]|][1] == s[1];
    }
  }

  /** Unescaping undoes escaping, whatever entity-like sequences the text already holds. */
  lemma {:induction false} UnescapeUndoesEscape(s: seq<unit>)
    ensures Decoded(Escaped(s)) == s
  {
    if s != [] {
      UnescapeUndoesEscape(s[1..]);
      var rest := Escaped(s[1..]);
      var k := KeyIndex(s[0]);
      if k < COUNT {
        CodeReads(k, rest);
        assert (CODES[k] + rest)[|CODES[k]|..] == rest;
      } else {
        CodeOpensWithAmpersand([s[0]] + rest, 0);
        TailOfCons(s[0], rest);
      }
      assert s == [s[0]] + s[1..];
    }
  }

  /** No special character stands raw, except ampersands that open a code. */
  ghost predicate WellEscaped(s: seq<unit>) {
    forall i: nat :: i < |s| && IsSpecial(s[i]) ==> CodeAt(s, i) < COUNT
  }

  lemma {:induction false} EscapedIsWellEscaped(s: seq<unit>)
    ensures WellEscaped(Escaped(s))
  {
    if s != [] {
      EscapedIsWellEscaped(s[1..]);
      WellEscapedCons(s[0], Escaped(s[1..]));
    }
  }

  lemma WellEscapedCons(c: unit, rest: seq<unit>)
    requires WellEscaped(rest)
    ensures WellEscaped(EscapedChar(c) + rest)
  {
    hide CodeAt;
    var code := EscapedChar(c);
    var s := code + rest;
    assert s[|code|..] == rest;
    forall i: nat | i < |s| && IsSpecial(s[i]) ensures CodeAt(s, i) < COUNT {
      if i >= |code| {
        var j := i - |code|;
        assert s[i..] == rest[j..] && s[i] == rest[j];
        CodeAtSuffix(s, i);
        CodeAtSuffix(rest, j);
      } else {
        assert s[i] == code[i] && i == 0;
        CodeReads(KeyIndex(c), rest);
      }
    }
  }

  /** Escaping undoes unescaping exactly on the texts that are properly escaped. */
  lemma EscapeUndoesUnescape(s: seq<unit>)
    ensures Escaped(Decoded(s)) == s <==> WellEscaped(s)
  {
    EscapedIsWellEscaped(Decoded(s));
    if WellEscaped(s) {
      ReEscape(s);
    }
  }

  lemma {:induction false} ReEscape(s: seq<unit>)
    requires WellEscaped(s)
    ensures Escaped(Decoded(s)) == s
  {
    if s != [] {
      var k := CodeAt(s, 0);
      var n := if k < COUNT then |CODES[k]| else 1;
      var c := if k < COUNT then KEYS[k] else s[0];
      var rest := s[n..];
      WellEscapedTail(s, n);
      ReEscape(rest);
      TailOfCons(c, Decoded(rest));
      assert s == s[..n] + rest;
      ReadsBack(s, n, c);
    }
  }

  lemma WellEscapedTail(s: seq<unit>, n: nat)
    requires WellEscaped(s) && n <= |s|
    ensures WellEscaped(s[n..])
  {
    var rest := s[n..];
    forall i: nat | i < |rest| && IsSpecial(rest[i]) ensures CodeAt(rest, i) < COUNT {
      assert rest[i..] == s[i + n..];
      CodeAtSuffix(s, i + n);
      CodeAtSuffix(rest, i);
    }
  }

  /** The front that a step of the pass reads is what its character is escaped to. */
  lemma ReadsBack(s: seq<unit>, n: nat, c: unit)
    requires WellEscaped(s) && s != []
    requires var k := CodeAt(s, 0);
             if k < COUNT then n == |CODES[k]| && c == KEYS[k] else n == 1 && c == s[0]
    ensures s[..n] == EscapedChar(c)
  {
    if CodeAt(s, 0) == COUNT {
      assert s[..1] == [s[0]];
    }
  }
}
