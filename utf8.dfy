/**
 * `escapeUTF8` / `unescapeUTF8` (mod.ts:399-436): each unit as one, two or three `%XX` bytes of
 * UTF-8 (sections 3 and 4 of RFC 3629). The source's shifts and masks are written as division
 * and remainder, which is exact for 16-bit units: `c >> 6 | 192` is `192 + c / 64` when
 * `c < 2048`, `c >> 6 & 63 | 128` is `128 + c / 64 % 64`, `(c & 31) << 6 | d & 63` is
 * `c % 32 * 64 + d % 64`.
 */
module Utf8 {
  import opened Units

  predicate IsSurrogate(c: int)
  {
    0xD800 <= c <= 0xDFFF
  }

  /** `fn1` of `escapeUTF8` under `/[^*+.-9A-Z_a-z-]/g`. */
  function EscapeUnit(c: Unit): (r: seq<Unit>)
    ensures IsSafe(c) <==> r == [c]
    ensures !IsSafe(c) ==> (|r| == 3 <==> c < 128) && (|r| == 6 <==> 128 <= c < 2048) && (|r| == 9 <==> c >= 2048)
  {
    if IsSafe(c) then [c]
    else if c < 128 then Pct(c)
    else if c < 2048 then Pct(192 + c / 64) + Pct(128 + c % 64)
    else Pct(224 + c / 4096) + Pct(128 + c / 64 % 64) + Pct(128 + c % 64)
  }

  function EscapeUTF8(s: seq<Unit>): seq<Unit>
  {
    Flat(EscapeUnit, s)
  }

  /** A continuation escape `%[89AB][0-9A-F]` at `s[i..]`. */
  predicate ContAt(s: seq<Unit>, i: int)
  {
    PctIn(s, i, 0x80, 0xBF)
  }

  /**
   * `%E` followed by one of `:;<=>?@` (0x3A-0x40). The class `[1-CEF]` of the three-byte branch
   * is the range U+0031-U+0043 plus `E` and `F`, so it takes these seven characters as well as
   * the hexadecimal digits 1-9, A-C, E and F.
   */
  predicate OddLeadAt(s: seq<Unit>)
  {
    3 <= |s| && s[0] == PERCENT && (s[1] == 0x45 || s[1] == 0x65) && 0x3A <= s[2] <= 0x40
  }

  /**
   * The three-byte branch of the pattern, `%E(0%[AB]|[1-CEF]%[89AB]|D%[89])[0-9A-F]%[89AB][0-9A-F]`:
   * lead E0 takes a second byte A0-BF, lead ED takes 80-9F, the other E-leads take 80-BF, and so
   * does a lead `%E` followed by one of `:;<=>?@`.
   */
  predicate ThreeAt(s: seq<Unit>)
  {
    if OddLeadAt(s) then ContAt(s, 3) && ContAt(s, 6)
    else
      PctIn(s, 0, 0xE0, 0xEF) && PctAt(s, 3) && ContAt(s, 6) &&
      var b1, b2 := PctVal(s, 0), PctVal(s, 3);
      if b1 == 0xE0 then 0xA0 <= b2 <= 0xBF
      else if b1 == 0xED then 0x80 <= b2 <= 0x9F
      else 0x80 <= b2 <= 0xBF
  }

  /** The two-byte branch, `%(C[2-9A-F]|D[0-9A-F])%[89AB][0-9A-F]`: lead C2-DF. */
  predicate TwoAt(s: seq<Unit>)
  {
    PctIn(s, 0, 0xC2, 0xDF) && ContAt(s, 3)
  }

  /** Length of the match of `rx1` (mod.ts:422-423) at the start of `s`; 0 when none. */
  function TokenLength(s: seq<Unit>): (n: nat)
    ensures n == 0 || n == 3 || n == 6 || n == 9
    ensures n <= |s|
  {
    if ThreeAt(s) then 9 else if TwoAt(s) then 6 else if PctIn(s, 0, 0, 0x7F) then 3 else 0
  }

  /**
   * `fn1` of `unescapeUTF8`: the unit rebuilt from the lead byte and the continuation bytes.
   * `parseInt(s.substring(1), 16)` reads the longest hexadecimal prefix, so after an odd lead
   * `%E:` it reads `E` alone, 14, which is below 128 and becomes the unit 14 itself.
   */
  function TokenValue(s: seq<Unit>, n: nat): Unit
    requires n == TokenLength(s) && n != 0
  {
    if OddLeadAt(s) then 14
    else
    var c := PctVal(s, 0);
    if c < 128 then c
    else if c < 224 then c % 32 * 64 + PctVal(s, 3) % 64
    else (c % 16 * 64 + PctVal(s, 3) % 64) * 64 + PctVal(s, 6) % 64
  }

  function UnescapeUTF8(s: seq<Unit>): seq<Unit>
    decreases |s|
  {
    if s == [] then []
    else
      var n := TokenLength(s);
      if n == 0 then [s[0]] + UnescapeUTF8(s[1..])
      else [TokenValue(s, n)] + UnescapeUTF8(s[n..])
  }

  lemma TwoByteArith(c: int)
    requires 128 <= c < 2048
    ensures (192 + c / 64) % 32 * 64 + (128 + c % 64) % 64 == c
  {
  }

  lemma ThreeByteArith(c: int)
    requires 2048 <= c < 0x1_0000
    ensures ((224 + c / 4096) % 16 * 64 + (128 + c / 64 % 64) % 64) * 64 + (128 + c % 64) % 64 == c
  {
    var q := c / 64;
    assert q / 64 == c / 4096;
    assert q == q / 64 * 64 + q % 64;
  }

  lemma TwoByteToken(c: Unit, rest: seq<Unit>)
    requires 128 <= c < 2048
    ensures var s := EscapeUnit(c) + rest; TokenLength(s) == 6 && TokenValue(s, 6) == c
  {
    var t := EscapeUnit(c);
    var b1, b2 := 192 + c / 64, 128 + c % 64;
    assert t == Pct(b1) + Pct(b2);
    assert t[3..] == Pct(b2);
    PctPrefix(t, rest, 0);
    PctPrefix(t, rest, 3);
    var s := t + rest;
    assert PctVal(s, 0) == b1 && PctVal(s, 3) == b2;
    assert !ThreeAt(s);
    TwoByteArith(c);
  }

  lemma ThreeByteToken(c: Unit, rest: seq<Unit>)
    requires 2048 <= c && !IsSurrogate(c)
    ensures var s := EscapeUnit(c) + rest; TokenLength(s) == 9 && TokenValue(s, 9) == c
  {
    var t := EscapeUnit(c);
    var b1, b2, b3 := 224 + c / 4096, 128 + c / 64 % 64, 128 + c % 64;
    assert t == Pct(b1) + Pct(b2) + Pct(b3);
    assert t[3..6] == Pct(b2) && t[6..] == Pct(b3);
    PctPrefix(t, rest, 0);
    PctPrefix(t, rest, 3);
    PctPrefix(t, rest, 6);
    var s := t + rest;
    assert PctVal(s, 0) == b1 && PctVal(s, 3) == b2 && PctVal(s, 6) == b3;
    ThreeByteRanges(c);
    assert ThreeAt(s);
    ThreeByteArith(c);
  }

  lemma ThreeByteRanges(c: int)
    requires 2048 <= c < 0x1_0000 && !IsSurrogate(c)
    ensures var b1, b2 := 224 + c / 4096, 128 + c / 64 % 64;
      0xE0 <= b1 <= 0xEF && 0x80 <= b2 <= 0xBF &&
      (b1 == 0xE0 ==> 0xA0 <= b2) && (b1 == 0xED ==> b2 <= 0x9F)
  {
    if c / 4096 == 13 {
      assert 0xD000 <= c < 0xD800;
      assert c / 64 % 64 == (c - 0xD000) / 64;
    }
  }

  /** The token of a unit that is not a surrogate is read back as that unit, whatever follows. */
  lemma UnescapeToken(c: Unit, rest: seq<Unit>)
    requires !IsSurrogate(c)
    ensures UnescapeUTF8(EscapeUnit(c) + rest) == [c] + UnescapeUTF8(rest)
  {
    var t := EscapeUnit(c);
    var s := t + rest;
    if IsSafe(c) {
      assert s[0] == c && s[1..] == rest;
    } else {
      assert s[|t|..] == rest;
      if c < 128 {
        PctPrefix(t, rest, 0);
        assert TokenLength(s) == 3;
      } else if c < 2048 {
        TwoByteToken(c, rest);
      } else {
        ThreeByteToken(c, rest);
      }
    }
  }

  /** Round trip for every text without surrogate units. */
  lemma {:induction false} RoundTrip(s: seq<Unit>)
    requires forall i :: 0 <= i < |s| ==> !IsSurrogate(s[i])
    ensures UnescapeUTF8(EscapeUTF8(s)) == s
    decreases |s|
  {
    if s != [] {
      UnescapeToken(s[0], EscapeUTF8(s[1..]));
      RoundTrip(s[1..]);
      assert [s[0]] + s[1..] == s;
    }
  }

  /** A text in which no position starts a match is left unchanged. */
  lemma {:induction false} NoTokenUnchanged(s: seq<Unit>)
    requires forall i :: 0 <= i < |s| ==> TokenLength(s[i..]) == 0
    ensures UnescapeUTF8(s) == s
    decreases |s|
  {
    if s != [] {
      assert TokenLength(s[0..]) == 0 && s[0..] == s;
      forall i | 0 <= i < |s| - 1 ensures TokenLength(s[1..][i..]) == 0 {
        assert s[1..][i..] == s[i + 1..];
      }
      NoTokenUnchanged(s[1..]);
    }
  }

  /** An escaped surrogate (`%ED%A0%80` for U+D800) is outside the pattern and stays escaped. */
  lemma SurrogateNotDecoded()
    ensures EscapeUTF8([0xD800]) == Pct(0xED) + Pct(0xA0) + Pct(0x80)
    ensures UnescapeUTF8(EscapeUTF8([0xD800])) == EscapeUTF8([0xD800])
  {
    SurrogateEscape();
    var t := EscapeUTF8([0xD800]);
    forall i | 0 <= i < |t|
      ensures TokenLength(t[i..]) == 0
    {
      SurrogateNoToken(t, i);
    }
    NoTokenUnchanged(t);
  }

  lemma SurrogateEscape()
    ensures EscapeUTF8([0xD800]) == Pct(0xED) + Pct(0xA0) + Pct(0x80)
    ensures EscapeUTF8([0xD800]) == [37, 69, 68, 37, 65, 48, 37, 56, 48]
  {
    FlatSingle(EscapeUnit, 0xD800);
    SurrogateBytes();
    SurrogatePct();
  }

  lemma SurrogateBytes()
    ensures EscapeUnit(0xD800) == Pct(0xED) + Pct(0xA0) + Pct(0x80)
  {
    assert 224 + 0xD800 / 4096 == 0xED && 128 + 0xD800 / 64 % 64 == 0xA0 && 128 + 0xD800 % 64 == 0x80;
  }

  lemma SurrogatePct()
    ensures Pct(0xED) + Pct(0xA0) + Pct(0x80) == [37, 69, 68, 37, 65, 48, 37, 56, 48]
  {
    assert Pct(0xED) == [37, 69, 68] && Pct(0xA0) == [37, 65, 48] && Pct(0x80) == [37, 56, 48];
  }

  lemma SurrogateNoToken(t: seq<Unit>, i: nat)
    requires t == [37, 69, 68, 37, 65, 48, 37, 56, 48] && i < |t|
    ensures TokenLength(t[i..]) == 0
  {
    var x := t[i..];
    if i == 0 {
      assert PctVal(x, 0) == 0xED && PctVal(x, 3) == 0xA0;
    } else if i == 3 {
      assert PctVal(x, 0) == 0xA0;
    } else if i == 6 {
      assert PctVal(x, 0) == 0x80;
    } else {
      assert x[0] != PERCENT;
    }
  }

  /**
   * `%E:%80%80` is a match of the three-byte branch through `[1-CEF]`, and `parseInt` of
   * `E:%80%80` in base 16 is 14, so the nine units become the one unit U+000E.
   */
  lemma OddLead()
    ensures UnescapeUTF8([37, 69, 58, 37, 56, 48, 37, 56, 48]) == [14]
  {
    var s: seq<Unit> := [37, 69, 58, 37, 56, 48, 37, 56, 48];
    assert OddLeadAt(s) && PctVal(s, 3) == 0x80 && PctVal(s, 6) == 0x80;
    assert TokenLength(s) == 9;
    assert s[9..] == [];
  }

  lemma SafePassthrough(s: seq<Unit>)
    requires AllSafe(s)
    ensures EscapeUTF8(s) == s
  {
    FlatIdentity(EscapeUnit, s);
  }

  /** `escapeUTF8("A")` is `A`, and `unescapeUTF8("%41")` is `A` too. */
  lemma LetterA()
    ensures EscapeUTF8([Asc('A')]) == [Asc('A')]
    ensures UnescapeUTF8(Pct(0x41)) == [Asc('A')]
  {
    assert UnescapeUTF8(Pct(0x41)) == [TokenValue(Pct(0x41), 3)] + UnescapeUTF8([]);
  }
}
