/** `escapeUnicode` / `unescapeUnicode`: `%XX` for units below 256, `%uXXXX` above (mod.ts:305-327). */
module UnicodeEscape {
  import opened Units

  /** Four upper-case hexadecimal digits of a unit. */
  function Hex4(c: Unit): (h: seq<Unit>)
    ensures |h| == 4
  {
    [HexDigit(c / 4096), HexDigit(c / 256 % 16), HexDigit(c / 16 % 16), HexDigit(c % 16)]
  }

  lemma Hex4Read(c: Unit)
    ensures var h := Hex4(c);
      HexVal(h[0]) * 4096 + HexVal(h[1]) * 256 + HexVal(h[2]) * 16 + HexVal(h[3]) == c
  {
    var h := Hex4(c);
    assert HexVal(h[0]) == c / 4096 && HexVal(h[1]) == c / 256 % 16;
    assert HexVal(h[2]) == c / 16 % 16 && HexVal(h[3]) == c % 16;
    var q1 := c / 16;
    var q2 := q1 / 16;
    assert q2 == c / 256;
    assert q2 / 16 == c / 4096;
    assert q1 == q2 * 16 + q1 % 16;
    assert q2 == (q2 / 16) * 16 + q2 % 16;
  }

  /**
   * `fn1` of `escapeUnicode`, applied by `/[^*+.-9A-Z_a-z-]/g`: a safe unit stays as it is,
   * another one becomes `%XX` below 256 and `%u` with four digits otherwise.
   */
  function EscapeUnit(c: Unit): (r: seq<Unit>)
    ensures IsSafe(c) <==> r == [c]
    ensures !IsSafe(c) ==> (|r| == 3 <==> c < 256) && (|r| == 6 <==> c >= 256) && r[0] == PERCENT
    ensures !IsSafe(c) ==> TokenLength(r) == |r| && TokenValue(r, |r|) == c
  {
    Hex4Read(c);
    if IsSafe(c) then [c]
    else if c < 256 then Pct(c)
    else [PERCENT, Asc('u')] + Hex4(c)
  }

  function EscapeUnicode(s: seq<Unit>): seq<Unit>
  {
    Flat(EscapeUnit, s)
  }

  /** `%u[0-9A-F]{4}` (flag `i`) at the start of `s`. */
  predicate UTokenAt(s: seq<Unit>)
  {
    6 <= |s| && s[0] == PERCENT && (s[1] == Asc('u') || s[1] == Asc('U')) &&
    IsHex(s[2]) && IsHex(s[3]) && IsHex(s[4]) && IsHex(s[5])
  }

  /** Length of the match of `/%u[0-9A-F]{4}|%[0-9A-F]{2}/i` at the start of `s`; 0 when none. */
  function TokenLength(s: seq<Unit>): (n: nat)
    ensures n == 0 || n == 3 || n == 6
    ensures n <= |s|
  {
    if UTokenAt(s) then 6 else if PctAt(s, 0) then 3 else 0
  }

  /** `fn1` of `unescapeUnicode`: the hexadecimal number from offset `length / 3` of the match. */
  function TokenValue(s: seq<Unit>, n: nat): Unit
    requires n == TokenLength(s) && n != 0
  {
    if n == 6 then HexVal(s[2]) * 4096 + HexVal(s[3]) * 256 + HexVal(s[4]) * 16 + HexVal(s[5])
    else PctVal(s, 0)
  }

  /** The `replace` driver: each match becomes its unit, every other unit is copied. */
  function UnescapeUnicode(s: seq<Unit>): seq<Unit>
    decreases |s|
  {
    if s == [] then []
    else
      var n := TokenLength(s);
      if n == 0 then [s[0]] + UnescapeUnicode(s[1..])
      else [TokenValue(s, n)] + UnescapeUnicode(s[n..])
  }

  /** A token is read back as its unit whatever text follows it. */
  lemma UnescapeToken(c: Unit, rest: seq<Unit>)
    ensures UnescapeUnicode(EscapeUnit(c) + rest) == [c] + UnescapeUnicode(rest)
  {
    var t := EscapeUnit(c);
    var s := t + rest;
    if IsSafe(c) {
      assert s[0] == c && s[1..] == rest;
    } else {
      assert s[..|t|] == t;
      assert s[|t|..] == rest;
      if c < 256 {
        PctPrefix(t, rest, 0);
      }
    }
  }

  /** Round trip: every sequence of 16-bit units survives escaping and unescaping. */
  lemma {:induction false} RoundTrip(s: seq<Unit>)
    ensures UnescapeUnicode(EscapeUnicode(s)) == s
    decreases |s|
  {
    if s != [] {
      UnescapeToken(s[0], EscapeUnicode(s[1..]));
      RoundTrip(s[1..]);
      assert [s[0]] + s[1..] == s;
    }
  }

  /** Text made of safe characters is left unchanged. */
  lemma SafePassthrough(s: seq<Unit>)
    requires AllSafe(s)
    ensures EscapeUnicode(s) == s
  {
    FlatIdentity(EscapeUnit, s);
  }

  /** `escapeUnicode("あ")` is `%u3042`, and unescaping gives back U+3042. */
  lemma Hiragana()
    ensures EscapeUnicode([0x3042]) == [PERCENT, Asc('u'), Asc('3'), Asc('0'), Asc('4'), Asc('2')]
    ensures UnescapeUnicode(EscapeUnicode([0x3042])) == [0x3042]
  {
    RoundTrip([0x3042]);
  }
}
