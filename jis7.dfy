/** `escapeJIS7` and `unescapeJIS7` (mod.ts:130-217): ISO-2022-JP of RFC 1468, %-escaped. */
module Jis7 {
  import opened Units
  import opened CodeTable
  import opened JisEscape
  import opened JisUnescape
  import opened JisRoundTrip

  /** `escapeJIS7`: the three passes, which write the stream form. */
  function EscapeJIS7(s: seq<Unit>): (r: seq<Unit>)
    ensures r == EscFrom(SevenBit, s, Ascii)
  {
    EscapeStream(SevenBit, s);
    Escape(SevenBit, s)
  }

  /** `unescapeJIS7`: `%49` to `I`, the designators normalised, then split and decoded. */
  function UnescapeJIS7(str: seq<Unit>): seq<Unit>
  {
    Unstream(SevenBit, Normalize(Replace49(str)))
  }

  /**
   * The codec round-trips every text with no ESC unit whose JIS X 0208 characters are in the
   * table.
   */
  lemma RoundTrip(s: seq<Unit>)
    requires Encodable(SevenBit, s)
    ensures UnescapeJIS7(EscapeJIS7(s)) == s
  {
    var e := EscapeJIS7(s);
    EncodableNoEsc(SevenBit, s);
    EscFromFramed(SevenBit, s, Ascii);
    Replace49Framed(e);
    NormalizeFramed(e);
    UnstreamEscFrom(SevenBit, s);
  }

  /** ASCII text, the empty text included, gets no escape sequence at all. */
  lemma AsciiNoShift(s: seq<Unit>)
    requires AsciiOnly(s)
    ensures AllIn(Ascii, s) && EscapeJIS7(s) == Body(Ascii, s)
  {
    if s != [] {
      var n := ModeRun(SevenBit, s);
      EscFromSame(SevenBit, s, Ascii);
      assert s[..n] == s && s[n..] == [];
    }
  }

  /** The stream form ends with `%1B%28B` when the text ends outside the base class. */
  lemma {:induction false} EscFromCloses(sch: Scheme, s: seq<Unit>, m: Charset)
    requires s != [] && SetOf(sch, s[|s| - 1]) != Base(sch)
    ensures EndsWith(EscFrom(sch, s, m), Shift(Base(sch)))
    decreases |s|
  {
    var k := SetOf(sch, s[0]);
    var n := ModeRun(sch, s);
    EscFromStep(sch, s, m);
    var head := (if k == m then [] else Shift(k)) + Body(k, s[..n]);
    var e' := EscFrom(sch, s[n..], k);
    if n == |s| {
      assert SetOf(sch, s[|s| - 1]) == k;
      assert s[n..] == [];
      assert e' == Shift(Base(sch));
    } else {
      assert s[n..][|s[n..]| - 1] == s[|s| - 1];
      EscFromCloses(sch, s[n..], k);
    }
    EndsWithAppend(head, e', Shift(Base(sch)));
  }

  predicate EndsWith(e: seq<Unit>, t: seq<Unit>)
  {
    |e| >= |t| && e[|e| - |t|..] == t
  }

  lemma EndsWithAppend(h: seq<Unit>, e: seq<Unit>, t: seq<Unit>)
    requires EndsWith(e, t)
    ensures EndsWith(h + e, t)
  {
    var x := h + e;
    assert x[|x| - |t|..] == e[|e| - |t|..];
  }

  /** Text ending outside ASCII gets `%1B%28B` at its end. */
  lemma ClosesInAscii(s: seq<Unit>)
    requires s != [] && s[|s| - 1] >= 128
    ensures EndsWith(EscapeJIS7(s), Shift(Ascii))
  {
    EscFromCloses(SevenBit, s, Ascii);
  }

  /** A text that is one run of katakana, or of other non-ASCII characters, gets one prefix. */
  lemma OneRun(s: seq<Unit>, k: Charset)
    requires s != [] && Uniform(SevenBit, s, k) && k != Ascii
    ensures AllIn(k, s) && EscapeJIS7(s) == Shift(k) + Body(k, s) + Shift(Ascii)
  {
    UniformIn(SevenBit, s, k);
    var n := ModeRun(SevenBit, s);
    assert SetOf(SevenBit, s[0]) == k;
    assert s[..n] == s && s[n..] == [];
    EscFromStep(SevenBit, s, Ascii);
  }

  /** The variant designators `%1B%24%40`, `%1B%24%42` and `%1B%24@` all become `%1B%24B`. */
  lemma NormalizeVariants(z: seq<Unit>)
    ensures Normalize(ESC + Pct(0x24) + Pct(0x40) + z) == Shift(Kanji) + Normalize(z)
    ensures Normalize(ESC + Pct(0x24) + Pct(0x42) + z) == Shift(Kanji) + Normalize(z)
    ensures Normalize(ESC + Pct(0x24) + [64] + z) == Shift(Kanji) + Normalize(z)
  {
    EscDollar();
    NormalizeEscaped(Pct(0x40), z);
    NormalizeEscaped(Pct(0x42), z);
    NormalizeAt(z);
  }

  /** `%1B%24` is the head that both patterns share. */
  lemma EscDollar()
    ensures ESC + Pct(0x24) == [37, 49, 66, 37, 50, 52]
    ensures Pct(0x40) == [37, 52, 48] && Pct(0x42) == [37, 52, 50]
  {
    assert ESC == [37, 49, 66];
  }

  lemma NormalizeEscaped(t: seq<Unit>, z: seq<Unit>)
    requires t == [37, 52, 48] || t == [37, 52, 50]
    ensures Normalize([37, 49, 66, 37, 50, 52] + t + z) == Shift(Kanji) + Normalize(z)
  {
    var a := [37, 49, 66, 37, 50, 52] + t + z;
    assert a[6] == PERCENT && a[7] == 52 && a[9..] == z;
  }

  lemma NormalizeAt(z: seq<Unit>)
    ensures Normalize([37, 49, 66, 37, 50, 52] + [64] + z) == Shift(Kanji) + Normalize(z)
  {
    var c := [37, 49, 66, 37, 50, 52] + [64] + z;
    assert c[6] == 64 && c[7..] == z;
  }

  /** Half-width katakana `ｱ` (U+FF71) is the byte 0x31, `1`, written literally. */
  lemma KatakanaExample()
    ensures EscapeJIS7([0xFF71]) == Shift(Katakana) + [49] + Shift(Ascii)
  {
    assert Uniform(SevenBit, [0xFF71], Katakana);
    OneRun([0xFF71], Katakana);
    BodyOne(Katakana, 0xFF71);
    assert UnitCode(Katakana, 0xFF71) == H(49) == [49];
  }
}
