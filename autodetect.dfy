/**
 * `unescape` (mod.ts:552-570): the decoder chosen by `getEscapeCodeType`, and what that choice
 * makes of the output of some of the encoders.
 */
module AutoDetect {
  import opened Units
  import opened CodeTable
  import opened Classifier
  import UnicodeEscape
  import Utf16Le
  import Utf8
  import EucJp
  import ShiftJis
  import JisEscape
  import JisRoundTrip
  import Jis7
  import Jis8

  /** The dispatch switch; JIS8 goes to the corrected `unescapeJIS8`. */
  function Unescape(s: seq<Unit>): seq<Unit>
  {
    match EscapeCodeType(s)
    case UTF8 => Utf8.UnescapeUTF8(s)
    case UTF16LE => Utf16Le.UnescapeUTF16LE(s)
    case EUCJP => EucJp.UnescapeEUCJP(s)
    case SJIS => ShiftJis.UnescapeSJIS(s)
    case UNICODE => UnicodeEscape.UnescapeUnicode(s)
    case JIS8 => Jis8.UnescapeJIS8(s)
    case JIS7 => Jis7.UnescapeJIS7(s)
  }

  // ---------------------------------------------------------------- plain text

  lemma {:induction false} EucJpPlain(s: seq<Unit>)
    requires NoPercent(s)
    ensures EucJp.UnescapeEUCJP(s) == s
    decreases |s|
  {
    if s != [] {
      assert !PctAt(s, 0) && EucJp.TokenLength(s) == 0;
      EucJpPlain(s[1..]);
    }
  }

  /** Text without `%` is classified EUCJP and comes back unchanged. */
  lemma PlainUnchanged(s: seq<Unit>)
    requires NoPercent(s)
    ensures Unescape(s) == s
  {
    PlainText(s);
    EucJpPlain(s);
  }

  /** `unescape("%82%A0")` is classified SJIS and gives the Shift_JIS table's cell for あ. */
  lemma SjisDispatch()
    ensures Unescape([37, 56, 50, 37, 65, 48]) == [JCT11280[283]]
  {
    SjisExample();
    ShiftJis.Hiragana();
    assert Pct(0x82) + Pct(0xA0) == [37, 56, 50, 37, 65, 48];
  }

  // ---------------------------------------------------------------- escapeUnicode

  /** A unit above 0xFF escapes to `%uXXXX`, which the first test finds. */
  lemma UnicodeToken(s: seq<Unit>, k: nat)
    requires k < |s| && s[k] >= 256
    ensures Test(UnicodeEscape.EscapeUnicode(s), RX1)
  {
    var f := UnicodeEscape.EscapeUnit;
    SplitAt(s, k);
    FlatConcat(f, s[..k] + [s[k]], s[k + 1..]);
    FlatConcat(f, s[..k], [s[k]]);
    FlatSingle(f, s[k]);
    var pre, t, post := Flat(f, s[..k]), f(s[k]), Flat(f, s[k + 1..]);
    var e := UnicodeEscape.EscapeUnicode(s);
    assert e == pre + t + post;
    var h := UnicodeEscape.Hex4(s[k]);
    assert t == [PERCENT, 117] + h;
    forall j | 0 <= j < 6
      ensures Fits(e[|pre| + j], RX1[0][j])
    {
      assert e[|pre| + j] == t[j];
    }
    assert MatchAt(e, |pre|, RX1[0]);
  }

  /** `escapeUnicode` of text with a unit above 0xFF is detected as Unicode and read back. */
  lemma AutoUnicode(s: seq<Unit>, k: nat)
    requires k < |s| && s[k] >= 256
    ensures Unescape(UnicodeEscape.EscapeUnicode(s)) == s
  {
    UnicodeToken(s, k);
    UnicodeEscape.RoundTrip(s);
  }

  // ---------------------------------------------------------------- escapeJIS7

  lemma LowConcat(a: seq<Unit>, b: seq<Unit>)
    requires LowEscapes(a) && LowEscapes(b)
    ensures LowEscapes(a + b)
  {
    var x := a + b;
    forall k | 0 <= k < |x| && x[k] == PERCENT
      ensures PctIn(x, k, 1, 0x7E)
    {
      if k < |a| {
        assert PctIn(a, k, 1, 0x7E);
        PctPrefix(a, b, k);
      } else {
        var i := k - |a|;
        assert b[i] == PERCENT && PctIn(b, i, 1, 0x7E);
        assert x[k + 1] == b[i + 1] && x[k + 2] == b[i + 2];
      }
    }
  }

  lemma LowPct(b: Byte)
    requires 1 <= b <= 0x7E
    ensures LowEscapes(Pct(b))
  {
    var p := Pct(b);
    assert p[1] == HexDigit(b / 16) && p[2] == HexDigit(b % 16);
    assert forall k :: 0 < k < 3 ==> p[k] != PERCENT;
  }

  lemma LowH(b: Byte)
    requires 16 <= b <= 0x7E
    ensures LowEscapes(JisEscape.H(b))
  {
    if !IsSafe(b) {
      LowPct(b);
    }
  }

  lemma LowKanji(c: Unit)
    requires JisEscape.InSet(JisEscape.Kanji, c)
    ensures LowEscapes(JisEscape.UnitCode(JisEscape.Kanji, c))
  {
    var idx := IndexOf(JCT8836, c);
    if idx < 0 {
      LowUndefined();
    } else {
      var row, cell := idx / 94, idx % 94;
      JisEscape.KanjiCell(c, row, cell);
      LowPair(row + 33, cell + 33);
    }
  }

  lemma LowUndefined()
    ensures LowEscapes(JisEscape.UNDEFINED)
  {
    LowPct(0x21);
    LowPct(0x26);
    LowConcat(Pct(0x21), Pct(0x26));
  }

  lemma LowPair(b1: int, b2: int)
    requires 33 <= b1 <= 126 && 33 <= b2 <= 126
    ensures LowEscapes(JisEscape.H(b1) + JisEscape.H(b2))
  {
    LowH(b1);
    LowH(b2);
    LowConcat(JisEscape.H(b1), JisEscape.H(b2));
  }

  /** The units the JIS7 form writes as a byte 0x01-0x7E: all but NUL and DEL. */
  predicate Printable7(c: Unit)
  {
    c != 0 && c != 0x7F
  }

  lemma LowUnit(k: JisEscape.Charset, c: Unit)
    requires JisEscape.InSet(k, c) && k != JisEscape.SingleByte && Printable7(c)
    ensures LowEscapes(JisEscape.UnitCode(k, c))
  {
    match k
    case Ascii =>
      if !IsSafe(c) {
        LowPct(c);
      }
    case Katakana => LowH(c - 65344);
    case Kanji => LowKanji(c);
  }

  lemma {:induction false} LowBody(k: JisEscape.Charset, r: seq<Unit>)
    requires JisEscape.AllIn(k, r) && k != JisEscape.SingleByte
    requires forall j :: 0 <= j < |r| ==> Printable7(r[j])
    ensures LowEscapes(JisEscape.Body(k, r))
    decreases |r|
  {
    if r != [] {
      LowUnit(k, r[0]);
      LowBody(k, r[1..]);
      LowConcat(JisEscape.UnitCode(k, r[0]), JisEscape.Body(k, r[1..]));
    }
  }

  lemma LowShift(k: JisEscape.Charset)
    ensures LowEscapes(JisEscape.Shift(k))
  {
    LowPct(0x1B);
    LowPct(0x28);
    LowPct(0x24);
    LowConcat(Pct(0x28), [66]);
    LowConcat(Pct(0x28), [73]);
    LowConcat(Pct(0x24), [66]);
    LowConcat(JisEscape.ESC, JisEscape.Designator(k));
  }

  /** The JIS7 stream form of text without NUL and DEL escapes only bytes 0x01-0x7E. */
  lemma {:induction false} LowStream(s: seq<Unit>, m: JisEscape.Charset)
    requires forall j :: 0 <= j < |s| ==> Printable7(s[j])
    ensures LowEscapes(JisEscape.EscFrom(JisEscape.SevenBit, s, m))
    decreases |s|
  {
    var sch := JisEscape.SevenBit;
    LowShift(JisEscape.Ascii);
    if s != [] {
      var k := JisEscape.SetOf(sch, s[0]);
      var n := JisEscape.ModeRun(sch, s);
      JisEscape.EscFromStep(sch, s, m);
      var head := if k == m then [] else JisEscape.Shift(k);
      LowShift(k);
      LowBody(k, s[..n]);
      LowStream(s[n..], k);
      LowConcat(head, JisEscape.Body(k, s[..n]));
      LowConcat(head + JisEscape.Body(k, s[..n]), JisEscape.EscFrom(sch, s[n..], k));
    }
  }

  lemma TestRight(a: seq<Unit>, b: seq<Unit>, rx: seq<seq<Cls>>)
    requires Test(b, rx)
    ensures Test(a + b, rx)
  {
    var x, i :| 0 <= x < |rx| && 0 <= i <= |b| && MatchAt(b, i, rx[x]);
    forall j | 0 <= j < |rx[x]|
      ensures Fits((a + b)[|a| + i + j], rx[x][j])
    {
      assert (a + b)[|a| + i + j] == b[i + j];
    }
    assert MatchAt(a + b, |a| + i, rx[x]);
  }

  lemma TestLeft(a: seq<Unit>, b: seq<Unit>, rx: seq<seq<Cls>>)
    requires Test(a, rx)
    ensures Test(a + b, rx)
  {
    var x, i :| 0 <= x < |rx| && 0 <= i <= |a| && MatchAt(a, i, rx[x]);
    forall j | 0 <= j < |rx[x]|
      ensures Fits((a + b)[i + j], rx[x][j])
    {
      assert (a + b)[i + j] == a[i + j];
    }
    assert MatchAt(a + b, i, rx[x]);
  }

  /** An escape sequence starts with `%1B`. */
  lemma ShiftFound(k: JisEscape.Charset, y: seq<Unit>, z: seq<Unit>)
    ensures Test(JisEscape.Shift(k) + y + z, RX6)
  {
    var sh := JisEscape.Shift(k);
    assert sh[..3] == JisEscape.ESC;
    assert MatchAt(sh, 0, RX6[0]);
    TestLeft(sh, y, RX6);
    TestLeft(sh + y, z, RX6);
  }

  /** Text with a unit outside the current class writes an escape sequence, and so `%1B`. */
  lemma {:induction false} StreamShifts(s: seq<Unit>, m: JisEscape.Charset, j: nat)
    requires j < |s| && JisEscape.SetOf(JisEscape.SevenBit, s[j]) != m
    ensures Test(JisEscape.EscFrom(JisEscape.SevenBit, s, m), RX6)
    decreases |s|
  {
    var sch := JisEscape.SevenBit;
    var k := JisEscape.SetOf(sch, s[0]);
    var n := JisEscape.ModeRun(sch, s);
    JisEscape.EscFromStep(sch, s, m);
    var body := JisEscape.Body(k, s[..n]);
    var rest := JisEscape.EscFrom(sch, s[n..], k);
    if k != m {
      ShiftFound(k, body, rest);
    } else {
      assert n <= j;
      assert s[n..][j - n] == s[j];
      StreamShifts(s[n..], k, j - n);
      assert JisEscape.EscFrom(sch, s, m) == [] + body + rest;
      TestRight([] + body, rest, RX6);
    }
  }

  /**
   * `escapeJIS7` of encodable text without NUL and DEL but with a non-ASCII unit is detected as
   * JIS7 and read back.
   */
  lemma AutoJis7(s: seq<Unit>, j: nat)
    requires JisRoundTrip.Encodable(JisEscape.SevenBit, s) && forall i :: 0 <= i < |s| ==> Printable7(s[i])
    requires j < |s| && s[j] >= 128
    ensures EscapeCodeType(Jis7.EscapeJIS7(s)) == JIS7
    ensures Unescape(Jis7.EscapeJIS7(s)) == s
  {
    LowStream(s, JisEscape.Ascii);
    StreamShifts(s, JisEscape.Ascii, j);
    LowEscapesJis7(Jis7.EscapeJIS7(s));
    Jis7.RoundTrip(s);
  }
}
