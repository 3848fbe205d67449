/**
 * Why the stream form of the ISO-2022-JP escapers reads back: its bodies never hold `%1B` or
 * `%49`, every `%1B` it writes is followed by a designator, so normalising leaves it alone and
 * splitting cuts it exactly at its escape sequences.
 */
module JisRoundTrip {
  import opened Units
  import opened CodeTable
  import opened JisEscape
  import opened JisUnescape

  /** Each `%` starts an upper-case escape that is not `%49`. */
  predicate PctOk(x: seq<Unit>, k: int)
    requires 0 <= k < |x|
  {
    k + 3 <= |x| && IsUpperHex(x[k + 1]) && IsUpperHex(x[k + 2]) && !(x[k + 1] == 52 && x[k + 2] == 57)
  }

  /** A text with no `%1B`. */
  predicate Clean(x: seq<Unit>)
  {
    forall k :: 0 <= k < |x| && x[k] == PERCENT ==> PctOk(x, k) && !(x[k + 1] == 49 && x[k + 2] == 66)
  }

  predicate IsDesignator(d: seq<Unit>)
  {
    d == Designator(Ascii) || d == Designator(Katakana) || d == Designator(Kanji)
  }

  /** A text whose every `%1B` starts an escape sequence. */
  predicate Framed(x: seq<Unit>)
  {
    forall k :: 0 <= k < |x| && x[k] == PERCENT ==>
      PctOk(x, k) && (x[k + 1] == 49 && x[k + 2] == 66 ==> k + 7 <= |x| && IsDesignator(x[k + 3..k + 7]))
  }

  lemma CleanConcat(a: seq<Unit>, b: seq<Unit>)
    requires Clean(a) && Clean(b)
    ensures Clean(a + b)
  {
    var x := a + b;
    forall k | 0 <= k < |x| && x[k] == PERCENT
      ensures PctOk(x, k) && !(x[k + 1] == 49 && x[k + 2] == 66)
    {
      if k < |a| {
        assert a[k] == PERCENT && k + 3 <= |a|;
        assert x[k + 1] == a[k + 1] && x[k + 2] == a[k + 2];
      } else {
        assert b[k - |a|] == PERCENT;
        assert x[k + 1] == b[k - |a| + 1] && x[k + 2] == b[k - |a| + 2];
      }
    }
  }

  lemma SliceRight(a: seq<Unit>, b: seq<Unit>, i: nat, j: nat)
    requires i <= j <= |b|
    ensures (a + b)[|a| + i..|a| + j] == b[i..j]
  {
    assert (a + b)[|a|..] == b;
  }

  lemma FramedConcat(a: seq<Unit>, b: seq<Unit>)
    requires Framed(a) && Framed(b)
    ensures Framed(a + b)
  {
    var x := a + b;
    forall k | 0 <= k < |x| && x[k] == PERCENT
      ensures PctOk(x, k) && (x[k + 1] == 49 && x[k + 2] == 66 ==> k + 7 <= |x| && IsDesignator(x[k + 3..k + 7]))
    {
      if k < |a| {
        assert a[k] == PERCENT && k + 3 <= |a|;
        assert x[k + 1] == a[k + 1] && x[k + 2] == a[k + 2];
        if a[k + 1] == 49 && a[k + 2] == 66 {
          assert x[k + 3..k + 7] == a[k + 3..k + 7];
        }
      } else {
        var i := k - |a|;
        assert b[i] == PERCENT;
        assert PctOk(b, i);
        assert x[k + 1] == b[i + 1] && x[k + 2] == b[i + 2];
        if b[i + 1] == 49 && b[i + 2] == 66 {
          assert i + 7 <= |b| && IsDesignator(b[i + 3..i + 7]);
          SliceRight(a, b, i + 3, i + 7);
        }
      }
    }
  }

  lemma CleanFramed(x: seq<Unit>)
    requires Clean(x)
    ensures Framed(x)
  {
  }

  lemma CleanPct(b: Byte)
    requires b != 0x1B && b != 0x49
    ensures Clean(Pct(b))
  {
    var p := Pct(b);
    assert p[1] == HexDigit(b / 16) && p[2] == HexDigit(b % 16);
    assert forall k :: 0 < k < 3 ==> p[k] != PERCENT;
  }

  lemma CleanLit(c: Unit)
    requires c != PERCENT
    ensures Clean([c])
  {
  }

  lemma CleanH(b: Byte)
    requires 16 <= b && b != 0x1B
    ensures Clean(H(b))
  {
    if !IsSafe(b) {
      CleanPct(b);
    }
  }

  lemma UnitCodeClean(k: Charset, c: Unit)
    requires InSet(k, c) && c != 0x1B
    ensures Clean(UnitCode(k, c))
  {
    match k
    case Ascii =>
      if !IsSafe(c) {
        CleanPct(c);
      }
    case Katakana => CleanH(c - 65344);
    case Kanji => KanjiClean(c);
    case SingleByte =>
      if !IsSafe(c) {
        CleanPct(if c < 128 then c else c - 65216);
      }
  }

  lemma KanjiClean(c: Unit)
    requires InSet(Kanji, c)
    ensures Clean(UnitCode(Kanji, c))
  {
    var idx := IndexOf(JCT8836, c);
    if idx < 0 {
      UndefinedClean();
    } else {
      var row, cell := idx / 94, idx % 94;
      KanjiCell(c, row, cell);
      PairClean(row + 33, cell + 33);
    }
  }

  lemma UndefinedClean()
    ensures Clean(UNDEFINED)
  {
    CleanPct(0x21);
    CleanPct(0x26);
    CleanConcat(Pct(0x21), Pct(0x26));
  }

  lemma PairClean(b1: int, b2: int)
    requires 33 <= b1 <= 126 && 33 <= b2 <= 126
    ensures Clean(H(b1) + H(b2))
  {
    CleanH(b1);
    CleanH(b2);
    CleanConcat(H(b1), H(b2));
  }

  /** No unit is ESC itself, which would escape to a look-alike of an escape sequence. */
  predicate NoEscUnit(r: seq<Unit>)
  {
    forall j :: 0 <= j < |r| ==> r[j] != 0x1B
  }

  lemma {:induction false} BodyClean(k: Charset, r: seq<Unit>)
    requires AllIn(k, r) && NoEscUnit(r)
    ensures Clean(Body(k, r))
    decreases |r|
  {
    if r != [] {
      UnitCodeClean(k, r[0]);
      BodyClean(k, r[1..]);
      CleanConcat(UnitCode(k, r[0]), Body(k, r[1..]));
    }
  }

  lemma DesignatorClean(k: Charset)
    ensures Clean(Designator(k))
  {
    CleanPct(0x28);
    CleanPct(0x24);
    CleanLit(66);
    CleanLit(73);
    CleanConcat(Pct(0x28), [66]);
    CleanConcat(Pct(0x28), [73]);
    CleanConcat(Pct(0x24), [66]);
  }

  lemma ShiftFramed(k: Charset)
    ensures Framed(Shift(k))
  {
    DesignatorClean(k);
    var x := Shift(k);
    assert x[3..7] == Designator(k);
    assert IsDesignator(Designator(k));
    forall j | 0 <= j < |x| && x[j] == PERCENT
      ensures PctOk(x, j) && (x[j + 1] == 49 && x[j + 2] == 66 ==> j + 7 <= |x| && IsDesignator(x[j + 3..j + 7]))
    {
      if j >= 3 {
        assert Designator(k)[j - 3] == PERCENT;
        assert x[j + 1] == Designator(k)[j - 2] && x[j + 2] == Designator(k)[j - 1];
      } else {
        assert j == 0;
      }
    }
  }

  /** The stream form is framed. */
  lemma {:induction false} EscFromFramed(sch: Scheme, s: seq<Unit>, m: Charset)
    requires NoEscUnit(s)
    ensures Framed(EscFrom(sch, s, m))
    decreases |s|
  {
    if s == [] {
      ShiftFramed(Base(sch));
    } else {
      var k := SetOf(sch, s[0]);
      var n := ModeRun(sch, s);
      EscFromStep(sch, s, m);
      assert NoEscUnit(s[..n]) && NoEscUnit(s[n..]);
      BodyClean(k, s[..n]);
      CleanFramed(Body(k, s[..n]));
      EscFromFramed(sch, s[n..], k);
      ShiftFramed(k);
      var head: seq<Unit> := if k == m then [] else Shift(k);
      FramedConcat(head, Body(k, s[..n]));
      FramedConcat(head + Body(k, s[..n]), EscFrom(sch, s[n..], k));
    }
  }

  // ---------------------------------------------------------------- normalising a framed text

  lemma FramedTail(x: seq<Unit>)
    requires Framed(x) && x != []
    ensures Framed(x[1..])
  {
    var y := x[1..];
    forall k | 0 <= k < |y| && y[k] == PERCENT
      ensures PctOk(y, k) && (y[k + 1] == 49 && y[k + 2] == 66 ==> k + 7 <= |y| && IsDesignator(y[k + 3..k + 7]))
    {
      assert x[k + 1] == PERCENT;
      assert y[k + 1] == x[k + 2] && y[k + 2] == x[k + 3];
      if y[k + 1] == 49 && y[k + 2] == 66 {
        assert y[k + 3..k + 7] == x[k + 4..k + 8];
      }
    }
  }

  /** A framed text has no `%49` for `replace(/%49/g, "I")` to change. */
  lemma {:induction false} Replace49Framed(x: seq<Unit>)
    requires Framed(x)
    ensures Replace49(x) == x
    decreases |x|
  {
    if x != [] {
      if x[0] == PERCENT {
        assert PctOk(x, 0);
      }
      FramedTail(x);
      Replace49Framed(x[1..]);
    }
  }

  /** A framed text has no variant designator for the normalising pattern to change. */
  lemma {:induction false} NormalizeFramed(x: seq<Unit>)
    requires Framed(x)
    ensures Normalize(x) == x
    decreases |x|
  {
    if x != [] {
      FramedCopied(x);
      FramedTail(x);
      NormalizeFramed(x[1..]);
    }
  }

  /** The first unit of a framed text starts no variant designator, so it is copied. */
  lemma FramedCopied(x: seq<Unit>)
    requires Framed(x) && x != []
    ensures Normalize(x) == [x[0]] + Normalize(x[1..])
  {
    if KanjiEscHead(x) {
      FramedKanjiHead(x);
    }
  }

  lemma FramedKanjiHead(x: seq<Unit>)
    requires Framed(x) && KanjiEscHead(x)
    ensures x[6] == 66
  {
    assert x[0] == PERCENT && PctOk(x, 0);
    assert x[2] == 66;
    assert IsDesignator(x[3..7]);
    assert x[3..7] == Designator(Kanji);
  }

  // ---------------------------------------------------------------- splitting a framed text

  lemma CleanNoCut(x: seq<Unit>, y: seq<Unit>, k: int)
    requires Clean(x) && 0 <= k < |x|
    ensures !EscAt(x + y, k)
  {
    var s := x + y;
    if s[k] == PERCENT {
      assert x[k] == PERCENT && PctOk(x, k);
      assert s[k + 1] == x[k + 1] && s[k + 2] == x[k + 2];
    }
  }

  lemma SplitClean(x: seq<Unit>)
    requires Clean(x)
    ensures Split(x) == [x]
  {
    assert x + [] == x;
    forall k | 0 <= k < |x|
      ensures !EscAt(x, k)
    {
      CleanNoCut(x, [], k);
    }
  }

  /** The first cut of `x + ESC + y`, for `x` without `%1B`, is the ESC. */
  lemma SplitCut(x: seq<Unit>, y: seq<Unit>)
    requires Clean(x)
    ensures Split(x + ESC + y) == [x] + Split(y)
  {
    var s := x + ESC + y;
    assert s == x + (ESC + y);
    assert s[|x|..|x| + 3] == ESC;
    assert EscAt(s, |x|);
    var k := NextEsc(s, 0);
    if k < |x| {
      CleanNoCut(x, ESC + y, k);
    }
    assert k == |x|;
    assert s[..k] == x && s[k + 3..] == y;
  }

  // ---------------------------------------------------------------- reading back

  /** The classes a scheme writes runs in. */
  predicate InScheme(sch: Scheme, k: Charset)
  {
    match sch
    case SevenBit => k != SingleByte
    case EightBit => k == SingleByte || k == Kanji
  }

  /** A text the scheme writes reversibly: no ESC unit, and every JIS X 0208 character in the table. */
  predicate Encodable(sch: Scheme, s: seq<Unit>)
  {
    forall j :: 0 <= j < |s| ==> s[j] != 0x1B && Representable(SetOf(sch, s[j]), s[j])
  }

  /** `%28B` is the ASCII body of `(B`, which the single-byte decoders read and `substring(2)` drops. */
  lemma OpenRead(k: Charset, q: seq<Unit>)
    requires (k == Ascii || k == SingleByte) && AllRepresentable(k, q)
    ensures AllIn(k, q)
    ensures DropTwo(DecodeRun(k, Designator(k) + Body(k, q))) == q
  {
    var o: seq<Unit> := [0x28, 66];
    OpenBody(k);
    OpenRepresentable(k, q);
    BodyAlone(k, q);
    BodyAlone(k, o + q);
    BodyConcat(k, o, q);
    assert (o + q)[2..] == q;
  }

  /** `(B` written by the ASCII or single-byte pass is `%28B`. */
  lemma OpenBody(k: Charset)
    requires k == Ascii || k == SingleByte
    ensures AllIn(k, [0x28, 66]) && Body(k, [0x28, 66]) == Designator(k)
  {
    var o: seq<Unit> := [0x28, 66];
    assert o[1..] == [66];
    assert Body(k, o) == UnitCode(k, 0x28) + Body(k, [66]);
    BodyOne(k, 66);
  }

  lemma OpenRepresentable(k: Charset, q: seq<Unit>)
    requires (k == Ascii || k == SingleByte) && AllRepresentable(k, q)
    ensures AllRepresentable(k, [0x28, 66] + q)
  {
    var x := [0x28, 66] + q;
    forall j | 0 <= j < |x|
      ensures Representable(k, x[j])
    {
      if j >= 2 {
        assert x[j] == q[j - 2];
      }
    }
  }

  /** One segment, designator and body, decodes to its run. */
  lemma SegmentRead(sch: Scheme, k: Charset, q: seq<Unit>)
    requires InScheme(sch, k) && AllRepresentable(k, q)
    ensures AllIn(k, q) && DecodeSegment(sch, Designator(k) + Body(k, q)) == q
  {
    BodyAlone(k, q);
    if k == Kanji || k == Katakana {
      ShiftedSegment(sch, k, q);
    } else {
      OpenRead(k, q);
      OpenSegment(sch, k, q);
    }
  }

  lemma BodyAlone(k: Charset, q: seq<Unit>)
    requires AllRepresentable(k, q)
    ensures AllIn(k, q) && DecodeRun(k, Body(k, q)) == q
  {
    BodyRead(k, q, []);
    assert Body(k, q) + [] == Body(k, q);
    assert DecodeRun(k, []) == [];
  }

  lemma DesignatorsDiffer()
    ensures Designator(Kanji) != Designator(Katakana) && Designator(Ascii) != Designator(Katakana)
    ensures Designator(Ascii) != Designator(Kanji) && Designator(SingleByte) == Designator(Ascii)
  {
    assert Pct(0x28) == [37, 50, 56] && Pct(0x24) == [37, 50, 52];
    assert Designator(Kanji)[2] == 52 && Designator(Katakana)[2] == 56;
    assert Designator(Ascii)[3] == 66 && Designator(Katakana)[3] == 73;
  }

  /** After `%24B` or `%28I` the segment is decoded past its designator. */
  lemma ShiftedSegment(sch: Scheme, k: Charset, q: seq<Unit>)
    requires InScheme(sch, k) && (k == Kanji || k == Katakana) && AllIn(k, q)
    ensures DecodeSegment(sch, Designator(k) + Body(k, q)) == DecodeRun(k, Body(k, q))
  {
    var p := Designator(k) + Body(k, q);
    assert p[..4] == Designator(k) && p[4..] == Body(k, q);
    DesignatorsDiffer();
  }

  /** Otherwise the whole segment is decoded and its first two units dropped. */
  lemma OpenSegment(sch: Scheme, k: Charset, q: seq<Unit>)
    requires InScheme(sch, k) && (k == Ascii || k == SingleByte) && AllIn(k, q)
    ensures DecodeSegment(sch, Designator(k) + Body(k, q)) == DropTwo(DecodeRun(k, Designator(k) + Body(k, q)))
  {
    var p := Designator(k) + Body(k, q);
    assert p[..4] == Designator(k);
    DesignatorsDiffer();
  }

  lemma SegmentsCut(sch: Scheme, x: seq<Unit>, y: seq<Unit>)
    requires Clean(x) && x != []
    ensures DecodeSegments(sch, Split(x + ESC + y)) == DecodeSegment(sch, x) + DecodeSegments(sch, Split(y))
  {
    SplitCut(x, y);
    SegmentsCons(sch, x, Split(y));
  }

  lemma OpenClean(k: Charset, q: seq<Unit>)
    requires AllIn(k, q) && NoEscUnit(q)
    ensures Clean(Designator(k) + Body(k, q))
  {
    DesignatorClean(k);
    BodyClean(k, q);
    CleanConcat(Designator(k), Body(k, q));
  }

  /**
   * A segment opened in class `m` with the run `q` so far, then the stream form of `s`,
   * decodes to `q + s`.
   */
  lemma {:induction false} StreamRead(sch: Scheme, m: Charset, q: seq<Unit>, s: seq<Unit>)
    requires InScheme(sch, m) && AllRepresentable(m, q) && NoEscUnit(q) && Encodable(sch, s)
    ensures AllIn(m, q)
    ensures DecodeSegments(sch, Split(Designator(m) + Body(m, q) + EscFrom(sch, s, m))) == q + s
    decreases |s|, 1
  {
    BodyRead(m, q, []);
    if s == [] {
      StreamEnd(sch, m, q);
    } else if SetOf(sch, s[0]) == m {
      StreamSame(sch, m, q, s);
    } else {
      StreamChange(sch, m, q, s);
    }
  }

  lemma SegmentsCons(sch: Scheme, x: seq<Unit>, P: seq<seq<Unit>>)
    requires x != []
    ensures DecodeSegments(sch, [x] + P) == DecodeSegment(sch, x) + DecodeSegments(sch, P)
  {
    assert ([x] + P)[1..] == P;
  }

  lemma SegmentsLast(sch: Scheme, x: seq<Unit>)
    requires x != []
    ensures DecodeSegments(sch, [x]) == DecodeSegment(sch, x)
  {
    SegmentsCons(sch, x, []);
    assert [x] + [] == [x];
  }

  /** The last segment, or the one before the closing `%1B%28B`. */
  lemma StreamEnd(sch: Scheme, m: Charset, q: seq<Unit>)
    requires InScheme(sch, m) && AllRepresentable(m, q) && NoEscUnit(q)
    ensures AllIn(m, q)
    ensures DecodeSegments(sch, Split(Designator(m) + Body(m, q) + EscFrom(sch, [], m))) == q
  {
    BodyRead(m, q, []);
    OpenClean(m, q);
    SegmentRead(sch, m, q);
    if m == Base(sch) {
      EndInBase(sch, m, q);
    } else {
      EndClosed(sch, m, q);
    }
  }

  lemma EndInBase(sch: Scheme, m: Charset, q: seq<Unit>)
    requires m == Base(sch) && AllIn(m, q)
    requires Clean(Designator(m) + Body(m, q))
    requires DecodeSegment(sch, Designator(m) + Body(m, q)) == q
    ensures DecodeSegments(sch, Split(Designator(m) + Body(m, q) + EscFrom(sch, [], m))) == q
  {
    var x := Designator(m) + Body(m, q);
    assert x + EscFrom(sch, [], m) == x;
    SplitClean(x);
    SegmentsLast(sch, x);
  }

  lemma EndClosed(sch: Scheme, m: Charset, q: seq<Unit>)
    requires m != Base(sch) && AllIn(m, q)
    requires Clean(Designator(m) + Body(m, q))
    requires DecodeSegment(sch, Designator(m) + Body(m, q)) == q
    ensures DecodeSegments(sch, Split(Designator(m) + Body(m, q) + EscFrom(sch, [], m))) == q
  {
    var x := Designator(m) + Body(m, q);
    var b := Base(sch);
    var d := Designator(b);
    CloseShift(sch, m);
    Assoc(x, ESC, d);
    SegmentsCut(sch, x, d);
    DesignatorClean(b);
    SplitClean(d);
    SegmentsLast(sch, d);
    BaseEmpty(sch);
    assert q + [] == q;
  }

  /** Text that ends outside the base class is closed by the base class's escape sequence. */
  lemma CloseShift(sch: Scheme, m: Charset)
    requires m != Base(sch)
    ensures EscFrom(sch, [], m) == ESC + Designator(Base(sch))
  {
  }

  /** The closing designator alone decodes to nothing. */
  lemma BaseEmpty(sch: Scheme)
    ensures DecodeSegment(sch, Designator(Base(sch))) == []
  {
    var b := Base(sch);
    assert Designator(b) + Body(b, []) == Designator(b);
    assert InScheme(sch, b);
    SegmentRead(sch, b, []);
  }

  /** The first run of an encodable text, and the rest. */
  lemma RunParts(sch: Scheme, s: seq<Unit>)
    requires Encodable(sch, s) && s != []
    ensures var k := SetOf(sch, s[0]); var n := ModeRun(sch, s);
      AllRepresentable(k, s[..n]) && NoEscUnit(s[..n]) && Encodable(sch, s[n..]) && s == s[..n] + s[n..]
  {
    var k := SetOf(sch, s[0]);
    var n := ModeRun(sch, s);
    forall j | 0 <= j < n
      ensures Representable(k, s[..n][j]) && s[..n][j] != 0x1B
    {
      assert s[..n][j] == s[j] && SetOf(sch, s[j]) == k;
    }
    forall j | 0 <= j < |s| - n
      ensures s[n..][j] != 0x1B && Representable(SetOf(sch, s[n..][j]), s[n..][j])
    {
      assert s[n..][j] == s[n + j];
    }
  }

  lemma JoinRuns(m: Charset, q: seq<Unit>, r: seq<Unit>)
    requires AllRepresentable(m, q) && NoEscUnit(q) && AllRepresentable(m, r) && NoEscUnit(r)
    ensures AllRepresentable(m, q + r) && NoEscUnit(q + r)
  {
  }

  lemma StreamSame(sch: Scheme, m: Charset, q: seq<Unit>, s: seq<Unit>)
    requires InScheme(sch, m) && AllRepresentable(m, q) && NoEscUnit(q) && Encodable(sch, s)
    requires s != [] && SetOf(sch, s[0]) == m
    ensures AllIn(m, q)
    ensures DecodeSegments(sch, Split(Designator(m) + Body(m, q) + EscFrom(sch, s, m))) == q + s
    decreases |s|, 0
  {
    BodyRead(m, q, []);
    var n := ModeRun(sch, s);
    var r, s' := s[..n], s[n..];
    RunParts(sch, s);
    JoinRuns(m, q, r);
    EscFromSame(sch, s, m);
    BodyRead(m, r, []);
    BodyConcat(m, q, r);
    var d, e := Designator(m), EscFrom(sch, s', m);
    assert EscFrom(sch, s, m) == Body(m, r) + e;
    Assoc(d + Body(m, q), Body(m, r), e);
    Assoc(d, Body(m, q), Body(m, r));
    var X, Y := d + Body(m, q) + EscFrom(sch, s, m), d + Body(m, q + r) + e;
    assert X == Y;
    StreamRead(sch, m, q + r, s');
    assert DecodeSegments(sch, Split(X)) == q + r + s';
    Assoc(q, r, s');
  }

  lemma StreamChange(sch: Scheme, m: Charset, q: seq<Unit>, s: seq<Unit>)
    requires InScheme(sch, m) && AllRepresentable(m, q) && NoEscUnit(q) && Encodable(sch, s)
    requires s != [] && SetOf(sch, s[0]) != m
    ensures AllIn(m, q)
    ensures DecodeSegments(sch, Split(Designator(m) + Body(m, q) + EscFrom(sch, s, m))) == q + s
    decreases |s|, 0
  {
    BodyRead(m, q, []);
    var k := SetOf(sch, s[0]);
    var n := ModeRun(sch, s);
    var r, s' := s[..n], s[n..];
    RunParts(sch, s);
    BodyRead(k, r, []);
    EscFromStep(sch, s, m);
    var x := Designator(m) + Body(m, q);
    var e := EscFrom(sch, s', k);
    var y := Designator(k) + Body(k, r) + e;
    assert EscFrom(sch, s, m) == Shift(k) + Body(k, r) + e;
    Assoc(ESC, Designator(k), Body(k, r));
    Assoc(ESC, Designator(k) + Body(k, r), e);
    assert EscFrom(sch, s, m) == ESC + y;
    Assoc(x, ESC, y);
    OpenClean(m, q);
    SegmentsCut(sch, x, y);
    SegmentRead(sch, m, q);
    assert InScheme(sch, k);
    StreamRead(sch, k, r, s');
    assert q + (r + s') == q + s;
  }

  /** The stream form of an encodable text, decoded, is the text. */
  lemma UnstreamEscFrom(sch: Scheme, s: seq<Unit>)
    requires Encodable(sch, s)
    ensures Unstream(sch, EscFrom(sch, s, Base(sch))) == s
  {
    var b := Base(sch);
    StreamRead(sch, b, [], s);
    assert Designator(Ascii) == Designator(b) + Body(b, []);
  }

  /** Encodable texts hold no ESC unit. */
  lemma EncodableNoEsc(sch: Scheme, s: seq<Unit>)
    requires Encodable(sch, s)
    ensures NoEscUnit(s)
  {
  }
}
