/**
 * The escape side shared by `escapeJIS7` (mod.ts:130-168) and `escapeJIS8` (mod.ts:225-257):
 * the text, between two `g` sentinels, goes through one `replace` pass per character class;
 * each pass writes every maximal run of its class as an escape sequence of RFC 1468
 * (`ESC ( B`, `ESC ( I`, `ESC $ B`, themselves %-escaped) followed by the run's bytes.
 * The passes are proved equal to the stream form `EscFrom`, in which a designator is written
 * only where the character set changes and the text returns to ASCII at its end.
 */
module JisEscape {
  import opened Units
  import opened CodeTable

  /** Half-width katakana U+FF61-U+FF9F, the class `[｡-ﾟ]`. */
  predicate IsKatakana(c: int)
  {
    65377 <= c <= 65439
  }

  /**
   * The character classes of the passes: `[\x00-\x7F]`, `[｡-ﾟ]` and `[^\x00-\x7F｡-ﾟ]` of
   * `escapeJIS7`, and `[\x00-\x7F｡-ﾟ]` of `escapeJIS8`, whose runs are all written after `ESC ( B`.
   */
  datatype Charset = Ascii | Katakana | Kanji | SingleByte

  predicate InSet(k: Charset, c: Unit)
  {
    match k
    case Ascii => c < 128
    case Katakana => IsKatakana(c)
    case Kanji => c >= 128 && !IsKatakana(c)
    case SingleByte => c < 128 || IsKatakana(c)
  }

  predicate AllIn(k: Charset, r: seq<Unit>)
  {
    forall j :: 0 <= j < |r| ==> InSet(k, r[j])
  }

  /** `%1B`, the escaped ESC. */
  const ESC: seq<Unit> := Pct(0x1B)

  /** The rest of the escape sequence: `%28B`, `%28I` or `%24B`. */
  function Designator(k: Charset): (d: seq<Unit>)
    ensures |d| == 4 && d[0] == PERCENT
  {
    match k
    case Ascii => Pct(0x28) + [66]
    case SingleByte => Pct(0x28) + [66]
    case Katakana => Pct(0x28) + [73]
    case Kanji => Pct(0x24) + [66]
  }

  function Shift(k: Charset): (r: seq<Unit>)
    ensures |r| == 7
  {
    ESC + Designator(k)
  }

  /** `H` (mod.ts:134-139, 231-235) on the bytes it is given, all at least 16: safe bytes literally. */
  function H(b: Byte): seq<Unit>
    requires 16 <= b
  {
    if IsSafe(b) then [b] else Pct(b)
  }

  /** `%21%26`, written for a character the table does not hold. */
  const UNDEFINED: seq<Unit> := Pct(0x21) + Pct(0x26)

  /**
   * How one unit of a run is written: `I` of `ri_func` (mod.ts:140-147), the body of `rj_func`
   * (mod.ts:151), of `rij_func` and `fn2` (mod.ts:157-161, 244-248), and `I` of `fn1` of
   * `escapeJIS8` (mod.ts:236-243).
   */
  function UnitCode(k: Charset, c: Unit): seq<Unit>
    requires InSet(k, c)
  {
    match k
    case Ascii => if IsSafe(c) then [c] else Pct(c)
    case Katakana => H(c - 65344)
    case Kanji =>
      var idx := IndexOf(JCT8836, c);
      if idx < 0 then UNDEFINED else H(idx / 94 + 33) + H(idx % 94 + 33)
    case SingleByte => if IsSafe(c) then [c] else Pct(if c < 128 then c else c - 65216)
  }

  function Body(k: Charset, r: seq<Unit>): seq<Unit>
    requires AllIn(k, r)
    decreases |r|
  {
    if r == [] then [] else UnitCode(k, r[0]) + Body(k, r[1..])
  }

  /** The replacement of one run: its escape sequence, then its units. */
  function Convert(k: Charset, r: seq<Unit>): seq<Unit>
    requires AllIn(k, r)
  {
    Shift(k) + Body(k, r)
  }

  /** Length of the longest prefix of `s` in class `k`. */
  function SetRun(k: Charset, s: seq<Unit>): (n: nat)
    ensures n <= |s| && AllIn(k, s[..n])
    ensures n < |s| ==> !InSet(k, s[n])
    decreases |s|
  {
    if s == [] || !InSet(k, s[0]) then 0
    else
      var n := 1 + SetRun(k, s[1..]);
      assert s[..n] == [s[0]] + s[1..][..n - 1];
      n
  }

  /** `s.replace(/[class]+/g, convert)`: every maximal run of `k` replaced, other units copied. */
  function Pass(k: Charset, s: seq<Unit>): seq<Unit>
    decreases |s|
  {
    if s == [] then []
    else if InSet(k, s[0]) then
      var n := SetRun(k, s);
      Convert(k, s[..n]) + Pass(k, s[n..])
    else [s[0]] + Pass(k, s[1..])
  }

  // ---------------------------------------------------------------- the two schemes

  /** `escapeJIS7` has three passes, `escapeJIS8` two. */
  datatype Scheme = SevenBit | EightBit

  /** The class of the pass that replaces `c`. */
  function SetOf(sch: Scheme, c: Unit): (k: Charset)
    ensures InSet(k, c)
    ensures sch == SevenBit ==> k != SingleByte
    ensures sch == EightBit ==> k == SingleByte || k == Kanji
  {
    match sch
    case SevenBit => if c < 128 then Ascii else if IsKatakana(c) then Katakana else Kanji
    case EightBit => if c < 128 || IsKatakana(c) then SingleByte else Kanji
  }

  /** The class the stream starts and ends in, that of the sentinel `g`. */
  function Base(sch: Scheme): Charset
  {
    match sch
    case SevenBit => Ascii
    case EightBit => SingleByte
  }

  const SENTINEL: Unit := 103

  function Passes(sch: Scheme, x: seq<Unit>): seq<Unit>
  {
    match sch
    case SevenBit => Pass(Kanji, Pass(Katakana, Pass(Ascii, x)))
    case EightBit => Pass(Kanji, Pass(SingleByte, x))
  }

  /** `("g" + str + "g").replace(..)...slice(8, -1)`; a result shorter than 9 would slice to "". */
  function Escape(sch: Scheme, s: seq<Unit>): seq<Unit>
  {
    var r := Passes(sch, [SENTINEL] + s + [SENTINEL]);
    if |r| >= 9 then r[8..|r| - 1] else []
  }

  /** Length of the longest prefix of `s` whose units share the class of `s[0]`. */
  function ModeRun(sch: Scheme, s: seq<Unit>): (n: nat)
    requires s != []
    ensures 1 <= n <= |s|
    ensures forall j :: 0 <= j < n ==> SetOf(sch, s[j]) == SetOf(sch, s[0])
    ensures n < |s| ==> SetOf(sch, s[n]) != SetOf(sch, s[0])
  {
    var k := SetOf(sch, s[0]);
    ModeRunFrom(sch, s, k, 1)
  }

  function ModeRunFrom(sch: Scheme, s: seq<Unit>, k: Charset, i: nat): (n: nat)
    requires 1 <= i <= |s| && forall j :: 0 <= j < i ==> SetOf(sch, s[j]) == k
    ensures i <= n <= |s|
    ensures forall j :: 0 <= j < n ==> SetOf(sch, s[j]) == k
    ensures n < |s| ==> SetOf(sch, s[n]) != k
    decreases |s| - i
  {
    if i == |s| || SetOf(sch, s[i]) != k then i else ModeRunFrom(sch, s, k, i + 1)
  }

  lemma ModeRunIn(sch: Scheme, s: seq<Unit>)
    requires s != []
    ensures AllIn(SetOf(sch, s[0]), s[..ModeRun(sch, s)])
  {
    var n := ModeRun(sch, s);
    forall j | 0 <= j < n
      ensures InSet(SetOf(sch, s[0]), s[..n][j])
    {
      assert SetOf(sch, s[j]) == SetOf(sch, s[0]);
    }
  }

  /**
   * The stream form, in class `m`: each maximal run is written after the escape sequence of its
   * class, except a run in the class the stream is already in; at the end the stream is
   * shifted back to the base class if it is not there.
   */
  function EscFrom(sch: Scheme, s: seq<Unit>, m: Charset): seq<Unit>
    decreases |s|
  {
    if s == [] then (if m == Base(sch) then [] else Shift(Base(sch)))
    else
      var k := SetOf(sch, s[0]);
      var n := ModeRun(sch, s);
      ModeRunIn(sch, s);
      (if k == m then [] else Shift(k)) + Body(k, s[..n]) + EscFrom(sch, s[n..], k)
  }

  // ---------------------------------------------------------------- one pass

  predicate AsciiOnly(s: seq<Unit>)
  {
    forall j :: 0 <= j < |s| ==> s[j] < 128
  }

  lemma AsciiConcat(a: seq<Unit>, b: seq<Unit>)
    requires AsciiOnly(a) && AsciiOnly(b)
    ensures AsciiOnly(a + b)
  {
  }

  lemma UnitCodeAscii(k: Charset, c: Unit)
    requires InSet(k, c)
    ensures AsciiOnly(UnitCode(k, c))
  {
  }

  lemma {:induction false} BodyConcat(k: Charset, a: seq<Unit>, b: seq<Unit>)
    requires AllIn(k, a) && AllIn(k, b)
    ensures AllIn(k, a + b) && Body(k, a + b) == Body(k, a) + Body(k, b)
    decreases |a|
  {
    assert forall j :: 0 <= j < |a + b| ==> (a + b)[j] == if j < |a| then a[j] else b[j - |a|];
    if a == [] {
      assert a + b == b;
    } else {
      assert (a + b)[0] == a[0] && (a + b)[1..] == a[1..] + b;
      BodyConcat(k, a[1..], b);
      Assoc(UnitCode(k, a[0]), Body(k, a[1..]), Body(k, b));
    }
  }

  lemma BodyOne(k: Charset, c: Unit)
    requires InSet(k, c)
    ensures Body(k, [c]) == UnitCode(k, c)
  {
    assert [c][1..] == [];
  }

  lemma {:induction false} BodyAscii(k: Charset, r: seq<Unit>)
    requires AllIn(k, r)
    ensures AsciiOnly(Body(k, r))
    decreases |r|
  {
    if r != [] {
      UnitCodeAscii(k, r[0]);
      BodyAscii(k, r[1..]);
      AsciiConcat(UnitCode(k, r[0]), Body(k, r[1..]));
    }
  }

  /** The replacement of a run is ASCII and starts with `%`. */
  lemma ConvertAscii(k: Charset, r: seq<Unit>)
    requires AllIn(k, r)
    ensures AsciiOnly(Convert(k, r)) && |Convert(k, r)| >= 7 && Convert(k, r)[0] == PERCENT
  {
    BodyAscii(k, r);
    AsciiConcat(Shift(k), Body(k, r));
  }

  lemma {:induction false} SetRunAll(k: Charset, r: seq<Unit>)
    requires AllIn(k, r)
    ensures SetRun(k, r) == |r|
    decreases |r|
  {
    if r != [] {
      SetRunAll(k, r[1..]);
    }
  }

  /** A run does not reach into `b` when it ends inside `a` or `b` starts outside the class. */
  lemma {:induction false} SetRunPrefix(k: Charset, a: seq<Unit>, b: seq<Unit>)
    requires SetRun(k, a) < |a| || b == [] || !InSet(k, b[0])
    ensures SetRun(k, a + b) == SetRun(k, a)
    decreases |a|
  {
    if a == [] {
      assert a + b == b;
    } else if InSet(k, a[0]) {
      assert (a + b)[1..] == a[1..] + b;
      SetRunPrefix(k, a[1..], b);
    }
  }

  /** A pass leaves a text without units of its class alone. */
  lemma {:induction false} PassNone(k: Charset, s: seq<Unit>)
    requires forall j :: 0 <= j < |s| ==> !InSet(k, s[j])
    ensures Pass(k, s) == s
    decreases |s|
  {
    if s != [] {
      PassNone(k, s[1..]);
    }
  }

  /** A pass replaces a whole run of its class by one escape sequence. */
  lemma PassRun(k: Charset, r: seq<Unit>)
    requires r != [] && AllIn(k, r)
    ensures Pass(k, r) == Convert(k, r)
  {
    SetRunAll(k, r);
    assert r[..|r|] == r && r[|r|..] == [];
  }

  /** A pass works on the two halves separately unless a run of its class spans the cut. */
  lemma {:induction false} PassSplit(k: Charset, a: seq<Unit>, b: seq<Unit>)
    requires a == [] || b == [] || !InSet(k, a[|a| - 1]) || !InSet(k, b[0])
    ensures Pass(k, a + b) == Pass(k, a) + Pass(k, b)
    decreases |a|, 1
  {
    if a == [] {
      assert a + b == b;
    } else if !InSet(k, a[0]) {
      PassSplitCopy(k, a, b);
    } else {
      PassSplitRun(k, a, b);
    }
  }

  lemma {:induction false} PassSplitCopy(k: Charset, a: seq<Unit>, b: seq<Unit>)
    requires a != [] && !InSet(k, a[0])
    requires b == [] || !InSet(k, a[|a| - 1]) || !InSet(k, b[0])
    ensures Pass(k, a + b) == Pass(k, a) + Pass(k, b)
    decreases |a|, 0
  {
    var t := a[1..];
    var x := a + b;
    assert x[0] == a[0] && x[1..] == t + b;
    assert Pass(k, x) == [a[0]] + Pass(k, t + b);
    PassSplit(k, t, b);
    Assoc([a[0]], Pass(k, t), Pass(k, b));
  }

  lemma {:induction false} PassSplitRun(k: Charset, a: seq<Unit>, b: seq<Unit>)
    requires a != [] && InSet(k, a[0])
    requires b == [] || !InSet(k, a[|a| - 1]) || !InSet(k, b[0])
    ensures Pass(k, a + b) == Pass(k, a) + Pass(k, b)
    decreases |a|, 0
  {
    var n := SetRun(k, a);
    RunStaysIn(k, a, b);
    PassHead(k, a);
    PassRunThen(k, a, b, n);
    if n < |a| {
      assert a[n..][|a[n..]| - 1] == a[|a| - 1];
      PassSplit(k, a[n..], b);
    } else {
      RestEmpty(k, a, b, n);
    }
    Assoc(Convert(k, a[..n]), Pass(k, a[n..]), Pass(k, b));
  }

  /** The run at the start of `a` does not reach into `b`. */
  lemma RunStaysIn(k: Charset, a: seq<Unit>, b: seq<Unit>)
    requires a != [] && InSet(k, a[0])
    requires b == [] || !InSet(k, a[|a| - 1]) || !InSet(k, b[0])
    ensures SetRun(k, a + b) == SetRun(k, a)
  {
    var n := SetRun(k, a);
    if n == |a| {
      assert a[..n] == a;
      assert InSet(k, a[..n][|a| - 1]);
    }
    SetRunPrefix(k, a, b);
  }

  lemma PassRunThen(k: Charset, a: seq<Unit>, b: seq<Unit>, n: nat)
    requires a != [] && InSet(k, a[0]) && n == SetRun(k, a) && SetRun(k, a + b) == n
    ensures Pass(k, a + b) == Convert(k, a[..n]) + Pass(k, a[n..] + b)
  {
    var x := a + b;
    PassHead(k, x);
    assert x[..n] == a[..n] && x[n..] == a[n..] + b;
  }

  lemma RestEmpty(k: Charset, a: seq<Unit>, b: seq<Unit>, n: nat)
    requires n == |a|
    ensures Pass(k, a[n..] + b) == Pass(k, a[n..]) + Pass(k, b)
  {
    assert a[n..] == [] && a[n..] + b == b;
  }

  lemma PassHead(k: Charset, s: seq<Unit>)
    requires s != [] && InSet(k, s[0])
    ensures Pass(k, s) == Convert(k, s[..SetRun(k, s)]) + Pass(k, s[SetRun(k, s)..])
  {
  }

  /** After a pass the first unit is `%` or unchanged. */
  lemma PassFirst(k: Charset, s: seq<Unit>)
    requires s != []
    ensures Pass(k, s) != []
    ensures InSet(k, s[0]) ==> Pass(k, s)[0] < 128
    ensures !InSet(k, s[0]) ==> Pass(k, s)[0] == s[0]
  {
    if InSet(k, s[0]) {
      ConvertAscii(k, s[..SetRun(k, s)]);
    }
  }

  /** After a pass the last unit is ASCII or unchanged. */
  lemma {:induction false} PassLast(k: Charset, s: seq<Unit>)
    requires s != []
    ensures Pass(k, s) != []
    ensures InSet(k, s[|s| - 1]) ==> Pass(k, s)[|Pass(k, s)| - 1] < 128
    ensures !InSet(k, s[|s| - 1]) ==> Pass(k, s)[|Pass(k, s)| - 1] == s[|s| - 1]
    decreases |s|
  {
    if !InSet(k, s[0]) {
      if |s| > 1 {
        PassLast(k, s[1..]);
        LastOfCopy(k, s);
      }
    } else {
      var n := SetRun(k, s);
      PassHead(k, s);
      ConvertAscii(k, s[..n]);
      if n < |s| {
        PassLast(k, s[n..]);
        LastOfRun(k, s, n);
      } else {
        assert s[..n] == s && s[n..] == [];
      }
    }
  }

  lemma LastOfCopy(k: Charset, s: seq<Unit>)
    requires |s| > 1 && !InSet(k, s[0])
    ensures Pass(k, s) == [s[0]] + Pass(k, s[1..])
    ensures s[1..][|s| - 2] == s[|s| - 1]
  {
  }

  lemma LastOfRun(k: Charset, s: seq<Unit>, n: nat)
    requires n < |s|
    ensures s[n..][|s| - n - 1] == s[|s| - 1]
  {
  }

  // ---------------------------------------------------------------- all passes of a scheme

  /** Every unit of `r` is replaced by the pass of class `k`. */
  predicate Uniform(sch: Scheme, r: seq<Unit>, k: Charset)
  {
    forall j :: 0 <= j < |r| ==> SetOf(sch, r[j]) == k
  }

  lemma UniformIn(sch: Scheme, r: seq<Unit>, k: Charset)
    requires Uniform(sch, r, k)
    ensures AllIn(k, r)
  {
    forall j | 0 <= j < |r|
      ensures InSet(k, r[j])
    {
      assert SetOf(sch, r[j]) == k;
    }
  }

  /** A pass leaves ASCII text alone unless it is the pass of an ASCII class. */
  lemma PassAscii(k: Charset, s: seq<Unit>)
    requires AsciiOnly(s) && (k == Katakana || k == Kanji)
    ensures Pass(k, s) == s
  {
    PassNone(k, s);
  }

  /** A uniform run comes out of all passes as the replacement of its own class. */
  lemma PassesRun(sch: Scheme, r: seq<Unit>, k: Charset)
    requires r != [] && Uniform(sch, r, k)
    ensures AllIn(k, r) && Passes(sch, r) == Convert(k, r)
  {
    UniformIn(sch, r, k);
    ConvertAscii(k, r);
    assert SetOf(sch, r[0]) == k;
    match sch
    case SevenBit =>
      if k == Ascii {
        PassRun(Ascii, r);
        PassAscii(Katakana, Convert(k, r));
        PassAscii(Kanji, Convert(k, r));
      } else if k == Katakana {
        PassNone(Ascii, r);
        PassRun(Katakana, r);
        PassAscii(Kanji, Convert(k, r));
      } else {
        assert forall j :: 0 <= j < |r| ==> !InSet(Katakana, r[j]) && !InSet(Ascii, r[j]);
        PassNone(Ascii, r);
        PassNone(Katakana, r);
        PassRun(Kanji, r);
      }
    case EightBit =>
      if k == SingleByte {
        PassRun(SingleByte, r);
        PassAscii(Kanji, Convert(k, r));
      } else {
        PassNone(SingleByte, r);
        PassRun(Kanji, r);
      }
  }

  /** Where the class changes, all passes work on the two sides separately. */
  lemma PassesSplit(sch: Scheme, a: seq<Unit>, b: seq<Unit>)
    requires a != [] && b != [] && SetOf(sch, a[|a| - 1]) != SetOf(sch, b[0])
    ensures Passes(sch, a + b) == Passes(sch, a) + Passes(sch, b)
  {
    match sch
    case SevenBit =>
      PassSplit(Ascii, a, b);
      var a1, b1 := Pass(Ascii, a), Pass(Ascii, b);
      PassLast(Ascii, a);
      PassFirst(Ascii, b);
      PassSplit(Katakana, a1, b1);
      var a2, b2 := Pass(Katakana, a1), Pass(Katakana, b1);
      PassLast(Katakana, a1);
      PassFirst(Katakana, b1);
      PassSplit(Kanji, a2, b2);
    case EightBit =>
      PassSplit(SingleByte, a, b);
      var a1, b1 := Pass(SingleByte, a), Pass(SingleByte, b);
      PassLast(SingleByte, a);
      PassFirst(SingleByte, b);
      PassSplit(Kanji, a1, b1);
  }

  lemma BaseSentinel(sch: Scheme)
    ensures SetOf(sch, SENTINEL) == Base(sch)
    ensures InSet(Base(sch), SENTINEL) && Body(Base(sch), [SENTINEL]) == [SENTINEL]
  {
    BodyOne(Base(sch), SENTINEL);
  }

  /**
   * A run of class `k` followed by text that starts in another class and then by the closing
   * sentinel: the passes write the run after its escape sequence and the rest in stream form.
   */
  lemma {:induction false} Frame(sch: Scheme, r: seq<Unit>, k: Charset, s: seq<Unit>)
    requires r != [] && Uniform(sch, r, k)
    requires s == [] || SetOf(sch, s[0]) != k
    ensures AllIn(k, r)
    ensures Passes(sch, r + s + [SENTINEL]) == Shift(k) + Body(k, r) + EscFrom(sch, s, k) + [SENTINEL]
    decreases |s|, 1
  {
    UniformIn(sch, r, k);
    if s == [] {
      assert r + s + [SENTINEL] == r + [SENTINEL];
      FrameEnd(sch, r, k);
    } else {
      FrameMore(sch, r, k, s);
    }
  }

  lemma FrameEnd(sch: Scheme, r: seq<Unit>, k: Charset)
    requires r != [] && Uniform(sch, r, k)
    ensures AllIn(k, r)
    ensures Passes(sch, r + [SENTINEL]) == Shift(k) + Body(k, r) + EscFrom(sch, [], k) + [SENTINEL]
  {
    UniformIn(sch, r, k);
    if k == Base(sch) {
      FrameEndBase(sch, r);
    } else {
      FrameEndOther(sch, r, k);
    }
  }

  lemma FrameEndBase(sch: Scheme, r: seq<Unit>)
    requires r != [] && Uniform(sch, r, Base(sch)) && AllIn(Base(sch), r)
    ensures Passes(sch, r + [SENTINEL]) == Shift(Base(sch)) + Body(Base(sch), r) + EscFrom(sch, [], Base(sch)) + [SENTINEL]
  {
    var k := Base(sch);
    BaseSentinel(sch);
    UniformSentinel(sch, r);
    PassesRun(sch, r + [SENTINEL], k);
    BodyConcat(k, r, [SENTINEL]);
    assert EscFrom(sch, [], k) == [];
    Assoc(Shift(k), Body(k, r), [SENTINEL]);
  }

  lemma UniformSentinel(sch: Scheme, r: seq<Unit>)
    requires Uniform(sch, r, Base(sch))
    ensures Uniform(sch, r + [SENTINEL], Base(sch))
  {
    BaseSentinel(sch);
    var x := r + [SENTINEL];
    forall j | 0 <= j < |x|
      ensures SetOf(sch, x[j]) == Base(sch)
    {
      if j < |r| {
        assert x[j] == r[j];
      } else {
        assert x[j] == SENTINEL;
      }
    }
  }

  lemma FrameEndOther(sch: Scheme, r: seq<Unit>, k: Charset)
    requires r != [] && Uniform(sch, r, k) && AllIn(k, r) && k != Base(sch)
    ensures Passes(sch, r + [SENTINEL]) == Shift(k) + Body(k, r) + EscFrom(sch, [], k) + [SENTINEL]
  {
    var b := Base(sch);
    BaseSentinel(sch);
    assert SetOf(sch, r[|r| - 1]) == k;
    PassesSplit(sch, r, [SENTINEL]);
    PassesRun(sch, r, k);
    PassesRun(sch, [SENTINEL], b);
    assert Convert(b, [SENTINEL]) == Shift(b) + [SENTINEL];
    assert EscFrom(sch, [], k) == Shift(b);
    Assoc(Shift(k) + Body(k, r), Shift(b), [SENTINEL]);
  }

  lemma EscFromStep(sch: Scheme, s: seq<Unit>, m: Charset)
    requires s != []
    ensures var k := SetOf(sch, s[0]); var n := ModeRun(sch, s);
      AllIn(k, s[..n]) &&
      EscFrom(sch, s, m) == (if k == m then [] else Shift(k)) + Body(k, s[..n]) + EscFrom(sch, s[n..], k)
  {
    ModeRunIn(sch, s);
  }

  /** A run in the class the stream is in gets no escape sequence. */
  lemma EscFromSame(sch: Scheme, s: seq<Unit>, m: Charset)
    requires s != [] && SetOf(sch, s[0]) == m
    ensures AllIn(m, s[..ModeRun(sch, s)])
    ensures EscFrom(sch, s, m) == Body(m, s[..ModeRun(sch, s)]) + EscFrom(sch, s[ModeRun(sch, s)..], m)
  {
    EscFromStep(sch, s, m);
    var n := ModeRun(sch, s);
    assert [] + Body(m, s[..n]) == Body(m, s[..n]);
  }

  lemma {:induction false} FrameMore(sch: Scheme, r: seq<Unit>, k: Charset, s: seq<Unit>)
    requires r != [] && Uniform(sch, r, k)
    requires s != [] && SetOf(sch, s[0]) != k
    ensures AllIn(k, r)
    ensures Passes(sch, r + s + [SENTINEL]) == Shift(k) + Body(k, r) + EscFrom(sch, s, k) + [SENTINEL]
    decreases |s|, 0
  {
    UniformIn(sch, r, k);
    var k' := SetOf(sch, s[0]);
    var n := ModeRun(sch, s);
    var r', s' := s[..n], s[n..];
    assert Uniform(sch, r', k');
    UniformIn(sch, r', k');
    assert SetOf(sch, r[|r| - 1]) == k;
    assert s + [SENTINEL] == r' + s' + [SENTINEL];
    assert r + s + [SENTINEL] == r + (s + [SENTINEL]);
    PassesSplit(sch, r, s + [SENTINEL]);
    PassesRun(sch, r, k);
    Frame(sch, r', k', s');
    EscFromStep(sch, s, k);
    var tail := Body(k', r') + EscFrom(sch, s', k');
    Assoc(Shift(k'), Body(k', r'), EscFrom(sch, s', k'));
    assert EscFrom(sch, s, k) == Shift(k') + tail;
    var a := Shift(k) + Body(k, r);
    assert Passes(sch, r + s + [SENTINEL]) == a + Passes(sch, s + [SENTINEL]);
    assert Passes(sch, s + [SENTINEL]) == Shift(k') + tail + [SENTINEL];
    Assoc(a, Shift(k') + tail, [SENTINEL]);
  }

  lemma Unframe(p: seq<Unit>, e: seq<Unit>)
    requires |p| == 8
    ensures var r := p + e + [SENTINEL]; |r| >= 9 && r[8..|r| - 1] == e
  {
    var r := p + e + [SENTINEL];
    assert r[8..|r| - 1] == (p + e)[8..];
  }

  /** The passes write exactly the stream form. */
  lemma EscapeStream(sch: Scheme, s: seq<Unit>)
    ensures Escape(sch, s) == EscFrom(sch, s, Base(sch))
  {
    var b := Base(sch);
    BaseSentinel(sch);
    var x := [SENTINEL] + s + [SENTINEL];
    var e := EscFrom(sch, s, b);
    if s == [] || SetOf(sch, s[0]) != b {
      Frame(sch, [SENTINEL], b, s);
    } else {
      StreamOpen(sch, s);
    }
    assert Passes(sch, x) == Shift(b) + [SENTINEL] + e + [SENTINEL];
    Unframe(Shift(b) + [SENTINEL], e);
  }

  /** Text that starts in the base class joins the opening sentinel's run. */
  lemma StreamOpen(sch: Scheme, s: seq<Unit>)
    requires s != [] && SetOf(sch, s[0]) == Base(sch)
    ensures Passes(sch, [SENTINEL] + s + [SENTINEL])
      == Shift(Base(sch)) + [SENTINEL] + EscFrom(sch, s, Base(sch)) + [SENTINEL]
  {
    var b := Base(sch);
    var n := ModeRun(sch, s);
    var t := s[..n];
    assert Uniform(sch, t, b);
    SentinelRun(sch, t);
    OpenSplit(s, n);
    Frame(sch, [SENTINEL] + t, b, s[n..]);
    EscFromSame(sch, s, b);
    Regroup(Shift(b), [SENTINEL], Body(b, t), EscFrom(sch, s[n..], b), [SENTINEL]);
  }

  lemma OpenSplit(s: seq<Unit>, n: nat)
    requires n <= |s|
    ensures [SENTINEL] + s + [SENTINEL] == [SENTINEL] + s[..n] + s[n..] + [SENTINEL]
  {
    assert s == s[..n] + s[n..];
  }

  lemma Regroup(a: seq<Unit>, p: seq<Unit>, b: seq<Unit>, e: seq<Unit>, g: seq<Unit>)
    ensures a + (p + b) + e + g == a + p + (b + e) + g
  {
  }

  lemma SentinelRun(sch: Scheme, t: seq<Unit>)
    requires Uniform(sch, t, Base(sch))
    ensures Uniform(sch, [SENTINEL] + t, Base(sch)) && AllIn(Base(sch), t)
    ensures Body(Base(sch), [SENTINEL] + t) == [SENTINEL] + Body(Base(sch), t)
  {
    BaseSentinel(sch);
    UniformIn(sch, t, Base(sch));
    BodyConcat(Base(sch), [SENTINEL], t);
  }

  // ---------------------------------------------------------------- the run converters

  lemma BodySnoc(k: Charset, r: seq<Unit>, c: Unit)
    requires AllIn(k, r) && InSet(k, c)
    ensures AllIn(k, r + [c]) && Body(k, r + [c]) == Body(k, r) + UnitCode(k, c)
  {
    BodyOne(k, c);
    BodyConcat(k, r, [c]);
  }

  /** One more unit of the run written. */
  lemma Step(k: Charset, s: seq<Unit>, i: nat)
    requires AllIn(k, s) && i < |s|
    ensures AllIn(k, s[..i]) && AllIn(k, s[..i + 1])
    ensures Shift(k) + Body(k, s[..i + 1]) == Shift(k) + Body(k, s[..i]) + UnitCode(k, s[i])
  {
    assert s[..i + 1] == s[..i] + [s[i]];
    BodySnoc(k, s[..i], s[i]);
    Assoc(Shift(k), Body(k, s[..i]), UnitCode(k, s[i]));
  }

  /**
   * `rj_func` (mod.ts:149-153): appends `H(c - 65344)` for each unit until `charCodeAt` gives
   * 0 or runs off the end; a katakana run holds no 0, so the whole run is written.
   */
  method KanaRun(s: seq<Unit>) returns (t: seq<Unit>)
    requires AllIn(Katakana, s)
    ensures t == Convert(Katakana, s)
  {
    t := Shift(Katakana);
    var i := 0;
    assert s[..0] == [];
    while i < |s| && s[i] != 0
      invariant 0 <= i <= |s|
      invariant t == Shift(Katakana) + Body(Katakana, s[..i])
    {
      Step(Katakana, s, i);
      assert H(s[i] - 65344) == UnitCode(Katakana, s[i]);
      t := t + H(s[i] - 65344);
      i := i + 1;
    }
    assert s[..i] == s;
  }

  /** `(c - (c %= 94)) / 94`, the source's row, is `c / 94`. */
  lemma CellRemoved(c: nat)
    requires c < 8836
    ensures (c - c % 94) / 94 == c / 94 && c / 94 < 94 && c % 94 < 94
  {
    assert c == 94 * (c / 94) + c % 94;
    assert c - c % 94 == 94 * (c / 94);
  }

  /** The row and cell of a table index, offset by 33, are what `UnitCode` writes. */
  lemma KanjiCell(u: Unit, row: int, cell: int)
    requires InSet(Kanji, u) && IndexOf(JCT8836, u) >= 0
    requires row == IndexOf(JCT8836, u) / 94 && cell == IndexOf(JCT8836, u) % 94
    ensures 0 <= row < 94 && 0 <= cell < 94 && H(row + 33) + H(cell + 33) == UnitCode(Kanji, u)
  {
    RowCell(IndexOf(JCT8836, u));
  }

  /**
   * `rij_func` and `fn2` (mod.ts:155-163, 242-250): for each unit until `charAt` gives the
   * empty string, the row and cell of its table index, offset by 33, or `%21%26` when the
   * table does not hold it.
   */
  method KanjiRun(s: seq<Unit>) returns (t: seq<Unit>)
    requires AllIn(Kanji, s)
    ensures t == Convert(Kanji, s)
  {
    t := Shift(Kanji);
    var i := 0;
    assert s[..0] == [];
    while i < |s|
      invariant 0 <= i <= |s|
      invariant t == Shift(Kanji) + Body(Kanji, s[..i])
    {
      var c := IndexOf(JCT8836, s[i]);
      var code: seq<Unit>;
      if c < 0 {
        code := UNDEFINED;
      } else {
        var cell := c % 94;
        var row := (c - cell) / 94;
        CellRemoved(c);
        KanjiCell(s[i], row, cell);
        code := H(row + 33) + H(cell + 33);
      }
      Step(Kanji, s, i);
      t := t + code;
      i := i + 1;
    }
    assert s[..i] == s;
  }
}
