/**
 * `getEscapeCodeType` (mod.ts:490-545): seven ordered pattern tests, then a scan of the leading
 * bytes that keeps a provisional verdict.
 */
module Classifier {
  import opened Units

  /** The seven tags of mod.ts:18-24. */
  datatype Encode = UNICODE | UTF16LE | UTF8 | EUCJP | JIS8 | JIS7 | SJIS

  // ---------------------------------------------------------------- the pattern tests

  /** One position of a pattern: a literal unit, or a hexadecimal digit whose value is in a class. */
  datatype Cls = Lit(c: Unit) | Hex(lo: int, hi: int) | HexOr(a: int, b: int)

  /** Whether a unit fits a position; every pattern carries the `i` flag. */
  predicate Fits(u: Unit, k: Cls)
  {
    match k
    case Lit(c) => u == c || (65 <= c <= 90 && u == c + 32) || (97 <= c <= 122 && u == c - 32)
    case Hex(lo, hi) => HexIn(u, lo, hi)
    case HexOr(a, b) => IsHex(u) && (HexVal(u) == a || HexVal(u) == b)
  }

  /** `s[i..]` starts with a match of the fixed-length pattern `p`. */
  predicate MatchAt(s: seq<Unit>, i: int, p: seq<Cls>)
  {
    0 <= i && i + |p| <= |s| && forall j :: 0 <= j < |p| ==> Fits(s[i + j], p[j])
  }

  /** `rx.test(s)` for an alternation of fixed-length patterns. */
  predicate Test(s: seq<Unit>, rx: seq<seq<Cls>>)
  {
    exists a, i :: 0 <= a < |rx| && 0 <= i <= |s| && MatchAt(s, i, rx[a])
  }

  const P: Cls := Lit(PERCENT)
  const X: Cls := Hex(0, 15)
  const Z: Cls := Hex(0, 0)
  const EA: Cls := HexOr(8, 10)

  /** `/%u[0-9A-F]{4}/i` */
  const RX1: seq<seq<Cls>> := [[P, Lit(117), X, X, X, X]]

  /** `/%([0-9A-DF][0-9A-F]%[8A]0%|E0%80|[0-7][0-9A-F]|C[01])%[8A]0|%00|%[7F]F/i` */
  const RX2: seq<seq<Cls>> := [
    [P, Hex(0, 13), X, P, EA, Z, P, P, EA, Z],
    [P, Hex(15, 15), X, P, EA, Z, P, P, EA, Z],
    [P, Hex(14, 14), Z, P, Hex(8, 8), Z, P, EA, Z],
    [P, Hex(0, 7), X, P, EA, Z],
    [P, Hex(12, 12), Hex(0, 1), P, EA, Z],
    [P, Z, Z],
    [P, HexOr(7, 15), Hex(15, 15)]]

  /** `/%E[0-9A-F]%[8A]0%[8A]0|%[CD][0-9A-F]%[8A]0/i` */
  const RX3: seq<seq<Cls>> := [[P, Hex(14, 14), X, P, EA, Z, P, EA, Z], [P, Hex(12, 13), X, P, EA, Z]]

  /** `/%F[DE]/i` */
  const RX4: seq<seq<Cls>> := [[P, Hex(15, 15), Hex(13, 14)]]

  /** `/%8[0-9A-D]|%9[0-9A-F]|%A0/i` */
  const RX5: seq<seq<Cls>> := [[P, Hex(8, 8), Hex(0, 13)], [P, Hex(9, 9), X], [P, Hex(10, 10), Z]]

  /** `/%1B/i` */
  const RX6: seq<seq<Cls>> := [[P, Hex(1, 1), Hex(11, 11)]]

  /** `/%[A-D][0-9A-F]/i` */
  const RX7: seq<seq<Cls>> := [[P, Hex(10, 13), X]]

  // ---------------------------------------------------------------- the byte scan

  /**
   * `str.substring(0, 6143).replace(/%[0-9A-F]{2}|[^ ]| /ig, func1)`, read two hexadecimal digits
   * at a time: an escape gives its byte, any other unit the byte 0x40.
   */
  function ScanBytes(t: seq<Unit>): (b: seq<Byte>)
    ensures |b| <= |t|
    decreases |t|
  {
    if t == [] then []
    else if PctAt(t, 0) then [PctVal(t, 0)] + ScanBytes(t[3..])
    else [0x40] + ScanBytes(t[1..])
  }

  /** The `%XX` escapes of a byte string, one after the other. */
  function Escaped(bs: seq<Byte>): seq<Unit>
    decreases |bs|
  {
    if bs == [] then [] else Pct(bs[0]) + Escaped(bs[1..])
  }

  /** Every escaped byte is read as that byte, whatever follows the escapes. */
  lemma {:induction false} ScanEscaped(bs: seq<Byte>, rest: seq<Unit>)
    ensures ScanBytes(Escaped(bs) + rest) == bs + ScanBytes(rest)
    decreases |bs|
  {
    if bs != [] {
      var t := Escaped(bs[1..]) + rest;
      assert Escaped(bs) + rest == Pct(bs[0]) + t;
      PctRead(bs[0], t);
      assert (Pct(bs[0]) + t)[3..] == t;
      ScanEscaped(bs[1..], rest);
      assert [bs[0]] + bs[1..] == bs;
    } else {
      assert Escaped(bs) + rest == rest;
    }
  }

  /** Every unit that starts no escape, `%` included when no two digits follow, is read as 0x40. */
  lemma {:induction false} ScanPlain(u: seq<Unit>, rest: seq<Unit>)
    requires NoPercent(u)
    ensures ScanBytes(u + rest) == seq(|u|, _ => 0x40) + ScanBytes(rest)
    decreases |u|
  {
    if u != [] {
      assert (u + rest)[0] == u[0] && (u + rest)[1..] == u[1..] + rest;
      assert NoPercent(u[1..]);
      ScanPlain(u[1..], rest);
      assert [0x40] + seq(|u| - 1, _ => 0x40) == seq(|u|, _ => 0x40);
    } else {
      assert u + rest == rest;
    }
  }

  /** A `%` followed by anything but two hexadecimal digits is read as 0x40 too. */
  lemma LonePercent(rest: seq<Unit>)
    requires !(2 <= |rest| && IsHex(rest[0]) && IsHex(rest[1]))
    ensures ScanBytes([PERCENT] + rest) == [0x40] + ScanBytes(rest)
  {
    assert ([PERCENT] + rest)[1..] == rest;
  }

  /** `str.substring(0, 6143)` */
  function Window(s: seq<Unit>): (t: seq<Unit>)
    ensures |t| <= 6143 && t <= s && (|s| <= 6143 ==> t == s) && (|s| > 6143 ==> |t| == 6143)
  {
    if |s| <= 6143 then s else s[..6143]
  }

  /** The provisional verdict `T`, unset at the start. */
  datatype Provisional = Unset | Set(e: Encode)

  /** The tags the scan can assign. */
  predicate ScanTag(e: Encode)
  {
    e == UTF8 || e == EUCJP || e == SJIS
  }

  predicate ScanGuess(T: Provisional)
  {
    T == Unset || ScanTag(T.e)
  }

  /** `return T ? T : EUCJP` */
  function Final(T: Provisional): (e: Encode)
    ensures ScanGuess(T) ==> ScanTag(e)
  {
    if T.Set? then T.e else EUCJP
  }

  /** The outcome of one pass of the loop: `return SJIS`, or the next lead position and `T`. */
  datatype Step = Done(e: Encode) | Next(p: nat, T: Provisional)

  /**
   * mod.ts:533-541 with `i` at `i`: the half-width katakana prefix 0x8E of EUC-JP, a lead below
   * 0xA1 (Shift_JIS only), the EUC-JP kana rows 0xA4/0xA5, and otherwise by the trail byte.
   * `hasC` is false where `parseInt` gives `NaN`, for which every comparison fails.
   */
  function Settle(b: seq<Byte>, i: nat, c: Byte, hasC: bool, C: Byte, T: Provisional): (st: Step)
    requires i <= |b| && (hasC && C >= 128 ==> i < |b|)
    ensures st.Done? ==> st.e == SJIS
    ensures st.Next? ==> i <= st.p <= |b| && (ScanGuess(T) ==> ScanGuess(st.T))
  {
    if c == 142 && hasC && 161 <= C < 224 && (T == Unset || T == Set(EUCJP)) then Next(i, Set(EUCJP))
    else if c < 161 then Done(SJIS)
    else if c < 224 && T == Unset then
      if hasC && 161 <= C && ((c == 164 && C < 244) || (c == 165 && C < 247)) then Next(i + 1, T)
      else Next(i, Set(if hasC && 224 <= C then EUCJP else SJIS))
    else Next(i, Set(EUCJP))
  }

  /**
   * One pass of the loop of mod.ts:518-543 with the lead byte `c` at `p` (the source's `i` is
   * `2 * p`): ASCII is skipped, a lead with an ASCII trail skips the trail, and a UTF-8 lead
   * C2-DF or E0-EF with continuation bytes sets UTF8 and skips them.
   */
  function ScanStep(b: seq<Byte>, p: nat, T: Provisional): (st: Step)
    requires p < |b|
    ensures st.Done? ==> st.e == SJIS
    ensures st.Next? ==> p < st.p <= |b| && (ScanGuess(T) ==> ScanGuess(st.T))
  {
    var c := b[p];
    var q := p + 1;
    var hasC := q < |b|;
    var C := if hasC then b[q] else 0;
    if c < 128 then Next(q, T)
    else if hasC && C < 128 then Settle(b, q + 1, c, hasC, C, T)
    else if 194 <= c < 240 && hasC && C < 192 && c < 224 then Next(q + 1, Set(UTF8))
    else if 194 <= c < 240 && hasC && C < 192 && q + 1 < |b| && 128 <= b[q + 1] < 192 then
      Next(q + 2, Set(UTF8))
    else Settle(b, q, c, hasC, C, T)
  }

  /** The loop from lead position `p`: it runs while a byte is left and `i < 4092`. */
  function ScanFrom(b: seq<Byte>, p: nat, T: Provisional): (e: Encode)
    requires p <= |b|
    ensures ScanGuess(T) ==> ScanTag(e)
    decreases |b| - p
  {
    if p < |b| && p + 1 < 2046 then
      match ScanStep(b, p, T)
      case Done(e) => e
      case Next(p', T') => ScanFrom(b, p', T')
    else Final(T)
  }

  /** The loop of mod.ts:514-544, proved to compute `ScanFrom`. */
  method Scan(b: seq<Byte>) returns (r: Encode)
    ensures r == ScanFrom(b, 0, Unset)
  {
    var p := 0;
    var T := Unset;
    while p < |b| && p + 1 < 2046
      invariant p <= |b|
      invariant ScanFrom(b, p, T) == ScanFrom(b, 0, Unset)
      decreases |b| - p
    {
      ghost var st := ScanStep(b, p, T);
      assert ScanFrom(b, p, T) == if st.Done? then st.e else ScanFrom(b, st.p, st.T);
      var c := b[p];
      p := p + 1;
      if 128 <= c {
        var hasC := p < |b|;
        var C := if hasC then b[p] else 0;
        if hasC && C < 128 {
          p := p + 1;
        } else if 194 <= c < 240 && hasC && C < 192 {
          if c < 224 {
            T := Set(UTF8);
            p := p + 1;
            continue;
          }
          if p + 1 < |b| && 128 <= b[p + 1] < 192 {
            T := Set(UTF8);
            p := p + 2;
            continue;
          }
        }
        if c == 142 && hasC && 161 <= C < 224 {
          if T == Unset {
            T := Set(EUCJP);
          }
          if T == Set(EUCJP) {
            continue;
          }
        }
        if c < 161 {
          return SJIS;
        }
        if c < 224 && T == Unset {
          if hasC && 161 <= C && ((c == 164 && C < 244) || (c == 165 && C < 247)) {
            p := p + 1;
          } else {
            T := Set(if hasC && 224 <= C then EUCJP else SJIS);
          }
        } else {
          T := Set(EUCJP);
        }
      }
    }
    r := Final(T);
  }

  // ---------------------------------------------------------------- the classifier

  /** `getEscapeCodeType`: the first pattern that matches decides, then the scan. */
  function EscapeCodeType(s: seq<Unit>): Encode
  {
    if Test(s, RX1) then UNICODE
    else if Test(s, RX2) then UTF16LE
    else if Test(s, RX3) then UTF8
    else if Test(s, RX4) then (if Test(s, RX5) then UTF16LE else EUCJP)
    else if Test(s, RX6) then (if Test(s, RX7) then JIS8 else JIS7)
    else ScanFrom(ScanBytes(Window(s)), 0, Unset)
  }

  /** `getEscapeCodeType` with its scan loop. */
  method GetEscapeCodeType(s: seq<Unit>) returns (r: Encode)
    ensures r == EscapeCodeType(s)
  {
    if Test(s, RX1) {
      r := UNICODE;
    } else if Test(s, RX2) {
      r := UTF16LE;
    } else if Test(s, RX3) {
      r := UTF8;
    } else if Test(s, RX4) {
      r := if Test(s, RX5) then UTF16LE else EUCJP;
    } else if Test(s, RX6) {
      r := if Test(s, RX7) then JIS8 else JIS7;
    } else {
      r := Scan(ScanBytes(Window(s)));
    }
  }

  // ---------------------------------------------------------------- properties of the scan

  /** Bytes below 0x80 never change the verdict: an ASCII scan ends with `T`, EUCJP when unset. */
  lemma {:induction false} AsciiScan(b: seq<Byte>, p: nat, T: Provisional)
    requires p <= |b| && forall j :: p <= j < |b| ==> b[j] < 128
    ensures ScanFrom(b, p, T) == Final(T)
    decreases |b| - p
  {
    if p < |b| && p + 1 < 2046 {
      assert ScanStep(b, p, T) == Next(p + 1, T);
      AsciiScan(b, p + 1, T);
    }
  }

  /** A lead byte 0x80-0xA0 is Shift_JIS at once, except 0x8E before A1-DF with `T` unset or EUCJP. */
  lemma SjisLead(b: seq<Byte>, p: nat, T: Provisional)
    requires p + 1 < 2046 && p < |b| && 0x80 <= b[p] <= 0xA0
    requires !(b[p] == 0x8E && p + 1 < |b| && 0xA1 <= b[p + 1] <= 0xDF && (T == Unset || T == Set(EUCJP)))
    ensures ScanFrom(b, p, T) == SJIS
  {
    assert ScanStep(b, p, T) == Done(SJIS);
  }

  /** 0x8E before A1-DF (EUC-JP half-width katakana) sets EUCJP and reads the next byte as a lead. */
  lemma EucKana(b: seq<Byte>, p: nat, T: Provisional)
    requires p + 1 < 2046 && p + 1 < |b| && b[p] == 0x8E && 0xA1 <= b[p + 1] <= 0xDF
    requires T == Unset || T == Set(EUCJP)
    ensures ScanFrom(b, p, T) == ScanFrom(b, p + 1, Set(EUCJP))
  {
    assert ScanStep(b, p, T) == Next(p + 1, Set(EUCJP));
  }

  /** A two-byte UTF-8 sequence C2-DF 80-BF sets UTF8 and is skipped. */
  lemma Utf8Two(b: seq<Byte>, p: nat, T: Provisional)
    requires p + 1 < 2046 && p + 1 < |b| && 0xC2 <= b[p] <= 0xDF && 0x80 <= b[p + 1] <= 0xBF
    ensures ScanFrom(b, p, T) == ScanFrom(b, p + 2, Set(UTF8))
  {
    assert ScanStep(b, p, T) == Next(p + 2, Set(UTF8));
  }

  /** A three-byte UTF-8 sequence E0-EF 80-BF 80-BF sets UTF8 and is skipped. */
  lemma Utf8Three(b: seq<Byte>, p: nat, T: Provisional)
    requires p + 1 < 2046 && p + 2 < |b| && 0xE0 <= b[p] <= 0xEF
    requires 0x80 <= b[p + 1] <= 0xBF && 0x80 <= b[p + 2] <= 0xBF
    ensures ScanFrom(b, p, T) == ScanFrom(b, p + 3, Set(UTF8))
  {
    assert ScanStep(b, p, T) == Next(p + 3, Set(UTF8));
  }

  /** The scan reads no byte beyond the 2047th: the loop stops once `i` reaches 4092. */
  lemma {:induction false} ScanWindow(b: seq<Byte>, n: nat, p: nat, T: Provisional)
    requires 2047 <= n <= |b| && p <= n
    ensures ScanFrom(b[..n], p, T) == ScanFrom(b, p, T)
    decreases |b| - p
  {
    var w := b[..n];
    if p < n && p + 1 < 2046 {
      assert w[p] == b[p] && w[p + 1] == b[p + 1] && w[p + 2] == b[p + 2];
      assert ScanStep(w, p, T) == ScanStep(b, p, T);
      match ScanStep(b, p, T)
      case Done(e) =>
      case Next(p', T') =>
        ScanWindow(b, n, p', T');
    }
  }

  // ---------------------------------------------------------------- properties of the classifier

  predicate NoPercent(s: seq<Unit>)
  {
    forall i :: 0 <= i < |s| ==> s[i] != PERCENT
  }

  /** Every alternative of the tests starts with `%`, so text without `%` matches none of them. */
  lemma NoMatch(s: seq<Unit>, rx: seq<seq<Cls>>)
    requires NoPercent(s) && forall a :: 0 <= a < |rx| ==> |rx[a]| > 0 && rx[a][0] == P
    ensures !Test(s, rx)
  {
    forall a, i | 0 <= a < |rx| && 0 <= i <= |s|
      ensures !MatchAt(s, i, rx[a])
    {
      if i < |s| {
        assert !Fits(s[i + 0], rx[a][0]);
      }
    }
  }

  /** Text without `%` gives only the byte 0x40. */
  lemma {:induction false} NoPercentBytes(t: seq<Unit>)
    requires NoPercent(t)
    ensures forall j :: 0 <= j < |ScanBytes(t)| ==> ScanBytes(t)[j] == 0x40
    decreases |t|
  {
    if t != [] {
      assert !PctAt(t, 0);
      NoPercentBytes(t[1..]);
    }
  }

  /** Unescaped text, with no `%` at all, is classified EUCJP. */
  lemma PlainText(s: seq<Unit>)
    requires NoPercent(s)
    ensures EscapeCodeType(s) == EUCJP
  {
    NoMatch(s, RX1);
    NoMatch(s, RX2);
    NoMatch(s, RX3);
    NoMatch(s, RX4);
    NoMatch(s, RX6);
    var t := Window(s);
    assert NoPercent(t);
    NoPercentBytes(t);
    AsciiScan(ScanBytes(t), 0, Unset);
  }

  /** Every escape in `s` is `%XX` of a byte 0x01-0x7E, as the JIS7 stream form writes them. */
  predicate LowEscapes(s: seq<Unit>)
  {
    forall k :: 0 <= k < |s| && s[k] == PERCENT ==> PctIn(s, k, 1, 0x7E)
  }

  /** A literal that no hexadecimal digit fits, in either case. */
  predicate NonHexLit(c: int)
  {
    !IsHex(c) && !IsHex(c + 32) && !IsHex(c - 32)
  }

  predicate Digit(k: Cls, d: int)
  {
    match k
    case Lit(_) => false
    case Hex(lo, hi) => lo <= d <= hi
    case HexOr(a, b) => d == a || d == b
  }

  /** `%` followed by `k1 k2` cannot denote a byte 0x01-0x7E. */
  predicate OutOfLow(k1: Cls, k2: Cls)
  {
    (k1.Lit? && NonHexLit(k1.c)) ||
    (!k1.Lit? && !k2.Lit? &&
      forall d1, d2 :: 0 <= d1 < 16 && 0 <= d2 < 16 && Digit(k1, d1) && Digit(k2, d2) ==>
        d1 * 16 + d2 == 0 || d1 * 16 + d2 > 0x7E)
  }

  /** The escape at offset `o` of pattern `p` is outside 0x01-0x7E. */
  predicate Blocks(p: seq<Cls>, o: nat)
  {
    o + 3 <= |p| && p[o] == P && OutOfLow(p[o + 1], p[o + 2])
  }

  predicate Blocked(rx: seq<seq<Cls>>)
  {
    forall a :: 0 <= a < |rx| ==> Blocks(rx[a], 0) || Blocks(rx[a], 3)
  }

  lemma DigitsOut(u1: Unit, u2: Unit, k1: Cls, k2: Cls)
    requires IsHex(u1) && IsHex(u2) && 1 <= HexVal(u1) * 16 + HexVal(u2) <= 0x7E
    requires OutOfLow(k1, k2)
    ensures !Fits(u1, k1) || !Fits(u2, k2)
  {
    if !k1.Lit? {
      var d1, d2 := HexVal(u1), HexVal(u2);
      if Fits(u1, k1) && Fits(u2, k2) {
        assert Digit(k1, d1) && Digit(k2, d2);
      }
    }
  }

  /** A pattern whose every alternative needs an escape outside 0x01-0x7E never matches. */
  lemma LowNoMatch(s: seq<Unit>, rx: seq<seq<Cls>>)
    requires LowEscapes(s) && Blocked(rx)
    ensures !Test(s, rx)
  {
    forall a, i | 0 <= a < |rx| && 0 <= i <= |s|
      ensures !MatchAt(s, i, rx[a])
    {
      var p := rx[a];
      var o := if Blocks(p, 0) then 0 else 3;
      if i + |p| <= |s| {
        var k := i + o;
        if s[k] == PERCENT {
          assert PctIn(s, k, 1, 0x7E);
          DigitsOut(s[k + 1], s[k + 2], p[o + 1], p[o + 2]);
          assert !Fits(s[i + (o + 1)], p[o + 1]) || !Fits(s[i + (o + 2)], p[o + 2]);
        } else {
          assert !Fits(s[i + o], p[o]);
        }
      }
    }
  }

  /** Text whose escapes all stay in 0x01-0x7E and that holds a `%1B` is classified JIS7. */
  lemma LowEscapesJis7(s: seq<Unit>)
    requires LowEscapes(s) && Test(s, RX6)
    ensures EscapeCodeType(s) == JIS7
  {
    LowNoMatch(s, RX1);
    LowNoMatch(s, RX2);
    LowNoMatch(s, RX3);
    LowNoMatch(s, RX4);
    LowNoMatch(s, RX7);
  }

  /** `%1B%28B`, the ASCII shift, is classified JIS7. */
  lemma JisExample()
    ensures EscapeCodeType([37, 49, 66, 37, 50, 56, 66]) == JIS7
  {
    var s: seq<Unit> := [37, 49, 66, 37, 50, 56, 66];
    assert MatchAt(s, 0, RX6[0]);
    assert PctIn(s, 0, 1, 0x7E) && PctIn(s, 3, 1, 0x7E);
    LowEscapesJis7(s);
  }

  /** A pattern does not match where one of its positions does not fit. */
  lemma Refuse(s: seq<Unit>, i: nat, p: seq<Cls>, j: nat)
    requires j < |p| && (i + |p| <= |s| ==> !Fits(s[i + j], p[j]))
    ensures !MatchAt(s, i, p)
  {
  }

  /**
   * No test matches `s` when, wherever an alternative would fit in the text, its first position
   * refuses a unit other than `%` and its second position refuses the unit after a `%`.
   */
  lemma NoTestMatches(s: seq<Unit>, rx: seq<seq<Cls>>)
    requires forall a :: 0 <= a < |rx| ==> 2 <= |rx[a]| && rx[a][0] == P
    requires forall a, i :: 0 <= a < |rx| && 0 <= i && i + |rx[a]| <= |s| && s[i] == PERCENT ==>
      !Fits(s[i + 1], rx[a][1])
    ensures !Test(s, rx)
  {
    forall a, i | 0 <= a < |rx| && 0 <= i <= |s| ensures !MatchAt(s, i, rx[a]) {
      if i + |rx[a]| <= |s| {
        if s[i] == PERCENT {
          Refuse(s, i, rx[a], 1);
        } else {
          Refuse(s, i, rx[a], 0);
        }
      }
    }
  }

  /** The escaped Shift_JIS bytes of あ, `%82%A0`, match no test; the lead 0x82 is below 0xA1. */
  lemma SjisExample()
    ensures EscapeCodeType([37, 56, 50, 37, 65, 48]) == SJIS
  {
    var s: seq<Unit> := [37, 56, 50, 37, 65, 48];
    NoTestMatches(s, RX1);
    NoTestMatches(s, RX2);
    NoTestMatches(s, RX3);
    NoTestMatches(s, RX4);
    NoTestMatches(s, RX6);
    assert ScanBytes(Window(s)) == [0x82, 0xA0];
  }

  /** The escaped EUC-JP bytes of あ, `%A4%A2`, match no test, and the pair A4 A2 settles nothing. */
  lemma EucJpExample()
    ensures EscapeCodeType([37, 65, 52, 37, 65, 50]) == EUCJP
  {
    var s: seq<Unit> := [37, 65, 52, 37, 65, 50];
    NoTestMatches(s, RX1);
    NoTestMatches(s, RX2);
    NoTestMatches(s, RX3);
    NoTestMatches(s, RX4);
    NoTestMatches(s, RX6);
    assert ScanBytes(Window(s)) == [0xA4, 0xA2];
  }
}
