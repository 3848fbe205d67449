/**
 * `escapeUTF7` / `unescapeUTF7` (mod.ts:330-392): runs of units outside the safe set are
 * written in the modified base64 of Rule 2 of RFC 2152, between `+` and `-`.
 */
module Utf7 {
  import opened Units

  const PLUS: Unit := 43
  const MINUS: Unit := 45
  /** The sentinel `g` that `escapeUTF7` appends before replacing and slices off afterwards. */
  const SENTINEL: Unit := 103

  /** `characters.charAt(v)`: the base64 alphabet `A-Z a-z 0-9 + /`. */
  function Symbol(v: int): (u: Unit)
    requires 0 <= v < 64
    ensures SymbolValue(u) == v
  {
    if v < 26 then 65 + v else if v < 52 then 71 + v else if v < 62 then v - 4 else if v == 62 then 43 else 47
  }

  /** The 64 symbols in order, the string `characters` (mod.ts:330-331). */
  const ALPHABET: seq<Unit> := seq(64, v requires 0 <= v < 64 => Symbol(v))

  /** `B[u]` of the decoder's table: the symbol's value, or -1 where the table has no entry. */
  function SymbolValue(u: int): (v: int)
    ensures -1 <= v < 64
    ensures v >= 0 <==> (u == 43 || 47 <= u <= 57 || 65 <= u <= 90 || 97 <= u <= 122)
  {
    if 65 <= u <= 90 then u - 65
    else if 97 <= u <= 122 then u - 71
    else if 48 <= u <= 57 then u + 4
    else if u == 43 then 62
    else if u == 47 then 63
    else -1
  }

  // ---------------------------------------------------------------- escaping

  /**
   * `E` (mod.ts:340-350) for a chunk of `|k|` units: 3, 6 or 8 symbols, the bits of a missing
   * unit taken as 0.
   */
  function EncodeChunk(k: seq<Unit>): (r: seq<Unit>)
    requires 1 <= |k| <= 3
    ensures |r| == if |k| == 1 then 3 else if |k| == 2 then 6 else 8
    ensures forall j :: 0 <= j < |r| ==> SymbolValue(r[j]) >= 0
  {
    var c0 := k[0];
    var c1 := if |k| > 1 then k[1] else 0;
    var c2 := if |k| > 2 then k[2] else 0;
    var first := [Symbol(c0 / 1024), Symbol(c0 / 16 % 64), Symbol(c0 % 16 * 4 + c1 / 16384)];
    var second := [Symbol(c1 / 256 % 64), Symbol(c1 / 4 % 64), Symbol(c1 % 4 * 16 + c2 / 4096)];
    var third := [Symbol(c2 / 64 % 64), Symbol(c2 % 64)];
    if |k| == 1 then first else if |k| == 2 then first + second else first + second + third
  }

  /** `s.replace(/[^+]{1,3}/g, E)` on a run, which never holds `+`: chunks of three from the left. */
  function EncodeRun(r: seq<Unit>): (e: seq<Unit>)
    decreases |r|
  {
    if r == [] then []
    else if |r| <= 3 then EncodeChunk(r)
    else EncodeChunk(r[..3]) + EncodeRun(r[3..])
  }

  /** How the safe unit `w` after a run is written: `-+-`, bare for `*`, `.`, `_`, else `-w`. */
  function Close(w: Unit): seq<Unit>
  {
    if w == PLUS then [MINUS, PLUS, MINUS]
    else if w == 42 || w == 46 || w == 95 then [w]
    else [MINUS, w]
  }

  /** Length of the longest prefix of `s` made of units outside the safe set. */
  function NonSafeRun(s: seq<Unit>): (n: nat)
    ensures n <= |s|
    ensures forall j :: 0 <= j < n ==> !IsSafe(s[j])
    ensures n < |s| ==> IsSafe(s[n])
    decreases |s|
  {
    if s == [] || IsSafe(s[0]) then 0 else 1 + NonSafeRun(s[1..])
  }

  /**
   * The driver of `rx1` (`[^*+.-9A-Z_a-z-]+[*+.-9A-Z_a-z-]|[+]`) with `fn1`: a maximal unsafe
   * run together with the safe unit after it, or a lone `+`; other units are copied.
   */
  function Scan(s: seq<Unit>): (r: seq<Unit>)
    ensures s != [] ==> r != []
    decreases |s|
  {
    if s == [] then []
    else if !IsSafe(s[0]) then
      var n := NonSafeRun(s);
      if n < |s| then [PLUS] + EncodeRun(s[..n]) + Close(s[n]) + Scan(s[n + 1..])
      else [s[0]] + Scan(s[1..])
    else if s[0] == PLUS then [PLUS, MINUS] + Scan(s[1..])
    else [s[0]] + Scan(s[1..])
  }

  /** `(str + "g").replace(rx1, fn1).slice(0, -1)`. */
  function EscapeUTF7(s: seq<Unit>): seq<Unit>
  {
    var r := Scan(s + [SENTINEL]);
    r[..|r| - 1]
  }

  // ---------------------------------------------------------------- unescaping

  /** The table lookup `B[s.charAt(k)]`: -1 (no entry) past the end of `s`. */
  function Sym(s: seq<Unit>, k: int): int
  {
    if 0 <= k < |s| then SymbolValue(s[k]) else -1
  }

  /** A missing symbol counts as 0 inside the shifts and ors. */
  function Bits(v: int): int
  {
    if v < 0 then 0 else v
  }

  /** The unit appended by `if (c) t += String.fromCharCode(c)`: none for 0. */
  function Emit(c: Unit): seq<Unit>
  {
    if c != 0 then [c] else []
  }

  /**
   * The unit one turn of the decoder loop of `fn1` (mod.ts:378-385) assembles at symbol index
   * `i`. Three phases by `i & 7` take 6+6+4, 2+6+6+2 and 4+6+6 bits; the ors join disjoint bit
   * ranges, so they are sums here.
   */
  function PhaseValue(s: seq<Unit>, i: nat): Unit
  {
    var b := Bits(Sym(s, i));
    if i % 8 < 3 then b * 1024 + Bits(Sym(s, i + 1)) * 16 + Bits(Sym(s, i + 2)) / 4
    else if i % 8 < 6 then
      b % 4 * 16384 + Bits(Sym(s, i + 1)) * 256 + Bits(Sym(s, i + 2)) * 4 + Bits(Sym(s, i + 3)) / 16
    else b % 16 * 4096 + Bits(Sym(s, i + 1)) * 64 + Bits(Sym(s, i + 2))
  }

  /** Where that turn leaves `i`: two symbols on in the first phase, three in the others. */
  function NextIndex(i: nat): nat
  {
    if i % 8 < 3 then i + 2 else i + 3
  }

  /** The decoder loop of `fn1` (mod.ts:376-388) from symbol index `i`, up to the first non-symbol. */
  function DecodeFrom(s: seq<Unit>, i: nat): seq<Unit>
    decreases |s| - i
  {
    if Sym(s, i) < 0 then [] else Emit(PhaseValue(s, i)) + DecodeFrom(s, NextIndex(i))
  }

  /** `fn1` of `unescapeUTF7` on one match: `+-` is `+`, anything else is decoded from index 1. */
  function DecodeToken(t: seq<Unit>): seq<Unit>
  {
    if t == [PLUS, MINUS] then [PLUS] else DecodeFrom(t, 1)
  }

  /** Number of units of `[+/-9A-Za-z]*` at `s[k..]`. */
  function ClassRun(s: seq<Unit>, k: nat): (n: nat)
    requires k <= |s|
    ensures k + n <= |s|
    ensures forall j :: k <= j < k + n ==> SymbolValue(s[j]) >= 0
    ensures k + n < |s| ==> SymbolValue(s[k + n]) < 0
    decreases |s| - k
  {
    if k == |s| || SymbolValue(s[k]) < 0 then 0 else 1 + ClassRun(s, k + 1)
  }

  /** Length of the match of `/[+][+/-9A-Za-z]*-?/` at the start of `s` (which starts with `+`). */
  function TokenLength(s: seq<Unit>): (n: nat)
    requires s != [] && s[0] == PLUS
    ensures 1 <= n <= |s|
  {
    var k := 1 + ClassRun(s, 1);
    if k < |s| && s[k] == MINUS then k + 1 else k
  }

  function UnescapeUTF7(s: seq<Unit>): seq<Unit>
    decreases |s|
  {
    if s == [] then []
    else if s[0] == PLUS then
      var n := TokenLength(s);
      DecodeToken(s[..n]) + UnescapeUTF7(s[n..])
    else [s[0]] + UnescapeUTF7(s[1..])
  }

  // ---------------------------------------------------------------- decoding the packed bits

  lemma PhaseA(c0: Unit, c1: Unit, v0: int, v1: int, v2: int)
    requires v0 == c0 / 1024 && v1 == c0 / 16 % 64 && v2 == c0 % 16 * 4 + c1 / 16384
    ensures v0 * 1024 + v1 * 16 + v2 / 4 == c0
  {
    assert v2 / 4 == c0 % 16;
    var q := c0 / 16;
    assert q / 64 == c0 / 1024;
    assert q == q / 64 * 64 + q % 64;
  }

  lemma PhaseB(c0: Unit, c1: Unit, c2: Unit, v0: int, v1: int, v2: int, v3: int)
    requires v0 == c0 % 16 * 4 + c1 / 16384 && v1 == c1 / 256 % 64 && v2 == c1 / 4 % 64
    requires v3 == c1 % 4 * 16 + c2 / 4096
    ensures v0 % 4 * 16384 + v1 * 256 + v2 * 4 + v3 / 16 == c1
  {
    assert v0 % 4 == c1 / 16384;
    assert v3 / 16 == c1 % 4;
    var q := c1 / 4;
    assert q / 64 == c1 / 256;
    assert q == q / 64 * 64 + q % 64;
    var p := c1 / 256;
    assert p / 64 == c1 / 16384;
    assert p == p / 64 * 64 + p % 64;
  }

  lemma PhaseC(c1: Unit, c2: Unit, v0: int, v1: int, v2: int)
    requires v0 == c1 % 4 * 16 + c2 / 4096 && v1 == c2 / 64 % 64 && v2 == c2 % 64
    ensures v0 % 16 * 4096 + v1 * 64 + v2 == c2
  {
    assert v0 % 16 == c2 / 4096;
    var q := c2 / 64;
    assert q / 64 == c2 / 4096;
    assert q == q / 64 * 64 + q % 64;
  }

  /** Symbol `j` of `e`, placed at `s[i..]`, is looked up as its value. */
  lemma SymAt(s: seq<Unit>, i: nat, e: seq<Unit>, j: nat)
    requires i + |e| <= |s| && s[i..i + |e|] == e && j < |e|
    ensures Sym(s, i + j) == SymbolValue(e[j])
  {
    assert s[i + j] == s[i..i + |e|][j];
  }

  /** Where `s` holds no symbols from `from` on. */
  predicate NoSymbolsFrom(s: seq<Unit>, from: nat)
  {
    forall k :: from <= k < |s| ==> SymbolValue(s[k]) < 0
  }

  lemma NoSym(s: seq<Unit>, from: nat, k: int)
    requires NoSymbolsFrom(s, from) && from <= k
    ensures Sym(s, k) < 0
  {
  }

  /** Where chunk `k` is written at `s[i..]`, the decoder reads these symbol values. */
  lemma FirstAt(s: seq<Unit>, i: nat, k: seq<Unit>)
    requires 1 <= |k| <= 3
    requires i + |EncodeChunk(k)| <= |s| && s[i..i + |EncodeChunk(k)|] == EncodeChunk(k)
    ensures var c1 := if |k| > 1 then k[1] else 0;
      Sym(s, i) == k[0] / 1024 && Sym(s, i + 1) == k[0] / 16 % 64 && Sym(s, i + 2) == k[0] % 16 * 4 + c1 / 16384
  {
    var e := EncodeChunk(k);
    SymAt(s, i, e, 0);
    SymAt(s, i, e, 1);
    SymAt(s, i, e, 2);
  }

  lemma SecondAt(s: seq<Unit>, i: nat, k: seq<Unit>)
    requires 2 <= |k| <= 3
    requires i + |EncodeChunk(k)| <= |s| && s[i..i + |EncodeChunk(k)|] == EncodeChunk(k)
    ensures var c2 := if |k| > 2 then k[2] else 0;
      Sym(s, i + 3) == k[1] / 256 % 64 && Sym(s, i + 4) == k[1] / 4 % 64
      && Sym(s, i + 5) == k[1] % 4 * 16 + c2 / 4096
  {
    var e := EncodeChunk(k);
    SymAt(s, i, e, 3);
    SymAt(s, i, e, 4);
    SymAt(s, i, e, 5);
  }

  lemma ThirdAt(s: seq<Unit>, i: nat, k: seq<Unit>)
    requires |k| == 3
    requires i + 8 <= |s| && s[i..i + 8] == EncodeChunk(k)
    ensures Sym(s, i + 6) == k[2] / 64 % 64 && Sym(s, i + 7) == k[2] % 64
  {
    var e := EncodeChunk(k);
    SymAt(s, i, e, 6);
    SymAt(s, i, e, 7);
  }

  /** The first phase on the symbols of `c0` (and the top bits of `c1`) yields `c0`. */
  lemma DecodeA(s: seq<Unit>, i: nat, c0: Unit, c1: Unit)
    requires i % 8 == 1
    requires Sym(s, i) == c0 / 1024 && Sym(s, i + 1) == c0 / 16 % 64
    requires Sym(s, i + 2) == c0 % 16 * 4 + c1 / 16384
    ensures DecodeFrom(s, i) == Emit(c0) + DecodeFrom(s, i + 2)
  {
    PhaseA(c0, c1, Bits(Sym(s, i)), Bits(Sym(s, i + 1)), Bits(Sym(s, i + 2)));
    assert PhaseValue(s, i) == c0;
  }

  /** The second phase yields `c1`. */
  lemma DecodeB(s: seq<Unit>, j: nat, c0: Unit, c1: Unit, c2: Unit)
    requires j % 8 == 3
    requires Sym(s, j) == c0 % 16 * 4 + c1 / 16384
    requires Bits(Sym(s, j + 1)) == c1 / 256 % 64 && Bits(Sym(s, j + 2)) == c1 / 4 % 64
    requires Bits(Sym(s, j + 3)) == c1 % 4 * 16 + c2 / 4096
    ensures DecodeFrom(s, j) == Emit(c1) + DecodeFrom(s, j + 3)
  {
    PhaseB(c0, c1, c2, Bits(Sym(s, j)), Bits(Sym(s, j + 1)), Bits(Sym(s, j + 2)), Bits(Sym(s, j + 3)));
    assert PhaseValue(s, j) == c1;
  }

  /** The third phase yields `c2`. */
  lemma DecodeC(s: seq<Unit>, j: nat, c1: Unit, c2: Unit)
    requires j % 8 == 6
    requires Sym(s, j) == c1 % 4 * 16 + c2 / 4096
    requires Bits(Sym(s, j + 1)) == c2 / 64 % 64 && Bits(Sym(s, j + 2)) == c2 % 64
    ensures DecodeFrom(s, j) == Emit(c2) + DecodeFrom(s, j + 3)
  {
    PhaseC(c1, c2, Bits(Sym(s, j)), Bits(Sym(s, j + 1)), Bits(Sym(s, j + 2)));
    assert PhaseValue(s, j) == c2;
  }

  lemma ModSteps(i: nat)
    requires i % 8 == 1
    ensures (i + 2) % 8 == 3 && (i + 5) % 8 == 6
  {
  }

  lemma DecodeEnd(s: seq<Unit>, k: nat)
    requires Sym(s, k) < 0
    ensures DecodeFrom(s, k) == []
  {
  }

  /** The decoder on the symbol values of a final single unit `c0`. */
  lemma DecodeOneValues(s: seq<Unit>, i: nat, c0: Unit)
    requires i % 8 == 1 && c0 != 0
    requires Sym(s, i) == c0 / 1024 && Sym(s, i + 1) == c0 / 16 % 64 && Sym(s, i + 2) == c0 % 16 * 4
    requires Sym(s, i + 3) < 0 && Sym(s, i + 4) < 0 && Sym(s, i + 5) < 0
    ensures DecodeFrom(s, i) == [c0]
  {
    ModSteps(i);
    DecodeA(s, i, c0, 0);
    DecodeB(s, i + 2, c0, 0, 0);
    DecodeEnd(s, i + 5);
  }

  /** The decoder on the symbol values of a final pair `c0`, `c1`. */
  lemma DecodeTwoValues(s: seq<Unit>, i: nat, c0: Unit, c1: Unit)
    requires i % 8 == 1 && c0 != 0 && c1 != 0
    requires Sym(s, i) == c0 / 1024 && Sym(s, i + 1) == c0 / 16 % 64
    requires Sym(s, i + 2) == c0 % 16 * 4 + c1 / 16384
    requires Sym(s, i + 3) == c1 / 256 % 64 && Sym(s, i + 4) == c1 / 4 % 64 && Sym(s, i + 5) == c1 % 4 * 16
    requires Sym(s, i + 6) < 0 && Sym(s, i + 7) < 0 && Sym(s, i + 8) < 0
    ensures DecodeFrom(s, i) == [c0, c1]
  {
    ModSteps(i);
    DecodeA(s, i, c0, c1);
    DecodeB(s, i + 2, c0, c1, 0);
    DecodeC(s, i + 5, c1, 0);
    DecodeEnd(s, i + 8);
  }

  /** The decoder on the symbol values of a full chunk `c0`, `c1`, `c2`. */
  lemma DecodeThreeValues(s: seq<Unit>, i: nat, c0: Unit, c1: Unit, c2: Unit)
    requires i % 8 == 1 && c0 != 0 && c1 != 0 && c2 != 0
    requires Sym(s, i) == c0 / 1024 && Sym(s, i + 1) == c0 / 16 % 64
    requires Sym(s, i + 2) == c0 % 16 * 4 + c1 / 16384
    requires Sym(s, i + 3) == c1 / 256 % 64 && Sym(s, i + 4) == c1 / 4 % 64
    requires Sym(s, i + 5) == c1 % 4 * 16 + c2 / 4096
    requires Sym(s, i + 6) == c2 / 64 % 64 && Sym(s, i + 7) == c2 % 64
    ensures DecodeFrom(s, i) == [c0, c1, c2] + DecodeFrom(s, i + 8)
  {
    ModSteps(i);
    DecodeA(s, i, c0, c1);
    DecodeB(s, i + 2, c0, c1, c2);
    DecodeC(s, i + 5, c1, c2);
    var rest := DecodeFrom(s, i + 8);
    assert Emit(c0) == [c0] && Emit(c1) == [c1] && Emit(c2) == [c2];
    assert [c0] + ([c1] + ([c2] + rest)) == [c0, c1, c2] + rest;
  }

  /** A final chunk of one unit decodes to that unit (the padding unit after it is 0 and dropped). */
  lemma DecodeOne(s: seq<Unit>, i: nat, k: seq<Unit>)
    requires i % 8 == 1 && |k| == 1 && k[0] != 0
    requires i + 3 <= |s| && s[i..i + 3] == EncodeChunk(k) && NoSymbolsFrom(s, i + 3)
    ensures DecodeFrom(s, i) == k
  {
    FirstAt(s, i, k);
    NoSym(s, i + 3, i + 3);
    NoSym(s, i + 3, i + 4);
    NoSym(s, i + 3, i + 5);
    DecodeOneValues(s, i, k[0]);
  }

  /** A final chunk of two units decodes to them (the padding unit after them is 0 and dropped). */
  lemma DecodeTwo(s: seq<Unit>, i: nat, k: seq<Unit>)
    requires i % 8 == 1 && |k| == 2 && k[0] != 0 && k[1] != 0
    requires i + 6 <= |s| && s[i..i + 6] == EncodeChunk(k) && NoSymbolsFrom(s, i + 6)
    ensures DecodeFrom(s, i) == k
  {
    FirstAt(s, i, k);
    SecondAt(s, i, k);
    NoSym(s, i + 6, i + 6);
    NoSym(s, i + 6, i + 7);
    NoSym(s, i + 6, i + 8);
    DecodeTwoValues(s, i, k[0], k[1]);
  }

  /** A full chunk of three units decodes to them and leaves the decoder at the next chunk. */
  lemma DecodeThree(s: seq<Unit>, i: nat, k: seq<Unit>)
    requires i % 8 == 1 && |k| == 3 && k[0] != 0 && k[1] != 0 && k[2] != 0
    requires i + 8 <= |s| && s[i..i + 8] == EncodeChunk(k)
    ensures DecodeFrom(s, i) == k + DecodeFrom(s, i + 8)
  {
    FirstAt(s, i, k);
    SecondAt(s, i, k);
    ThirdAt(s, i, k);
    DecodeThreeValues(s, i, k[0], k[1], k[2]);
  }

  predicate NoZero(r: seq<Unit>)
  {
    forall j :: 0 <= j < |r| ==> r[j] != 0
  }

  lemma SliceSplit(s: seq<Unit>, i: nat, a: seq<Unit>, b: seq<Unit>)
    requires i + |a| + |b| <= |s| && s[i..i + |a| + |b|] == a + b
    ensures s[i..i + |a|] == a && s[i + |a|..i + |a| + |b|] == b
  {
    assert s[i..i + |a|] == (a + b)[..|a|];
    assert s[i + |a|..i + |a| + |b|] == (a + b)[|a|..];
  }

  /** The symbols of a run, followed by no further symbols, decode back to the run. */
  lemma {:induction false} DecodeRun(s: seq<Unit>, i: nat, r: seq<Unit>)
    requires i % 8 == 1 && NoZero(r)
    requires i + |EncodeRun(r)| <= |s| && s[i..i + |EncodeRun(r)|] == EncodeRun(r)
    requires NoSymbolsFrom(s, i + |EncodeRun(r)|)
    ensures DecodeFrom(s, i) == r
    decreases |r|
  {
    if r == [] {
      NoSym(s, i, i);
    } else if |r| == 1 {
      DecodeOne(s, i, r);
    } else if |r| == 2 {
      DecodeTwo(s, i, r);
    } else if |r| == 3 {
      DecodeThree(s, i, r);
      NoSym(s, i + 8, i + 8);
    } else {
      ChunkSplit(s, i, r);
      DecodeRun(s, i + 8, r[3..]);
      ChunkThenRest(s, i, r);
    }
  }

  /** Where a run of more than three units is written, its first chunk and the rest of it. */
  lemma ChunkSplit(s: seq<Unit>, i: nat, r: seq<Unit>)
    requires |r| > 3 && i + |EncodeRun(r)| <= |s| && s[i..i + |EncodeRun(r)|] == EncodeRun(r)
    requires NoSymbolsFrom(s, i + |EncodeRun(r)|)
    ensures i + 8 + |EncodeRun(r[3..])| <= |s| && s[i..i + 8] == EncodeChunk(r[..3])
    ensures s[i + 8..i + 8 + |EncodeRun(r[3..])|] == EncodeRun(r[3..])
    ensures NoSymbolsFrom(s, i + 8 + |EncodeRun(r[3..])|)
  {
    EncodeRunStep(r);
    SliceSplit(s, i, EncodeChunk(r[..3]), EncodeRun(r[3..]));
  }

  lemma EncodeRunStep(r: seq<Unit>)
    requires |r| > 3
    ensures EncodeRun(r) == EncodeChunk(r[..3]) + EncodeRun(r[3..])
  {
  }

  lemma ChunkThenRest(s: seq<Unit>, i: nat, r: seq<Unit>)
    requires |r| > 3 && i % 8 == 1 && NoZero(r)
    requires i + 8 <= |s| && s[i..i + 8] == EncodeChunk(r[..3])
    requires DecodeFrom(s, i + 8) == r[3..]
    ensures DecodeFrom(s, i) == r
  {
    DecodeThree(s, i, r[..3]);
    assert r[..3] + r[3..] == r;
  }

  lemma {:induction false} ClassRunExact(s: seq<Unit>, k: nat, m: nat)
    requires k <= m <= |s|
    requires forall j :: k <= j < m ==> SymbolValue(s[j]) >= 0
    requires m == |s| || SymbolValue(s[m]) < 0
    ensures ClassRun(s, k) == m - k
    decreases m - k
  {
    if k < m {
      ClassRunExact(s, k + 1, m);
    }
  }

  /** The `-?` that ends a match before `y`, and what is left of `y` after it. */
  function Dash(y: seq<Unit>): seq<Unit>
  {
    if y != [] && y[0] == MINUS then [MINUS] else []
  }

  function AfterDash(y: seq<Unit>): seq<Unit>
  {
    if y != [] && y[0] == MINUS then y[1..] else y
  }

  /** How `unescapeUTF7` splits `+`, symbols `e`, and a unit that is no symbol: one match ends there. */
  lemma TokenSplit(e: seq<Unit>, y: seq<Unit>)
    requires e != [] && forall j :: 0 <= j < |e| ==> SymbolValue(e[j]) >= 0
    requires y == [] || SymbolValue(y[0]) < 0
    ensures UnescapeUTF7([PLUS] + e + y) == DecodeFrom([PLUS] + e + Dash(y), 1) + UnescapeUTF7(AfterDash(y))
  {
    var s := [PLUS] + e + y;
    var k := 1 + |e|;
    assert s[1..k] == e;
    ClassRunExact(s, 1, k);
    var n := k + |Dash(y)|;
    assert TokenLength(s) == n;
    assert s[..n] == [PLUS] + e + Dash(y);
    assert s[1] == e[0];
    assert s[..n] != [PLUS, MINUS];
    assert s[n..] == AfterDash(y);
  }

  lemma TokenOfSymbols(e: seq<Unit>, y: seq<Unit>, r: seq<Unit>)
    requires e != [] && forall j :: 0 <= j < |e| ==> SymbolValue(e[j]) >= 0
    requires y == [] || SymbolValue(y[0]) < 0
    requires DecodeFrom([PLUS] + e + Dash(y), 1) == r
    ensures UnescapeUTF7([PLUS] + e + y) == r + UnescapeUTF7(AfterDash(y))
  {
    TokenSplit(e, y);
  }

  /** Every unit of an encoded run is a base64 symbol, and a run of one unit or more gives symbols. */
  lemma {:induction false} EncodeRunSymbols(r: seq<Unit>)
    ensures var e := EncodeRun(r);
      (r != [] ==> e != []) && forall j :: 0 <= j < |e| ==> SymbolValue(e[j]) >= 0
    decreases |r|
  {
    if |r| > 3 {
      EncodeRunSymbols(r[3..]);
      var e, e' := EncodeChunk(r[..3]), EncodeRun(r[3..]);
      assert EncodeRun(r) == e + e';
      forall j | 0 <= j < |e + e'|
        ensures SymbolValue((e + e')[j]) >= 0
      {
        if j >= |e| {
          assert (e + e')[j] == e'[j - |e|];
        }
      }
    }
  }

  /** The symbols of a run, after `+` and with or without a closing `-`, decode to the run. */
  lemma RunDecodes(r: seq<Unit>)
    requires r != [] && NoZero(r)
    ensures DecodeFrom([PLUS] + EncodeRun(r) + [MINUS], 1) == r
    ensures DecodeFrom([PLUS] + EncodeRun(r), 1) == r
  {
    RunDecodesBefore(r, [MINUS]);
    RunDecodesBefore(r, []);
    assert [PLUS] + EncodeRun(r) + [] == [PLUS] + EncodeRun(r);
  }

  lemma RunDecodesBefore(r: seq<Unit>, y: seq<Unit>)
    requires r != [] && NoZero(r) && (y == [] || y == [MINUS])
    ensures DecodeFrom([PLUS] + EncodeRun(r) + y, 1) == r
  {
    var e := EncodeRun(r);
    var t := [PLUS] + e + y;
    assert t[1..1 + |e|] == e;
    assert NoSymbolsFrom(t, 1 + |e|) by {
      forall k | 1 + |e| <= k < |t|
        ensures SymbolValue(t[k]) < 0
      {
        assert t[k] == MINUS;
      }
    }
    DecodeRun(t, 1, r);
  }

  /** Symbols `e` that decode to `r` with or without the closing `-`. */
  predicate RunSymbols(e: seq<Unit>, r: seq<Unit>)
  {
    && e != [] && (forall j :: 0 <= j < |e| ==> SymbolValue(e[j]) >= 0)
    && DecodeFrom([PLUS] + e + [MINUS], 1) == r && DecodeFrom([PLUS] + e, 1) == r
  }

  lemma RunSymbolsOf(r: seq<Unit>)
    requires r != [] && NoZero(r)
    ensures RunSymbols(EncodeRun(r), r)
  {
    EncodeRunSymbols(r);
    RunDecodes(r);
  }

  lemma UnescapeRunSymbols(e: seq<Unit>, r: seq<Unit>, y: seq<Unit>)
    requires RunSymbols(e, r)
    requires y == [] || SymbolValue(y[0]) < 0
    ensures UnescapeUTF7([PLUS] + e + y) == r + UnescapeUTF7(AfterDash(y))
  {
    if y != [] && y[0] == MINUS {
      assert Dash(y) == [MINUS];
    } else {
      assert Dash(y) == [] && [PLUS] + e + [] == [PLUS] + e;
    }
    TokenOfSymbols(e, y, r);
  }

  /** An encoded run after `+`, closed by a unit that is no symbol, is one match and decodes to the run. */
  lemma UnescapeRun(r: seq<Unit>, y: seq<Unit>)
    requires r != [] && NoZero(r)
    requires y == [] || SymbolValue(y[0]) < 0
    ensures UnescapeUTF7([PLUS] + EncodeRun(r) + y) == r + UnescapeUTF7(AfterDash(y))
  {
    RunSymbolsOf(r);
    UnescapeRunSymbols(EncodeRun(r), r, y);
  }

  /** `+-` reads back as `+`. */
  lemma UnescapePlus(z: seq<Unit>)
    ensures UnescapeUTF7([PLUS, MINUS] + z) == [PLUS] + UnescapeUTF7(z)
  {
    var s := [PLUS, MINUS] + z;
    assert ClassRun(s, 1) == 0;
    assert TokenLength(s) == 2 && s[..2] == [PLUS, MINUS] && s[2..] == z;
  }

  /** A unit other than `+` is copied. */
  lemma UnescapeOther(w: Unit, z: seq<Unit>)
    requires w != PLUS
    ensures UnescapeUTF7([w] + z) == [w] + UnescapeUTF7(z)
  {
    assert ([w] + z)[1..] == z;
  }

  // ---------------------------------------------------------------- the sentinel and the round trip

  /** The sentinel is safe, so it never joins an unsafe run. */
  lemma {:induction false} NonSafeRunSentinel(s: seq<Unit>)
    ensures NonSafeRun(s + [SENTINEL]) == NonSafeRun(s)
    decreases |s|
  {
    if s != [] && !IsSafe(s[0]) {
      assert (s + [SENTINEL])[1..] == s[1..] + [SENTINEL];
      NonSafeRunSentinel(s[1..]);
    }
  }

  /** The replacement of `s + "g"` ends in the sentinel, so the slice removes exactly that. */
  lemma {:induction false} ScanSentinel(s: seq<Unit>)
    ensures Scan(s + [SENTINEL]) == EscapeUTF7(s) + [SENTINEL]
    decreases |s|
  {
    if s == [] {
      SentinelEmpty();
    } else if IsSafe(s[0]) {
      ScanSentinel(s[1..]);
      SentinelSafe(s);
    } else if NonSafeRun(s) == |s| {
      SentinelRunLast(s);
    } else {
      ScanSentinel(s[NonSafeRun(s) + 1..]);
      SentinelRunInner(s);
    }
  }

  lemma SentinelEmpty()
    ensures Scan([] + [SENTINEL]) == EscapeUTF7([]) + [SENTINEL]
  {
    var x: seq<Unit> := [] + [SENTINEL];
    assert x[1..] == [];
    ScanSafeStep(x);
    Closing([], []);
  }

  lemma SentinelSafe(s: seq<Unit>)
    requires s != [] && IsSafe(s[0])
    requires Scan(s[1..] + [SENTINEL]) == EscapeUTF7(s[1..]) + [SENTINEL]
    ensures Scan(s + [SENTINEL]) == EscapeUTF7(s) + [SENTINEL]
  {
    var x := s + [SENTINEL];
    SentinelSlices(s, 0);
    ScanSafeStep(x);
    var h := if s[0] == PLUS then [PLUS, MINUS] else [s[0]];
    Assoc(h, EscapeUTF7(s[1..]), [SENTINEL]);
    Closing(s, h + EscapeUTF7(s[1..]));
  }

  lemma SentinelRunLast(s: seq<Unit>)
    requires s != [] && !IsSafe(s[0]) && NonSafeRun(s) == |s|
    ensures Scan(s + [SENTINEL]) == EscapeUTF7(s) + [SENTINEL]
  {
    var x := s + [SENTINEL];
    NonSafeRunSentinel(s);
    ScanRun(x);
    var n := |s|;
    assert x[..n] == s && x[n] == SENTINEL && x[n + 1..] == [];
    var q := [PLUS] + EncodeRun(s);
    Assoc(q, [MINUS], [SENTINEL]);
    Closing(s, q + [MINUS]);
  }

  lemma SentinelRunInner(s: seq<Unit>)
    requires s != [] && !IsSafe(s[0]) && NonSafeRun(s) < |s|
    requires var n := NonSafeRun(s);
      Scan(s[n + 1..] + [SENTINEL]) == EscapeUTF7(s[n + 1..]) + [SENTINEL]
    ensures Scan(s + [SENTINEL]) == EscapeUTF7(s) + [SENTINEL]
  {
    var x := s + [SENTINEL];
    NonSafeRunSentinel(s);
    var n := NonSafeRun(s);
    ScanRun(x);
    SentinelSlices(s, n);
    var h := [PLUS] + EncodeRun(s[..n]) + Close(s[n]);
    Assoc(h, EscapeUTF7(s[n + 1..]), [SENTINEL]);
    Closing(s, h + EscapeUTF7(s[n + 1..]));
  }

  lemma ScanSafeStep(x: seq<Unit>)
    requires x != [] && IsSafe(x[0])
    ensures Scan(x) == (if x[0] == PLUS then [PLUS, MINUS] else [x[0]]) + Scan(x[1..])
  {
  }

  lemma Closing(s: seq<Unit>, q: seq<Unit>)
    requires Scan(s + [SENTINEL]) == q + [SENTINEL]
    ensures Scan(s + [SENTINEL]) == EscapeUTF7(s) + [SENTINEL]
  {
    var r := q + [SENTINEL];
    assert r[..|r| - 1] == q;
  }

  lemma DropSentinel(a: seq<Unit>, b: seq<Unit>)
    requires a + [SENTINEL] == b + [SENTINEL]
    ensures a == b
  {
    assert a == (a + [SENTINEL])[..|a|];
    assert b == (b + [SENTINEL])[..|b|];
  }

  /** A safe first unit is written as itself, `+` as `+-`. */
  lemma EscapeSafeHead(s: seq<Unit>)
    requires s != [] && IsSafe(s[0])
    ensures EscapeUTF7(s) == (if s[0] == PLUS then [PLUS, MINUS] else [s[0]]) + EscapeUTF7(s[1..])
  {
    var x := s + [SENTINEL];
    assert x[1..] == s[1..] + [SENTINEL];
    ScanSentinel(s);
    ScanSentinel(s[1..]);
    var h := if s[0] == PLUS then [PLUS, MINUS] else [s[0]];
    assert Scan(x) == h + EscapeUTF7(s[1..]) + [SENTINEL];
    DropSentinel(EscapeUTF7(s), h + EscapeUTF7(s[1..]));
  }

  /** An unsafe run to the end of the text is written in base64 between `+` and `-`. */
  lemma EscapeRunLast(s: seq<Unit>)
    requires s != [] && !IsSafe(s[0]) && NonSafeRun(s) == |s|
    ensures EscapeUTF7(s) == [PLUS] + EncodeRun(s) + [MINUS]
  {
    var x := s + [SENTINEL];
    NonSafeRunSentinel(s);
    ScanSentinel(s);
    var n := |s|;
    assert x[..n] == s && x[n] == SENTINEL && x[n + 1..] == [];
    var h := [PLUS] + EncodeRun(s) + [MINUS];
    assert Scan(x) == [PLUS] + EncodeRun(s) + Close(SENTINEL) + Scan([]);
    assert Scan(x) == h + [SENTINEL];
    DropSentinel(EscapeUTF7(s), h);
  }

  lemma Glue(e: seq<Unit>, h: seq<Unit>, t: seq<Unit>, x: seq<Unit>, y: seq<Unit>)
    requires x == e + [SENTINEL] && x == h + y && y == t + [SENTINEL]
    ensures e == h + t
  {
    assert h + t + [SENTINEL] == h + y;
    DropSentinel(e, h + t);
  }

  lemma ScanRun(x: seq<Unit>)
    requires x != [] && !IsSafe(x[0]) && NonSafeRun(x) < |x|
    ensures var n := NonSafeRun(x);
      Scan(x) == [PLUS] + EncodeRun(x[..n]) + Close(x[n]) + Scan(x[n + 1..])
  {
  }

  /** A maximal unsafe run before a safe unit `w` is written in base64 after `+` and closed for `w`. */
  lemma EscapeRunInner(s: seq<Unit>)
    requires s != [] && !IsSafe(s[0]) && NonSafeRun(s) < |s|
    ensures var n := NonSafeRun(s);
      EscapeUTF7(s) == [PLUS] + EncodeRun(s[..n]) + Close(s[n]) + EscapeUTF7(s[n + 1..])
  {
    var x := s + [SENTINEL];
    NonSafeRunSentinel(s);
    ScanSentinel(s);
    var n := NonSafeRun(s);
    SentinelSlices(s, n);
    ScanRun(x);
    ScanSentinel(s[n + 1..]);
    Glue(EscapeUTF7(s), [PLUS] + EncodeRun(s[..n]) + Close(s[n]), EscapeUTF7(s[n + 1..]),
      Scan(x), Scan(s[n + 1..] + [SENTINEL]));
  }

  lemma SentinelSlices(s: seq<Unit>, n: nat)
    requires n < |s|
    ensures var x := s + [SENTINEL];
      x[..n] == s[..n] && x[n] == s[n] && x[n + 1..] == s[n + 1..] + [SENTINEL]
  {
  }

  /** A run closed by `-+-`: the `-` ends the match and `+-` is the `+`. */
  lemma ClosePlus(e: seq<Unit>, r: seq<Unit>, u: seq<Unit>)
    requires RunSymbols(e, r)
    ensures UnescapeUTF7([PLUS] + e + ([MINUS] + ([PLUS, MINUS] + u))) == r + [PLUS] + UnescapeUTF7(u)
  {
    var y := [MINUS] + ([PLUS, MINUS] + u);
    assert Dash(y) == [MINUS] && AfterDash(y) == [PLUS, MINUS] + u;
    TokenOfSymbols(e, y, r);
    UnescapePlus(u);
  }

  /** A run closed by a bare `*`, `.` or `_`. */
  lemma CloseBare(e: seq<Unit>, r: seq<Unit>, w: Unit, u: seq<Unit>)
    requires RunSymbols(e, r) && (w == 42 || w == 46 || w == 95)
    ensures UnescapeUTF7([PLUS] + e + ([w] + u)) == r + [w] + UnescapeUTF7(u)
  {
    var y := [w] + u;
    assert Dash(y) == [] && AfterDash(y) == y;
    assert [PLUS] + e + [] == [PLUS] + e;
    TokenOfSymbols(e, y, r);
    UnescapeOther(w, u);
  }

  /** A run closed by `-` and then any other safe unit. */
  lemma CloseDash(e: seq<Unit>, r: seq<Unit>, w: Unit, u: seq<Unit>)
    requires RunSymbols(e, r) && w != PLUS
    ensures UnescapeUTF7([PLUS] + e + ([MINUS] + ([w] + u))) == r + [w] + UnescapeUTF7(u)
  {
    var y := [MINUS] + ([w] + u);
    assert Dash(y) == [MINUS] && AfterDash(y) == [w] + u;
    TokenOfSymbols(e, y, r);
    UnescapeOther(w, u);
  }

  /** What follows a closed run: the closing unit is read back, the rest as it was. */
  lemma CloseReadSymbols(e: seq<Unit>, r: seq<Unit>, w: Unit, u: seq<Unit>)
    requires RunSymbols(e, r) && IsSafe(w)
    ensures UnescapeUTF7([PLUS] + e + Close(w) + u) == r + [w] + UnescapeUTF7(u)
  {
    if w == PLUS {
      assert [PLUS] + e + Close(w) + u == [PLUS] + e + ([MINUS] + ([PLUS, MINUS] + u));
      ClosePlus(e, r, u);
    } else if w == 42 || w == 46 || w == 95 {
      assert [PLUS] + e + Close(w) + u == [PLUS] + e + ([w] + u);
      CloseBare(e, r, w, u);
    } else {
      assert [PLUS] + e + Close(w) + u == [PLUS] + e + ([MINUS] + ([w] + u));
      CloseDash(e, r, w, u);
    }
  }

  lemma CloseRead(r: seq<Unit>, w: Unit, u: seq<Unit>)
    requires r != [] && NoZero(r) && IsSafe(w)
    ensures UnescapeUTF7([PLUS] + EncodeRun(r) + Close(w) + u) == r + [w] + UnescapeUTF7(u)
  {
    RunSymbolsOf(r);
    CloseReadSymbols(EncodeRun(r), r, w, u);
  }

  /** Reading `h + e1 + z` where `h` reads as `[c]` on its own. */
  lemma ReadAfter(e: seq<Unit>, h: seq<Unit>, e1: seq<Unit>, z: seq<Unit>, c: seq<Unit>, s1: seq<Unit>)
    requires e == h + e1
    requires UnescapeUTF7(h + (e1 + z)) == c + UnescapeUTF7(e1 + z)
    requires UnescapeUTF7(e1 + z) == s1 + UnescapeUTF7(z)
    ensures UnescapeUTF7(e + z) == c + s1 + UnescapeUTF7(z)
  {
    Assoc(h, e1, z);
    Assoc(c, s1, UnescapeUTF7(z));
  }

  /** The first unit is safe: it is read back, then the rest as it was. */
  lemma ReadSafeHead(s: seq<Unit>, z: seq<Unit>)
    requires s != [] && IsSafe(s[0])
    requires UnescapeUTF7(EscapeUTF7(s[1..]) + z) == s[1..] + UnescapeUTF7(z)
    ensures UnescapeUTF7(EscapeUTF7(s) + z) == s + UnescapeUTF7(z)
  {
    EscapeSafeHead(s);
    var e1 := EscapeUTF7(s[1..]);
    if s[0] == PLUS {
      UnescapePlus(e1 + z);
      ReadAfter(EscapeUTF7(s), [PLUS, MINUS], e1, z, [PLUS], s[1..]);
    } else {
      UnescapeOther(s[0], e1 + z);
      ReadAfter(EscapeUTF7(s), [s[0]], e1, z, [s[0]], s[1..]);
    }
    assert s == [s[0]] + s[1..];
  }

  /** The text is one unsafe run: it is read back and the closing `-` is consumed. */
  lemma ReadLastRun(s: seq<Unit>, z: seq<Unit>)
    requires s != [] && !IsSafe(s[0]) && NonSafeRun(s) == |s| && NoZero(s)
    ensures UnescapeUTF7(EscapeUTF7(s) + z) == s + UnescapeUTF7(z)
  {
    EscapeRunLast(s);
    Assoc([PLUS] + EncodeRun(s), [MINUS], z);
    UnescapeRun(s, [MINUS] + z);
    assert AfterDash([MINUS] + z) == z;
  }

  /** An unsafe run before a safe unit: both are read back, then the rest as it was. */
  lemma ReadInnerRun(s: seq<Unit>, z: seq<Unit>)
    requires s != [] && !IsSafe(s[0]) && NonSafeRun(s) < |s| && NoZero(s)
    requires var n := NonSafeRun(s);
      UnescapeUTF7(EscapeUTF7(s[n + 1..]) + z) == s[n + 1..] + UnescapeUTF7(z)
    ensures UnescapeUTF7(EscapeUTF7(s) + z) == s + UnescapeUTF7(z)
  {
    var n := NonSafeRun(s);
    var r := s[..n];
    EscapeRunInner(s);
    var e1 := EscapeUTF7(s[n + 1..]);
    Assoc([PLUS] + EncodeRun(r) + Close(s[n]), e1, z);
    assert NoZero(r);
    CloseRead(r, s[n], e1 + z);
    Assoc(r + [s[n]], s[n + 1..], UnescapeUTF7(z));
    SplitAt(s, n);
  }

  /**
   * The escape of any text without U+0000 decodes back to the text, and no match of the
   * decoder runs past its end, whatever follows it.
   */
  lemma {:induction false} RoundTripBefore(s: seq<Unit>, z: seq<Unit>)
    requires NoZero(s)
    ensures UnescapeUTF7(EscapeUTF7(s) + z) == s + UnescapeUTF7(z)
    decreases |s|
  {
    if s == [] {
      ScanSentinel(s);
      assert Scan([SENTINEL]) == [SENTINEL];
      assert EscapeUTF7(s) + z == z;
    } else if IsSafe(s[0]) {
      RoundTripBefore(s[1..], z);
      ReadSafeHead(s, z);
    } else if NonSafeRun(s) == |s| {
      ReadLastRun(s, z);
    } else {
      RoundTripBefore(s[NonSafeRun(s) + 1..], z);
      ReadInnerRun(s, z);
    }
  }

  /** Round trip for every text without U+0000. */
  lemma RoundTrip(s: seq<Unit>)
    requires NoZero(s)
    ensures UnescapeUTF7(EscapeUTF7(s)) == s
  {
    RoundTripBefore(s, []);
    assert EscapeUTF7(s) + [] == EscapeUTF7(s);
    assert UnescapeUTF7([]) == [];
  }

  // ---------------------------------------------------------------- examples and the U+0000 gap

  lemma EscapeEmpty()
    ensures EscapeUTF7([]) == []
  {
    assert [] + [SENTINEL] == [SENTINEL];
    assert Scan([SENTINEL]) == [SENTINEL];
  }

  /** U+0000 is written as `+AAA-`, which reads back as nothing: the round trip needs `NoZero`. */
  lemma ZeroDropped()
    ensures EscapeUTF7([0]) == [PLUS, 65, 65, 65, MINUS]
    ensures UnescapeUTF7(EscapeUTF7([0])) == []
  {
    EscapeZero();
    ReadZero();
  }

  lemma EscapeZero()
    ensures EscapeUTF7([0]) == [PLUS, 65, 65, 65, MINUS]
  {
    EscapeRunLast([0]);
    assert EncodeRun([0]) == [65, 65, 65];
  }

  lemma ReadZero()
    ensures UnescapeUTF7([PLUS, 65, 65, 65, MINUS]) == []
  {
    var t := [PLUS, 65, 65, 65, MINUS];
    ClassRunExact(t, 1, 4);
    assert TokenLength(t) == 5 && t[..5] == t && t[5..] == [];
    assert DecodeFrom(t, 6) == [];
    assert DecodeFrom(t, 3) == [];
    assert DecodeFrom(t, 1) == [];
  }

  /** A lone `+` is written `+-`. */
  lemma LonePlus()
    ensures EscapeUTF7([PLUS]) == [PLUS, MINUS]
    ensures UnescapeUTF7([PLUS, MINUS]) == [PLUS]
  {
    EscapeSafeHead([PLUS]);
    EscapeEmpty();
    UnescapePlus([]);
  }

  lemma NotEqualRun()
    ensures EscapeUTF7([0x2260, 66]) == [PLUS, 73, 109, 65, MINUS, 66]
  {
    var s: seq<Unit> := [0x2260, 66];
    NotEqualSplit(s);
    EscapeRunInner(s);
    EscapeEmpty();
    EncodeNotEqual();
    assert Close(66) == [MINUS, 66];
  }

  lemma NotEqualSplit(s: seq<Unit>)
    requires s == [0x2260, 66]
    ensures NonSafeRun(s) == 1 && s[..1] == [0x2260] && s[1] == 66 && s[2..] == []
  {
    assert !IsSafe(0x2260) && IsSafe(66);
    assert s[1..] == [66];
  }

  lemma EncodeNotEqual()
    ensures EncodeRun([0x2260]) == [73, 109, 65]
  {
    assert 0x2260 / 1024 == 8 && 0x2260 / 16 % 64 == 38 && 0x2260 % 16 * 4 == 0;
    assert EncodeChunk([0x2260]) == [Symbol(8), Symbol(38), Symbol(0)];
  }

  /** "A≠B" (U+2260 between two letters) is `A+ImA-B`; it reads back, by the round trip. */
  lemma NotEqualSign()
    ensures EscapeUTF7([65, 0x2260, 66]) == [65, PLUS, 73, 109, 65, MINUS, 66]
  {
    var s: seq<Unit> := [65, 0x2260, 66];
    EscapeSafeHead(s);
    assert s[1..] == [0x2260, 66];
    NotEqualRun();
  }

  lemma NotEqualSignRead()
    ensures UnescapeUTF7([65, PLUS, 73, 109, 65, MINUS, 66]) == [65, 0x2260, 66]
  {
    var s: seq<Unit> := [65, 0x2260, 66];
    NotEqualSign();
    RoundTrip(s);
  }

  // ---------------------------------------------------------------- the decoder's table and loop

  /** Each symbol is the only unit with its value. */
  lemma SymbolInverse(u: int)
    requires SymbolValue(u) >= 0
    ensures Symbol(SymbolValue(u)) == u
  {
  }

  /** The table `B` of `unescapeUTF7`: exactly the 64 symbols, each mapped to its value. */
  predicate IsSymbolTable(b: map<Unit, int>)
  {
    && (forall u: Unit :: u in b <==> SymbolValue(u) >= 0)
    && (forall u :: u in b ==> b[u] == SymbolValue(u))
  }

  /** `while (i < 64) B[characters.charAt(i)] = i++` (mod.ts:368-372). */
  method BuildTable() returns (b: map<Unit, int>)
    ensures IsSymbolTable(b)
  {
    b := map[];
    var i := 0;
    while i < 64
      invariant 0 <= i <= 64
      invariant forall u: Unit :: u in b <==> 0 <= SymbolValue(u) < i
      invariant forall u :: u in b ==> b[u] == SymbolValue(u)
    {
      b := b[ALPHABET[i] := i];
      forall u: Unit | 0 <= SymbolValue(u) <= i
        ensures u in b
      {
        if SymbolValue(u) == i {
          SymbolInverse(u);
        }
      }
      i := i + 1;
    }
  }

  /** `B[s.charAt(k)]`: `undefined` (here -1) for a unit that is no symbol and past the end. */
  function Lookup(b: map<Unit, int>, s: seq<Unit>, k: int): (v: int)
    requires IsSymbolTable(b)
    ensures v == Sym(s, k)
  {
    if 0 <= k < |s| && s[k] in b then b[s[k]] else -1
  }

  lemma DecodeStep(s: seq<Unit>, i: nat)
    requires Sym(s, i) >= 0
    ensures DecodeFrom(s, i) == Emit(PhaseValue(s, i)) + DecodeFrom(s, NextIndex(i))
  {
  }

  /** The value one turn of the loop computes is the phase value, and it leaves `i` at the next index. */
  lemma PhaseOf(s: seq<Unit>, i0: nat, c: int, i: nat)
    requires Sym(s, i0) >= 0
    requires i0 % 8 < 3 ==>
      (i == i0 + 2 && c == Sym(s, i0) * 1024 + Bits(Sym(s, i0 + 1)) * 16 + Bits(Sym(s, i0 + 2)) / 4)
    requires 3 <= i0 % 8 < 6 ==>
      (i == i0 + 3
       && c == Sym(s, i0) % 4 * 16384 + Bits(Sym(s, i0 + 1)) * 256 + Bits(Sym(s, i0 + 2)) * 4 + Bits(Sym(s, i0 + 3)) / 16)
    requires 6 <= i0 % 8 ==>
      (i == i0 + 3 && c == Sym(s, i0) % 16 * 4096 + Bits(Sym(s, i0 + 1)) * 64 + Bits(Sym(s, i0 + 2)))
    ensures c == PhaseValue(s, i0) && i == NextIndex(i0)
  {
  }

  lemma LoopStep(s: seq<Unit>, i0: nat, t0: seq<Unit>, t: seq<Unit>, i: nat)
    requires Sym(s, i0) >= 0 && i == NextIndex(i0)
    requires t == t0 + Emit(PhaseValue(s, i0))
    requires t0 + DecodeFrom(s, i0) == DecodeFrom(s, 1)
    ensures t + DecodeFrom(s, i) == DecodeFrom(s, 1)
  {
    DecodeStep(s, i0);
    Assoc(t0, Emit(PhaseValue(s, i0)), DecodeFrom(s, i));
  }

  /** One turn of the loop of `fn1` (mod.ts:378-385): the unit `c`, the next symbol value and index. */
  method Turn(b: map<Unit, int>, s: seq<Unit>, v: int, i: nat) returns (c: Unit, v': int, i': nat)
    requires IsSymbolTable(b) && 0 <= v && v == Sym(s, i)
    ensures c == PhaseValue(s, i) && i' == NextIndex(i) && v' == Sym(s, i')
  {
    var w: int;
    if i % 8 < 6 {
      if i % 8 < 3 {
        var v1 := Lookup(b, s, i + 1);
        var v2 := Lookup(b, s, i + 2);
        w := v * 1024 + Bits(v1) * 16 + Bits(v2) / 4;
        v', i' := v2, i + 2;
      } else {
        var v1 := Lookup(b, s, i + 1);
        var v2 := Lookup(b, s, i + 2);
        var v3 := Lookup(b, s, i + 3);
        w := v % 4 * 16384 + Bits(v1) * 256 + Bits(v2) * 4 + Bits(v3) / 16;
        v', i' := v3, i + 3;
      }
    } else {
      var v1 := Lookup(b, s, i + 1);
      var v2 := Lookup(b, s, i + 2);
      w := v % 16 * 4096 + Bits(v1) * 64 + Bits(v2);
      v' := Lookup(b, s, i + 3);
      i' := i + 3;
    }
    PhaseOf(s, i, w, i');
    c := w;
  }

  /** `fn1` of `unescapeUTF7` (mod.ts:374-389) on one match `s`, with the table `b`. */
  method DecodeMatch(b: map<Unit, int>, s: seq<Unit>) returns (t: seq<Unit>)
    requires IsSymbolTable(b)
    ensures t == DecodeToken(s)
  {
    if s == [PLUS, MINUS] {
      return [PLUS];
    }
    var v := Lookup(b, s, 1);
    var i := 1;
    t := [];
    while 0 <= v
      invariant 1 <= i && v == Sym(s, i)
      invariant t + DecodeFrom(s, i) == DecodeFrom(s, 1)
      decreases |s| - i
    {
      ghost var i0, t0 := i, t;
      var c: Unit;
      c, v, i := Turn(b, s, v, i);
      if c != 0 {
        t := t + [c];
      }
      LoopStep(s, i0, t0, t, i);
    }
    DecodeEnd(s, i);
    assert t + [] == t;
  }
}
