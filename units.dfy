/** Code units, hexadecimal digits, percent escapes and the safe set that every codec shares. */
module Units {

  /** A 16-bit code unit, as JavaScript's `charCodeAt` returns it (surrogates included). */
  type Unit = c: int | 0 <= c < 0x1_0000

  /** A byte value, the range of one `%XX` escape. */
  type Byte = b: int | 0 <= b < 256

  /** The code unit of an ASCII character literal. */
  function Asc(c: char): Unit
    requires c as int < 128
  {
    c as int
  }

  const PERCENT: Unit := 37

  /** The safe set `* + - . / 0-9 A-Z _ a-z`, i.e. the class `[*+.-9A-Z_a-z-]`. */
  predicate IsSafe(c: int)
  {
    c == 42 || c == 43 || 45 <= c <= 57 || 65 <= c <= 90 || c == 95 || 97 <= c <= 122
  }

  predicate AllSafe(s: seq<Unit>)
  {
    forall i :: 0 <= i < |s| ==> IsSafe(s[i])
  }

  /** The upper-case hexadecimal digit of `0 <= v < 16`, as `toString(16).toUpperCase()` writes it. */
  function HexDigit(v: int): (d: Unit)
    requires 0 <= v < 16
    ensures IsUpperHex(d) && HexVal(d) == v
  {
    if v < 10 then 48 + v else 55 + v
  }

  /** A hexadecimal digit in either case: the decoders' patterns carry the `i` flag. */
  predicate IsHex(c: int)
  {
    48 <= c <= 57 || 65 <= c <= 70 || 97 <= c <= 102
  }

  /** A hexadecimal digit as the encoders write it. */
  predicate IsUpperHex(c: int)
  {
    48 <= c <= 57 || 65 <= c <= 70
  }

  function HexVal(c: int): (v: int)
    requires IsHex(c)
    ensures 0 <= v < 16
  {
    if c <= 57 then c - 48 else if c <= 70 then c - 55 else c - 87
  }

  /** A hexadecimal digit whose value lies in `lo..hi`: a character class such as `[8-9A-F]`. */
  predicate HexIn(c: int, lo: int, hi: int)
  {
    IsHex(c) && lo <= HexVal(c) <= hi
  }

  /** `%XX` with two upper-case digits (`"%0"` is written before a single digit). */
  function Pct(b: Byte): (r: seq<Unit>)
    ensures |r| == 3 && r[0] == PERCENT && IsUpperHex(r[1]) && IsUpperHex(r[2])
    ensures PctAt(r, 0) && PctVal(r, 0) == b
  {
    [PERCENT, HexDigit(b / 16), HexDigit(b % 16)]
  }

  /** `s[i..]` starts with `%` and two hexadecimal digits. */
  predicate PctAt(s: seq<Unit>, i: int)
  {
    0 <= i && i + 3 <= |s| && s[i] == PERCENT && IsHex(s[i + 1]) && IsHex(s[i + 2])
  }

  /** The byte that the escape at `s[i..]` denotes: `parseInt(s.substring(i + 1, i + 3), 16)`. */
  function PctVal(s: seq<Unit>, i: int): (b: Byte)
    requires PctAt(s, i)
  {
    HexVal(s[i + 1]) * 16 + HexVal(s[i + 2])
  }

  /** `%XX` at `s[i..]` whose byte lies in `lo..hi`. */
  predicate PctIn(s: seq<Unit>, i: int, lo: int, hi: int)
  {
    PctAt(s, i) && lo <= PctVal(s, i) <= hi
  }

  /** Reading an escape only looks at its own three units. */
  lemma PctPrefix(t: seq<Unit>, rest: seq<Unit>, i: int)
    requires PctAt(t, i)
    ensures PctAt(t + rest, i) && PctVal(t + rest, i) == PctVal(t, i)
  {
    assert (t + rest)[i..i + 3] == t[i..i + 3];
  }

  /** Reading `Pct(b)` back gives `b`, whatever follows it. */
  lemma PctRead(b: Byte, rest: seq<Unit>)
    ensures PctAt(Pct(b) + rest, 0) && PctVal(Pct(b) + rest, 0) == b
  {
    PctPrefix(Pct(b), rest, 0);
  }

  /** The per-unit replacement that a `str.replace(/./g, f)` performs: `f` applied to each unit, joined. */
  function Flat(f: Unit -> seq<Unit>, s: seq<Unit>): (r: seq<Unit>)
    decreases |s|
  {
    if s == [] then [] else f(s[0]) + Flat(f, s[1..])
  }

  lemma FlatSingle(f: Unit -> seq<Unit>, c: Unit)
    ensures Flat(f, [c]) == f(c)
  {
    assert [c][1..] == [];
  }

  lemma {:induction false} FlatConcat(f: Unit -> seq<Unit>, a: seq<Unit>, b: seq<Unit>)
    ensures Flat(f, a + b) == Flat(f, a) + Flat(f, b)
    decreases |a|
  {
    if a != [] {
      assert (a + b)[0] == a[0] && (a + b)[1..] == a[1..] + b;
      FlatConcat(f, a[1..], b);
    } else {
      assert a + b == b;
    }
  }

  /** Flattening leaves a sequence alone when `f` maps every unit of it to itself. */
  lemma {:induction false} FlatIdentity(f: Unit -> seq<Unit>, s: seq<Unit>)
    requires forall i :: 0 <= i < |s| ==> f(s[i]) == [s[i]]
    ensures Flat(f, s) == s
    decreases |s|
  {
    if s != [] {
      assert f(s[0]) == [s[0]];
      FlatIdentity(f, s[1..]);
    }
  }

  /** Cutting a sequence around one of its units (a proof step that the solver misses in large contexts). */
  lemma SplitAt(s: seq<Unit>, n: nat)
    requires n < |s|
    ensures s == s[..n] + [s[n]] + s[n + 1..]
  {
  }

  lemma Assoc(a: seq<Unit>, b: seq<Unit>, c: seq<Unit>)
    ensures a + b + c == a + (b + c)
  {
  }
}
