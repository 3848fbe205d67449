/**
 * The JIS X 0208 code tables that the double-byte codecs consult (imported from `table.ts`,
 * whose contents are not part of this model). They are left abstract; their types fix the
 * lengths that their names state: 11280 = 60 rows of 188 cells (Shift-JIS layout) and
 * 8836 = 94 rows of 94 cells (EUC-JP and ISO-2022-JP layout).
 */
module CodeTable {
  import opened Units

  type SjisTable = t: seq<Unit> | |t| == 11280 witness seq(11280, _ => 0)
  type KuTenTable = t: seq<Unit> | |t| == 8836 witness seq(8836, _ => 0)

  /** The Shift-JIS table, 188 cells per row. */
  const JCT11280: SjisTable

  /** The EUC-JP / JIS table, 94 cells per row. */
  const JCT8836: KuTenTable

  /** `t.indexOf(c)`: the first index holding `c`, or -1. */
  function IndexOf(t: seq<Unit>, c: Unit): (r: int)
    ensures -1 <= r
    ensures r == -1 <==> c !in t
    ensures r >= 0 ==> r < |t| && t[r] == c && c !in t[..r]
  {
    var r := IndexFrom(t, c, 0);
    assert r >= 0 ==> t[..r] == t[0..r];
    r
  }

  /** The search of `indexOf` from index `i`. */
  function IndexFrom(t: seq<Unit>, c: Unit, i: nat): (r: int)
    requires i <= |t|
    ensures r == -1 || (i <= r < |t| && t[r] == c)
    ensures forall j :: i <= j < |t| && (r == -1 || j < r) ==> t[j] != c
    decreases |t| - i
  {
    if i == |t| then -1 else if t[i] == c then i else IndexFrom(t, c, i + 1)
  }

  /** `t.lastIndexOf(c)`: the last index holding `c`, or -1. */
  function LastIndexOf(t: seq<Unit>, c: Unit): (r: int)
    ensures -1 <= r
    ensures r == -1 <==> c !in t
    ensures r >= 0 ==> r < |t| && t[r] == c && c !in t[r + 1..]
  {
    LastIndexBelow(t, c, |t|)
  }

  /** The search of `lastIndexOf` among the indices below `i`. */
  function LastIndexBelow(t: seq<Unit>, c: Unit, i: nat): (r: int)
    requires i <= |t|
    ensures r == -1 || (0 <= r < i && t[r] == c)
    ensures forall j :: 0 <= j < i && r < j ==> t[j] != c
    decreases i
  {
    if i == 0 then -1 else if t[i - 1] == c then i - 1 else LastIndexBelow(t, c, i - 1)
  }

  /** `t.charAt(i)`: the one-unit string at `i`, or the empty string out of range. */
  function CharAt(t: seq<Unit>, i: int): seq<Unit>
  {
    if 0 <= i < |t| then [t[i]] else []
  }

  /** Row and cell of an index into a table of 94 cells per row. */
  lemma RowCell(idx: int)
    requires 0 <= idx < 8836
    ensures 0 <= idx / 94 < 94 && 0 <= idx % 94 < 94 && (idx / 94) * 94 + idx % 94 == idx
  {
  }
}
