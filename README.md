# deno-ecl escape codecs, modelled in Dafny

`mod.ts` of deno-ecl (a port of the "escape Codec Library") turns JavaScript strings into
`%XX`-escaped text in one of seven encodings, reads such text back, and guesses the encoding of
an escaped string. This project models those operations on sequences of 16-bit code units and
proves what they promise about each other.

- Text is `seq<Unit>`, where a `Unit` is a 16-bit code unit, as `charCodeAt` returns it.
  Escaped text is also `seq<Unit>`.
- Each `str.replace(regexp, fn)` becomes a left-to-right scanner. It finds the match the pattern
  has at the current position, alternatives tried in their written order, and replaces it by
  `fn`'s result. Every pattern that carries the `i` flag also accepts lower-case hexadecimal
  digits. A character class is read as JavaScript reads it. `[1-CEF]` in the three-byte branch of
  `unescapeUTF8` is the range U+0031-U+0043, so it also takes `:;<=>?@` (`Utf8.OddLead`), and
  `[!-_]` under the `i` flag also takes the lower-case letters.
- The loops of the source are `method`s with `while` loops. Each is proved equal to a function
  that specifies it. These are `rj_func`, `rij_func`/`fn2`, the segment loop of
  `unescapeJIS7`/`unescapeJIS8`, the table and decoder loops of `unescapeUTF7`, and the scan loop
  of `getEscapeCodeType`.
- The two code tables `JCT11280` and `JCT8836` of `table.ts` are abstract constants of lengths
  11280 and 8836. Their contents are not part of this model. Round trips through a table hold
  for the characters the table holds.

Modules:

| module | covers |
|---|---|
| `Units`, `CodeTable` | units, the safe set, `%XX`, and `indexOf`/`lastIndexOf`/`charAt` on the tables |
| `ShiftJis`, `EucJp` | `escapeSJIS`/`unescapeSJIS` and `escapeEUCJP`/`unescapeEUCJP` |
| `UnicodeEscape`, `Utf8`, `Utf16Le`, `Utf7` | the codecs of mod.ts:300-483 |
| `JisEscape` | the two or three replace passes of `escapeJIS7`/`escapeJIS8`, proved to write a "stream form" |
| `JisUnescape` | splitting at `%1B` and the per-segment decoders |
| `JisRoundTrip` | the stream form decodes back to the text |
| `Jis7`, `Jis8` | the JIS7 and JIS8 entry points |
| `Classifier` | `getEscapeCodeType` |
| `AutoDetect` | `unescape` |

The stream form (`JisEscape.EscFrom`) writes each maximal run of one character class after the
escape sequence of its class:

- `%1B%28B` for ASCII and the JIS8 single bytes;
- `%1B%28I` for half-width katakana;
- `%1B%24B` for JIS X 0208.

A run in the class the stream is already in gets no escape sequence, and the stream returns to
the base class at the end. The source never builds this form directly. It comes out of the
sentinel `g` at both ends, the successive passes, and `slice(8, -1)`. `JisEscape.EscapeStream`
proves, for every input, that the passes produce exactly this form.

## Model

| member | source | states |
|---|---|---|
| Units.HexDigit | mod.ts:45 | the digit `toString(16).toUpperCase()` writes for 0-15 is an upper-case hexadecimal digit that reads back as that value |
| Units.Pct | mod.ts:45 | `(c < 16 ? "%0" : "%") + c.toString(16).toUpperCase()` is `%` and two upper-case digits, which `parseInt(..., 16)` reads back as the byte |
| Units.PctRead | mod.ts:70 | an escaped byte is read back as the byte whatever follows it |
| CodeTable.IndexOf | mod.ts:48 | `indexOf` is -1 exactly when the table lacks the unit, otherwise the first index holding it |
| CodeTable.LastIndexOf | mod.ts:51 | `lastIndexOf` is -1 exactly when the table lacks the unit, otherwise the last index holding it |
| CodeTable.RowCell | mod.ts:101 | a table index below 8836 splits into a row and a cell below 94 that recombine to it |
| UnicodeEscape.EscapeUnicode | mod.ts:305-313 | `escapeUnicode`; its partner is `unescapeUnicode`, stated by UnicodeEscape.RoundTrip and UnicodeEscape.SafePassthrough |
| UnicodeEscape.UnescapeUnicode | mod.ts:321-327 | `unescapeUnicode`; it inverts `escapeUnicode` on every text (UnicodeEscape.RoundTrip) |
| UnicodeEscape.EscapeUnit | mod.ts:306-310 | a safe unit is kept exactly when it is safe; otherwise `%XX` below 256 and `%uXXXX` from 256, and each is a match of the decoder's pattern that reads back as the unit |
| UnicodeEscape.Hex4Read | mod.ts:309-310 | the four digits after `%u` read back as the unit |
| UnicodeEscape.TokenLength | mod.ts:322 | a match of the decoder's pattern (`%u` and four digits, or `%` and two) is 0, 3 or 6 units long and lies within the text |
| UnicodeEscape.UnescapeToken | mod.ts:321-327 | an escaped unit is read back as that unit, and the rest of the text afterwards on its own |
| UnicodeEscape.RoundTrip | mod.ts:305-327 | `unescapeUnicode(escapeUnicode(s)) == s` for every text |
| UnicodeEscape.SafePassthrough | mod.ts:306 | text of safe characters is not changed by escaping |
| UnicodeEscape.Hiragana | mod.ts:309-310 | `escapeUnicode("あ")` is `%u3042`, which reads back as あ |
| Utf8.EscapeUTF8 | mod.ts:399-414 | `escapeUTF8`; its partner is `unescapeUTF8`, stated by Utf8.RoundTrip and Utf8.SafePassthrough |
| Utf8.UnescapeUTF8 | mod.ts:421-436 | `unescapeUTF8`; it inverts `escapeUTF8` on text without surrogates (Utf8.RoundTrip) and leaves text without a match alone (Utf8.NoTokenUnchanged) |
| Utf8.TokenValue | mod.ts:424-434 | `fn1`; it rebuilds the unit of every escaped token (Utf8.TwoByteToken, Utf8.ThreeByteToken) and reads a lead `%E:` as 14 (Utf8.OddLead) |
| Utf8.EscapeUnit | mod.ts:401-412 | a unit is kept exactly when it is safe; otherwise one, two or three escaped bytes below 0x80, below 0x800 and from 0x800 |
| Utf8.TokenLength | mod.ts:422-423 | a match of the decoder's pattern, including a lead `%E` followed by one of `:;<=>?@`, is 0, 3, 6 or 9 units long and lies within the text |
| Utf8.TwoByteToken | mod.ts:407-433 | the two bytes of a unit 0x80-0x7FF are one match that rebuilds the unit |
| Utf8.ThreeByteRanges | mod.ts:423 | the first two bytes of a unit from 0x800 that is no surrogate fit the pattern: lead E0-EF and second byte 80-BF, A0-BF after E0 and 80-9F after ED |
| Utf8.ThreeByteToken | mod.ts:409-433 | the three bytes of such a unit are one match that rebuilds the unit |
| Utf8.UnescapeToken | mod.ts:399-436 | the escape of a unit that is no surrogate is read back as that unit, then the rest on its own |
| Utf8.RoundTrip | mod.ts:399-436 | `unescapeUTF8(escapeUTF8(s)) == s` for every text without surrogate units |
| Utf8.NoTokenUnchanged | mod.ts:421-436 | text in which no position starts a match is not changed by decoding |
| Utf8.SurrogateNotDecoded | mod.ts:409-423 | U+D800 escapes to `%ED%A0%80`, which the decoder's pattern rejects, so it stays escaped |
| Utf8.SafePassthrough | mod.ts:400 | text of safe characters is not changed by escaping |
| Utf8.LetterA | mod.ts:399-436 | `escapeUTF8("A")` is `A`, and `unescapeUTF8("%41")` is `A` |
| Utf8.OddLead | mod.ts:423-434 | `%E:%80%80` is one match through `[1-CEF]`, and `parseInt` reads its lead as 14, so it decodes to U+000E |
| Utf16Le.EscapeUTF16LE | mod.ts:443-456 | `escapeUTF16LE`; its partner is `unescapeUTF16LE`, stated by Utf16Le.RoundTrip and Utf16Le.DecodeEscaped |
| Utf16Le.UnescapeUTF16LE | mod.ts:463-483 | `unescapeUTF16LE`; it inverts `escapeUTF16LE` on text not starting with U+FEFF (Utf16Le.RoundTrip) and drops a leading `%FF%FE` (Utf16Le.RoundTripWithBom) |
| Utf16Le.H | mod.ts:444-449 | a byte is one literal unit exactly when it is safe; that unit is the byte and never `%`, and any other byte is an escape that reads back as the byte |
| Utf16Le.PairLength | mod.ts:466-469 | a match of the pair pattern is 0, 2, 4 or 6 units long and lies within the text |
| Utf16Le.PairValue | mod.ts:470-481 | `fn1`; each of the four alternatives gives `lo + 256 * hi` (Utf16Le.TwoPct, Utf16Le.PctThenLiteral, Utf16Le.LiteralThenPct, Utf16Le.TwoLiterals) |
| Utf16Le.TwoLiterals | mod.ts:467-479 | two literal bytes are the last alternative and give `lo + 256 * hi` |
| Utf16Le.LiteralThenPct | mod.ts:467-478 | a literal then an escaped byte are the third alternative and give `lo + 256 * hi` |
| Utf16Le.PctThenLiteral | mod.ts:467-477 | an escaped then a literal byte are the second alternative and give `lo + 256 * hi` |
| Utf16Le.TwoPct | mod.ts:467-474 | two escaped bytes are the first alternative and give `lo + 256 * hi` |
| Utf16Le.ReadPair | mod.ts:470-482 | a match covering exactly its bytes is read as one unit, then the rest on its own |
| Utf16Le.DecodeToken | mod.ts:443-482 | the two bytes `escapeUTF16LE` writes for a unit are read back as the unit whatever follows |
| Utf16Le.DecodeEscaped | mod.ts:443-482 | the pair decoder inverts `escapeUTF16LE` on every text |
| Utf16Le.RoundTrip | mod.ts:443-483 | `unescapeUTF16LE(escapeUTF16LE(s)) == s` for every text that does not start with U+FEFF |
| Utf16Le.RoundTripWithBom | mod.ts:465-482 | after a leading `%FF%FE`, which is removed, every text comes back, U+FEFF included |
| ShiftJis.EscapeSJIS | mod.ts:41-61 | `escapeSJIS`; its partner is `unescapeSJIS`, stated by ShiftJis.RoundTrip, ShiftJis.SafePassthrough and ShiftJis.Undefined |
| ShiftJis.UnescapeSJIS | mod.ts:68-85 | `unescapeSJIS`; it inverts `escapeSJIS` on table characters (ShiftJis.RoundTrip) |
| ShiftJis.SjisIndex | mod.ts:48-51 | the index escaping uses holds the unit: the first occurrence below 8272, else the last one, and -1 exactly when the table lacks it |
| ShiftJis.LeadByte | mod.ts:51-54 | a row 0-59 gives a lead byte 0x81-0x9F or 0xE0-0xFC, from which the decoder's `c < 160 ? c - 129 : c - 193` gives the row back |
| ShiftJis.TrailByte | mod.ts:55 | a cell 0-187 gives a trail byte 0x40-0x7E or 0x80-0xFC, never 0x7F, from which `c < 127 ? c - 64 : c - 65` gives the cell back |
| ShiftJis.TokenLength | mod.ts:82-83 | a match of the decoder's pattern is 0, 3, 4 or 6 units long and lies within the text |
| ShiftJis.DoubleByteToken | mod.ts:48-79 | the lead and trail of a table character are one match that reads back as the character |
| ShiftJis.UnescapeToken | mod.ts:41-85 | the escape of an ASCII, half-width katakana or table character is read back as it, then the rest on its own |
| ShiftJis.RoundTrip | mod.ts:41-85 | `unescapeSJIS(escapeSJIS(s)) == s` for every text of such characters |
| ShiftJis.SafePassthrough | mod.ts:59 | text of safe characters is not changed by escaping |
| ShiftJis.Undefined | mod.ts:48-49 | a character missing from the table escapes to `%81E`, which reads back as table entry 5 |
| ShiftJis.KanaBoundary | mod.ts:46-47 | U+FF61 and U+FF9F become the bytes A1 and DF, and U+FF60 is looked up in the table |
| ShiftJis.Hiragana | mod.ts:70-80 | `%82%A0` (row 1, cell 95) reads back as table entry 283 |
| EucJp.EscapeEUCJP | mod.ts:92-106 | `escapeEUCJP`; its partner is `unescapeEUCJP`, stated by EucJp.RoundTrip, EucJp.SafePassthrough and EucJp.Undefined |
| EucJp.UnescapeEUCJP | mod.ts:113-123 | `unescapeEUCJP`; it inverts `escapeEUCJP` on table characters (EucJp.RoundTrip) |
| EucJp.TokenLength | mod.ts:120-121 | a match of the decoder's pattern is 0, 3 or 6 units long and lies within the text |
| EucJp.KanjiToken | mod.ts:99-118 | the two bytes of a table character read back as that character, then the rest on its own |
| EucJp.UnescapeToken | mod.ts:92-123 | the escape of an ASCII, half-width katakana or table character is read back as it, then the rest on its own |
| EucJp.RoundTrip | mod.ts:92-123 | `unescapeEUCJP(escapeEUCJP(s)) == s` for every text of such characters |
| EucJp.SafePassthrough | mod.ts:104 | text of safe characters is not changed by escaping |
| EucJp.Undefined | mod.ts:99-100 | a character missing from the table escapes to `%A1%A6`, which reads back as table entry 5 |
| EucJp.KanaBoundary | mod.ts:97-98 | U+FF61 and U+FF9F become `%8E%A1` and `%8E%DF`, and U+FF60 is looked up in the table |
| EucJp.Hiragana | mod.ts:114-118 | `%A4%A2` (row 3, cell 1) reads back as table entry 283 |
| Utf7.EscapeUTF7 | mod.ts:337-360 | `escapeUTF7`; its partner is `unescapeUTF7`, stated by Utf7.RoundTrip |
| Utf7.UnescapeUTF7 | mod.ts:367-392 | `unescapeUTF7`; it inverts `escapeUTF7` on text without U+0000 (Utf7.RoundTrip) and loses U+0000 (Utf7.ZeroDropped) |
| Utf7.Symbol | mod.ts:330-331 | `characters.charAt(v)` is looked up in the decoder's table as `v` |
| Utf7.SymbolValue | mod.ts:368-372 | the decoder's table has an entry, below 64, exactly for `+`, `/`, the digits and the letters |
| Utf7.SymbolInverse | mod.ts:330-372 | each symbol is the only unit the table maps to its value |
| Utf7.EncodeChunk | mod.ts:340-350 | `E` writes 3, 6 or 8 symbols for a chunk of 1, 2 or 3 units, all of them in the table |
| Utf7.EncodeRunSymbols | mod.ts:351 | the encoding of a non-empty run is non-empty and made of symbols only |
| Utf7.NonSafeRun | mod.ts:352 | the run the pattern takes is the longest prefix of units outside the safe set |
| Utf7.ClassRun | mod.ts:373 | `[+/-9A-Za-z]*` takes exactly the symbols up to the first unit that is none |
| Utf7.TokenLength | mod.ts:373 | a match of `/[+][+/-9A-Za-z]*-?/` is at least the `+` and lies within the text |
| Utf7.DecodeA | mod.ts:378-380 | the first phase of a turn rebuilds the first unit of a chunk |
| Utf7.DecodeB | mod.ts:378-382 | the second phase rebuilds the second unit |
| Utf7.DecodeC | mod.ts:383-385 | the third phase rebuilds the third unit |
| Utf7.DecodeOne | mod.ts:340-388 | the 3 symbols of a final one-unit chunk decode to that unit, the zero padding unit dropped |
| Utf7.DecodeTwo | mod.ts:340-388 | the 6 symbols of a final two-unit chunk decode to those units |
| Utf7.DecodeThree | mod.ts:340-388 | the 8 symbols of a full chunk decode to its units and leave the loop at the next chunk |
| Utf7.DecodeRun | mod.ts:351-388 | the symbols of a run without U+0000, followed by no further symbol, decode back to the run |
| Utf7.RunDecodes | mod.ts:374-389 | after `+`, with or without the closing `-`, the symbols of a run decode to the run |
| Utf7.UnescapeRun | mod.ts:373-391 | `+`, a run's symbols and a unit that is no symbol are one match that decodes to the run |
| Utf7.UnescapePlus | mod.ts:375 | `+-` reads back as `+` |
| Utf7.UnescapeOther | mod.ts:391 | a unit other than `+` is copied |
| Utf7.CloseRead | mod.ts:357 | a run closed by `-+-`, a bare `*`, `.` or `_`, or `-` and another safe unit reads back as the run and that unit |
| Utf7.ScanSentinel | mod.ts:359 | the replacement of `str + "g"` ends in the `g`, so `slice(0, -1)` removes exactly that |
| Utf7.EscapeSafeHead | mod.ts:352-354 | a safe first unit is written as itself and `+` as `+-` |
| Utf7.EscapeRunLast | mod.ts:352-359 | an unsafe run up to the end is written `+`, its base64 and `-` |
| Utf7.EscapeRunInner | mod.ts:352-358 | an unsafe run before a safe unit is written `+`, its base64, and that unit as `fn1` closes it |
| Utf7.RoundTripBefore | mod.ts:337-392 | the escape of a text without U+0000 decodes to the text, and no match runs past it, whatever follows |
| Utf7.RoundTrip | mod.ts:337-392 | `unescapeUTF7(escapeUTF7(s)) == s` for every text without U+0000 |
| Utf7.ZeroDropped | mod.ts:387 | U+0000 is written `+AAA-`, which reads back as nothing |
| Utf7.LonePlus | mod.ts:354 | a lone `+` is written `+-` and read back |
| Utf7.NotEqualSign | mod.ts:337-360 | `A≠B` is written `A+ImA-B` |
| Utf7.NotEqualSignRead | mod.ts:367-392 | `A+ImA-B` reads back as `A≠B` |
| Utf7.BuildTable | mod.ts:368-372 | the loop fills the table `B` with exactly the 64 symbols, each mapped to its value |
| Utf7.Lookup | mod.ts:376-385 | `B[s.charAt(k)]` is a symbol's value, or undefined (-1) for a unit that is no symbol and past the end |
| Utf7.DecodeStep | mod.ts:377-388 | while the current symbol is in the table, one turn emits the phase value (none for 0) and moves two or three symbols on |
| Utf7.Turn | mod.ts:378-385 | one turn of the loop computes the phase value, the next index and the next symbol value |
| Utf7.DecodeMatch | mod.ts:374-390 | `fn1` on one match, with its while loop, computes the specified decoding of the match |
| JisEscape.Escape | mod.ts:164-168 | the sentinel, the passes and `slice(8, -1)`; JisEscape.EscapeStream states that this is the stream form |
| JisEscape.Passes | mod.ts:164-168 | the two or three `replace` passes; JisEscape.PassesRun and JisEscape.PassesSplit state what they do to runs |
| JisEscape.UnitCode | mod.ts:134-160 | the code of one unit in its class; JisEscape.UnitCodeAscii, JisEscape.KanaRun and JisEscape.KanjiCell state it per class |
| JisEscape.SetOf | mod.ts:148-164 | every unit is replaced by exactly one pass: ASCII, katakana or JIS X 0208 for JIS7, the single-byte class or JIS X 0208 for JIS8 |
| JisEscape.SetRun | mod.ts:148 | a pass's pattern takes the longest prefix in its class |
| JisEscape.UnitCodeAscii | mod.ts:134-160 | every unit of a run is written in ASCII |
| JisEscape.ConvertAscii | mod.ts:146-163 | the replacement of a run is ASCII, at least 7 units long, and starts with `%` |
| JisEscape.PassNone | mod.ts:165-168 | a pass leaves text without units of its class alone |
| JisEscape.PassRun | mod.ts:165-168 | a pass replaces a whole run of its class by one escape sequence and the run's units |
| JisEscape.PassSplit | mod.ts:165-168 | a pass works on two halves separately unless a run of its class spans the cut |
| JisEscape.PassFirst | mod.ts:165-168 | after a pass the first unit is `%` or is unchanged |
| JisEscape.PassLast | mod.ts:165-168 | after a pass the last unit is ASCII or is unchanged |
| JisEscape.PassAscii | mod.ts:164-168 | the katakana and JIS X 0208 passes leave ASCII text alone |
| JisEscape.PassesRun | mod.ts:165-168 | a run of one class comes out of all passes as the replacement of that class |
| JisEscape.PassesSplit | mod.ts:165-168 | where the class changes, all passes work on the two sides separately |
| JisEscape.Frame | mod.ts:165-168 | a run followed by text in another class and the closing `g` comes out as the run after its escape sequence, then the stream form of the rest |
| JisEscape.EscapeStream | mod.ts:165-168 | the passes followed by `slice(8, -1)` write exactly the stream form of the text |
| JisEscape.KanaRun | mod.ts:149-153 | `rj_func` appends `H(c - 65344)` per unit and so writes the katakana run's replacement |
| JisEscape.CellRemoved | mod.ts:160 | `(c - (c %= 94)) / 94` is the row `c / 94` |
| JisEscape.KanjiCell | mod.ts:158-160 | the row and cell of a table index, plus 33, are bytes 33-126 written by `H` |
| JisEscape.KanjiRun | mod.ts:155-163 | `rij_func`/`fn2` append per unit the row and cell bytes or `%21%26` and so write the JIS X 0208 run's replacement |
| JisUnescape.Replace49 | mod.ts:207 | `replace(/%49/g, "I")`; JisRoundTrip.Replace49Framed states that it leaves the stream form intact |
| JisUnescape.Normalize | mod.ts:203-207 | the designator normalisation; Jis7.NormalizeVariants and JisRoundTrip.NormalizeFramed state it |
| JisUnescape.DecodeSegments | mod.ts:209-215 | the segments before the first empty one, decoded; JisUnescape.RunSegments computes it and JisUnescape.StopsAtEmpty states where it stops |
| JisUnescape.Unstream | mod.ts:206-216 | `("%28B" + x).split(/%1B/i)` decoded; JisRoundTrip.UnstreamEscFrom states that it inverts the stream form |
| JisUnescape.NextEsc | mod.ts:208 | the next `%1B` (either case) at or after a position, or -1 when there is none |
| JisUnescape.Split | mod.ts:208 | `split(/%1B/i)` gives at least one piece |
| JisUnescape.KanjiMatch | mod.ts:201-202 | a match of `rK` is 0, 2, 4 or 6 units long and lies within the text |
| JisUnescape.KanjiIndex | mod.ts:186-198 | the index `K` reads from a match lies in the table, NaN becoming index 0 |
| JisUnescape.RunSegments | mod.ts:206-216 | the loop `while ((p = P[i++])) s += ...` computes the specified decoding of the segments |
| JisUnescape.StopsAtEmpty | mod.ts:209 | nothing after an empty segment is decoded |
| JisUnescape.AsciiUnit | mod.ts:178-199 | an ASCII unit as `escapeJIS7` writes it is read back by `rI`/`I` |
| JisUnescape.SingleUnit | mod.ts:265-282 | an ASCII or half-width katakana unit as `escapeJIS8` writes it is read back by `rI`/`I` |
| JisUnescape.KanaUnit | mod.ts:181-200 | a katakana unit as `rj_func` writes it is read back by `rJ`/`J` |
| JisUnescape.KanjiPP | mod.ts:186-202 | two escaped bytes are the first alternative of `rK` and give row * 94 + cell |
| JisUnescape.KanjiPL | mod.ts:186-202 | an escaped then a literal byte are the second alternative and give row * 94 + cell |
| JisUnescape.KanjiLP | mod.ts:186-202 | a literal then an escaped byte are the third alternative and give row * 94 + cell |
| JisUnescape.KanjiLL | mod.ts:186-202 | two literal bytes are the last alternative and give row * 94 + cell |
| JisUnescape.KanjiUnit | mod.ts:155-202 | a table character as `rij_func` writes it is read back by `rK`/`K` |
| JisUnescape.BodyRead | mod.ts:206-215 | a whole run, written in its class, is read back by that class's decoder whatever follows |
| JisRoundTrip.UnitCodeClean | mod.ts:134-163 | no unit other than ESC is written with a `%1B` in it |
| JisRoundTrip.EscFromFramed | mod.ts:130-168 | in the stream form of a text without ESC every `%1B` starts an escape sequence |
| JisRoundTrip.Replace49Framed | mod.ts:207 | `replace(/%49/g, "I")` leaves the stream form alone |
| JisRoundTrip.NormalizeFramed | mod.ts:203-207 | the normalising of `%1B%24%40`, `%1B%24%42` and `%1B%24@` leaves the stream form alone |
| JisRoundTrip.SplitCut | mod.ts:208 | a text without `%1B`, then `%1B`, is one piece before the pieces of what follows |
| JisRoundTrip.SegmentRead | mod.ts:209-215 | a segment, designator and body, decodes to its run |
| JisRoundTrip.OpenRead | mod.ts:207-214 | the prepended `%28B` reads as `(B`, which `substring(2)` drops |
| JisRoundTrip.BaseEmpty | mod.ts:214 | the closing designator alone decodes to nothing |
| JisRoundTrip.StreamRead | mod.ts:206-216 | a segment opened with part of a run, then the stream form of the rest, decodes to both |
| JisRoundTrip.UnstreamEscFrom | mod.ts:206-216 | the stream form of an encodable text, split and decoded, is the text |
| Jis7.UnescapeJIS7 | mod.ts:176-217 | `unescapeJIS7`; its partner is `escapeJIS7`, stated by Jis7.RoundTrip |
| Jis7.EscapeJIS7 | mod.ts:130-169 | `escapeJIS7` writes the stream form starting in ASCII |
| Jis7.RoundTrip | mod.ts:130-217 | `unescapeJIS7(escapeJIS7(s)) == s` for every text with no ESC unit whose JIS X 0208 characters are in the table |
| Jis7.AsciiNoShift | mod.ts:165-168 | ASCII text, the empty text included, gets no escape sequence |
| Jis7.EscFromCloses | mod.ts:165-168 | a text that ends outside the base class ends with the base class's escape sequence |
| Jis7.ClosesInAscii | mod.ts:165-168 | a text that ends outside ASCII ends with `%1B%28B` |
| Jis7.OneRun | mod.ts:149-168 | a text that is one non-ASCII run is its escape sequence, its units and `%1B%28B` |
| Jis7.NormalizeVariants | mod.ts:203-207 | `%1B%24%40`, `%1B%24%42` and `%1B%24@` all become `%1B%24B` |
| Jis7.KatakanaExample | mod.ts:149-153 | `ｱ` is written `%1B%28I1%1B%28B` |
| Jis8.UnescapeJIS8AsWritten | mod.ts:264-298 | `unescapeJIS8` as written; Jis8.AsWrittenEmpty states that it returns the empty string |
| Jis8.UnescapeJIS8 | mod.ts:264-298 | `unescapeJIS8` with the split at `%1B`; it inverts `escapeJIS8` (Jis8.RoundTrip) |
| Jis8.EscapeJIS8 | mod.ts:225-257 | `escapeJIS8` writes the stream form starting in the single-byte class |
| Jis8.Chars | mod.ts:291 | `split("")` gives one piece per unit |
| Jis8.AsWrittenEmpty | mod.ts:290-297 | as written, `unescapeJIS8` returns the empty string for every input |
| Jis8.AsWrittenLosesText | mod.ts:225-298 | `escapeJIS8("A")` is `A`, which the code as written reads back as the empty string |
| Jis8.RoundTrip | mod.ts:225-298 | with the split at `%1B`, `unescapeJIS8(escapeJIS8(s)) == s` for every text with no ESC unit whose JIS X 0208 characters are in the table |
| Jis8.KatakanaExample | mod.ts:233-237 | `ｱ` is written `%B1` with no escape sequence |
| Classifier.Window | mod.ts:513 | `substring(0, 6143)` is a prefix of the text, the whole text when it has at most 6143 units and exactly 6143 units otherwise |
| Classifier.ScanBytes | mod.ts:499-502 | `replace(rx8, func1)` read two digits at a time gives at most one byte per unit; what each unit gives is stated by Classifier.ScanEscaped, Classifier.ScanPlain and Classifier.LonePercent |
| Classifier.ScanEscaped | mod.ts:499-502 | escaped bytes are read as those bytes, whatever follows them |
| Classifier.ScanPlain | mod.ts:499-502 | every unit of a text without `%` is read as the byte 0x40 |
| Classifier.LonePercent | mod.ts:499-502 | a `%` not followed by two hexadecimal digits is read as the byte 0x40 |
| Classifier.Final | mod.ts:544 | `T ? T : EUCJP` is a tag the scan can give |
| Classifier.Settle | mod.ts:533-541 | the end of a pass either returns SJIS or moves on, keeping a set `T` among the scan's tags |
| Classifier.ScanStep | mod.ts:518-543 | one pass of the loop either returns SJIS or moves past the lead byte |
| Classifier.ScanFrom | mod.ts:518-544 | the scan's verdict is one of SJIS, EUCJP and UTF8 |
| Classifier.Scan | mod.ts:514-544 | the while loop computes the specified scan |
| Classifier.EscapeCodeType | mod.ts:490-545 | `getEscapeCodeType`; Classifier.GetEscapeCodeType computes it with the loop, and the lemmas below state what it gives |
| Classifier.GetEscapeCodeType | mod.ts:490-545 | the tests in their order, then the scan, compute the specified classification |
| Classifier.AsciiScan | mod.ts:518-544 | bytes below 0x80 never change the verdict |
| Classifier.SjisLead | mod.ts:537 | a lead 0x80-0xA0 is Shift_JIS at once, except 0x8E before A1-DF with `T` unset or EUCJP |
| Classifier.EucKana | mod.ts:533-536 | 0x8E before A1-DF sets EUCJP and reads the next byte as a lead |
| Classifier.Utf8Two | mod.ts:521-526 | C2-DF then 80-BF sets UTF8 and skips both bytes |
| Classifier.Utf8Three | mod.ts:527-531 | E0-EF then two bytes 80-BF sets UTF8 and skips all three |
| Classifier.ScanWindow | mod.ts:518 | the scan reads no byte beyond the 2047th, because the loop stops once `i` reaches 4092 |
| Classifier.NoMatch | mod.ts:491-498 | text without `%` matches none of the tests |
| Classifier.PlainText | mod.ts:490-545 | text without `%` is classified EUCJP |
| Classifier.LowNoMatch | mod.ts:492-496 | a test whose every alternative needs an escape outside 0x01-0x7E matches no text whose escapes are all bytes 0x01-0x7E |
| Classifier.LowEscapesJis7 | mod.ts:504-512 | such text that holds a `%1B` is classified JIS7 |
| Classifier.JisExample | mod.ts:510-511 | `%1B%28B` is classified JIS7 |
| Classifier.NoTestMatches | mod.ts:491-498 | a test matches nowhere when each alternative is refused at its `%` or at the digit after it |
| Classifier.SjisExample | mod.ts:490-545 | `%82%A0` is classified SJIS |
| Classifier.EucJpExample | mod.ts:490-545 | `%A4%A2` is classified EUCJP |
| AutoDetect.Unescape | mod.ts:552-570 | the decoder chosen by `getEscapeCodeType`; AutoDetect.AutoUnicode, AutoDetect.AutoJis7, AutoDetect.PlainUnchanged and AutoDetect.SjisDispatch state what it reads back |
| AutoDetect.PlainUnchanged | mod.ts:552-570 | text without `%` comes out of `unescape` unchanged |
| AutoDetect.UnicodeToken | mod.ts:504 | the escape of a unit from 256 holds a match of `/%u[0-9A-F]{4}/i` |
| AutoDetect.AutoUnicode | mod.ts:552-570 | `unescape(escapeUnicode(s)) == s` when `s` has a unit from 256 |
| AutoDetect.LowStream | mod.ts:130-168 | the JIS7 stream form of text without NUL and DEL escapes only bytes 0x01-0x7E |
| AutoDetect.StreamShifts | mod.ts:165-168 | text with a unit outside the starting class gets an escape sequence, and so `%1B` |
| AutoDetect.AutoJis7 | mod.ts:552-570 | `escapeJIS7` of encodable text without NUL and DEL but with a unit from 128 is classified JIS7, and `unescape` reads it back |
| AutoDetect.SjisDispatch | mod.ts:552-570 | `unescape("%82%A0")` is the Shift_JIS table's cell for あ |

## Left out

- `unescape` (`AutoDetect.Unescape`) sends JIS8 text to the corrected `unescapeJIS8` (see Findings). Automatic detection is proved only for plain text, for `escapeUnicode` output with a unit from 256, and for `escapeJIS7` output. For the other encoders the source's guess is a heuristic with no promise to state.
- Jis7.RoundTrip, Jis8.RoundTrip: hold only for text without the unit ESC (0x1B). ESC is escaped to `%1B`, which the decoders take for the start of an escape sequence, and ISO-2022-JP text does not carry a bare ESC.
- Jis7.RoundTrip, Jis8.RoundTrip, ShiftJis.RoundTrip, EucJp.RoundTrip: need every JIS X 0208 character to be in its table. A missing character is written as the table's placeholder (`Undefined`).
- Utf7.RoundTrip: needs text without U+0000, because `if (c)` at mod.ts:387 drops a decoded 0 (`Utf7.ZeroDropped`).
- Utf8.RoundTrip: needs text without surrogate units, because their escapes fall outside the decoder's pattern (`Utf8.SurrogateNotDecoded`).
- Utf16Le.RoundTrip: needs text that does not start with U+FEFF, because `/^%FF%FE/i` removes it (`Utf16Le.RoundTripWithBom`).
- Utf16Le.PairLength: takes the class `[\x00-\xFF]` of mod.ts:464-467 literally, as units below 256. Under JavaScript's case-insensitive matching the class also admits U+0178, U+039C and U+03BC, whose case partners lie below 256. The model does not admit them.
- The contents of `JCT11280` and `JCT8836` (`table.ts`) are not part of this model. Only their lengths 11280 and 8836 are fixed.
- The scan of `getEscapeCodeType` is modelled on the byte sequence of the two-digit string `S`. Its lead position `p` is the source's `i / 2`, and reading past the end of `S`, which gives NaN, is "no byte".
- The seven tags are a datatype rather than the strings `"Unicode"`, `"UTF16LE"` and so on, and the `encodes` array and the `Encode` type of mod.ts:25-34 are not modelled.
- The `isUnicode`, `isUTF8`… wrappers of mod.ts:572-613 only compare `getEscapeCodeType` with one tag. They are not modelled.
- Strings are sequences of UTF-16 code units. A character outside the BMP is its two surrogate units, as JavaScript sees it.

## Findings

| source | as written | input that shows it | evidently intended | confidence | as-written member | corrected member |
|---|---|---|---|---|---|---|
| mod.ts:291 | `(str1 + str.replace(rx1, str2)).split("")` cuts the text into single units. No one-unit piece equals `%24B`, and `substring(2)` leaves nothing of it, so `unescapeJIS8` returns the empty string for every input | `unescapeJIS8(escapeJIS8("A"))`, that is `unescapeJIS8("A")`, gives `""` | `.split(/%1B/i)`, as `unescapeJIS7` does at mod.ts:207-208 | not executed | Jis8.AsWrittenEmpty | Jis8.RoundTrip |
