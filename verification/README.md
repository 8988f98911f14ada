# unicode-cleaner in Dafny

A model of the character-level core of `unicode_cleaner.py`, a command-line filter that rewrites a text
in one of three modes:

- **strip** (`mode_strip`): keeps only space, newline, carriage return, tab and codepoints 32..126,
  in order, and drops everything else. It does not consult the printability predicate.
- **unicode** (`mode_unicode`): replaces every character that is not printable, or whose codepoint is
  above 127, by `U+` and its codepoint as upper-case hex padded to four digits (`%04X`).
  It keeps every other character.
- **tags** (`mode_tags`): replaces each character by its entry in the fixed table `TAG_MAP` when it
  is a key, and otherwise leaves it. The loop that builds the output list is modelled as a Dafny method.

Modules, one per component of the file:

- `Printability` (`printability.dfy`): `is_printable`. Python's Unicode database (`str.isprintable`,
  `unicodedata.category`) is a parameter `UnicodeDb`. Its answers on ASCII are the stated assumption
  `StandardOnAscii`: 0..31 and 127 are category Cc and not printable, and 32..126 are printable and
  outside the C group. Above 127 the database stays arbitrary. `EscapeIgnoresDbAboveAscii` shows the
  output does not depend on it there.
- `HexFormat` (`hex_format.dfy`): the `%04X` rendering and its reading back.
- `StripMode`, `EscapeMode`, `TagsMode`: the three transforms and their properties.
- `Text` (`''.join`) and `Wrappers` (`Option`): helpers.

Characters are Dafny `char`, which holds Unicode scalar values. The file is read as UTF-8, and UTF-8
decoding never yields a surrogate, so this covers every input the tool can see.

The tags mode does not do what its own comments say. The comment on `TAG_MAP` (unicode_cleaner.py:6)
calls it a "mapping of common emoji to tags". The docstring of `mode_tags` (unicode_cleaner.py:36)
says it replaces "specific known emoji with plain tags". But every key of `TAG_MAP` is a string of two
to five characters, not a single emoji character. `mode_tags` looks up one character at a time, so no
lookup ever hits, and the transform is the identity on every text. The model follows the code:
`TagsSpecIsIdentity` proves the identity. `TagsExample` shows that `"Build passed âœ…"` comes out
unchanged, although `"âœ…"` is a key of the table.

## Model

| member | source | states |
|---|---|---|
| `Printability.PrintableAscii` | unicode_cleaner.py:20-22 | under the ASCII assumption, an ASCII character is printable iff its codepoint is in 32..126 |
| `HexFormat.Digit` | unicode_cleaner.py:31 | each digit value 0..15 has an upper-case hex character that reads back as that value |
| `HexFormat.Hex` | unicode_cleaner.py:31 | the shortest hex numeral of n: non-empty, all upper-case digits, denotes n, no leading zero unless it is the single digit 0 |
| `HexFormat.HexLength` | unicode_cleaner.py:31 | the numeral of n has at most k digits iff n < 16^k |
| `HexFormat.ZerosValue` | unicode_cleaner.py:31 | zero padding on the left keeps a numeral's value |
| `HexFormat.Format04X` | unicode_cleaner.py:31 | `%04X`: upper-case digits denoting n, at least 4 digits, a leading '0' only from padding, exactly 4 digits below 0x10000, unpadded from 0x1000 on, at most 6 digits up to 0x10FFFF |
| `StripMode.Strip` | unicode_cleaner.py:24-26 | the output is no longer than the input and all of its characters are on the whitelist |
| `StripMode.StripAppend` | unicode_cleaner.py:26 | stripping distributes over concatenation |
| `StripMode.StripOne` | unicode_cleaner.py:26 | one character is kept iff it is on the whitelist, and is dropped otherwise |
| `StripMode.StripIsSubsequence` | unicode_cleaner.py:26 | the output is a subsequence of the input, in the input's order |
| `StripMode.StripCounts` | unicode_cleaner.py:26 | each whitelisted character occurs as often in the output as in the input; no other character occurs |
| `StripMode.StripFixedPoint` | unicode_cleaner.py:26 | a text is unchanged iff every character of it is on the whitelist |
| `StripMode.StripIdempotent` | unicode_cleaner.py:26 | stripping twice equals stripping once |
| `StripMode.AllowedVersusPrintable` | unicode_cleaner.py:20-26 | the whitelist is "printable ASCII" plus newline, carriage return and tab; it does not use the predicate's answers above 127 |
| `StripMode.StripExample` | unicode_cleaner.py:26 | "abc\n" is unchanged |
| `EscapeMode.Token` | unicode_cleaner.py:31 | the token is 6 to 8 characters: "U+", then exactly the `%04X` numeral of the codepoint (`Format04X`), which denotes it |
| `EscapeMode.EscapeChar` | unicode_cleaner.py:31 | a character is kept iff it is printable with codepoint at most 127; otherwise it becomes exactly its `U+%04X` token, which reads back as it; codepoints above 127 are always escaped |
| `EscapeMode.Escape` | unicode_cleaner.py:28-33 | the output is never shorter than the input |
| `EscapeMode.Pieces` | unicode_cleaner.py:30-33 | one piece per input character |
| `EscapeMode.EscapeIsJoinOfPieces` | unicode_cleaner.py:30-33 | the output is the join of the per-character pieces |
| `EscapeMode.DecodeOnePiece` | unicode_cleaner.py:31 | the piece of any character, kept or escaped, reads back as that character |
| `EscapeMode.PiecesRoundTrip` | unicode_cleaner.py:31 | decoding the pieces in order gives back exactly the input |
| `EscapeMode.EscapeAppend` | unicode_cleaner.py:30-33 | escaping distributes over concatenation |
| `EscapeMode.EscapeIgnoresDbAboveAscii` | unicode_cleaner.py:20-33 | two databases that agree on the printability of ASCII give the same output |
| `EscapeMode.TokenPrintable` | unicode_cleaner.py:31 | every character of a token is printable ASCII |
| `EscapeMode.EscapeAlphabet` | unicode_cleaner.py:20-33 | under the ASCII assumption, every output character has a codepoint in 32..126 |
| `EscapeMode.EscapeLength` | unicode_cleaner.py:30-33 | the output has the input's length iff no character is escaped |
| `EscapeMode.KeepsPrintableAscii` | unicode_cleaner.py:20-33 | under the ASCII assumption, an all-printable-ASCII text is unchanged |
| `EscapeMode.EscapeFixedPoint` | unicode_cleaner.py:20-33 | under the ASCII assumption, a text is unchanged iff all its characters are in 32..126 |
| `EscapeMode.EscapeIdempotent` | unicode_cleaner.py:28-33 | under the ASCII assumption, escaping twice equals escaping once |
| `EscapeMode.EscapeEAcute` | unicode_cleaner.py:31 | é (U+00E9) becomes "U+00E9" |
| `EscapeMode.EscapeControls` | unicode_cleaner.py:20-33 | DEL, newline and tab become "U+007F", "U+000A" and "U+0009" |
| `EscapeMode.EscapeNotInjective` | unicode_cleaner.py:28-33 | é and the literal text "U+00E9" give the same output, so the whole output cannot be decoded |
| `Text.JoinAppend` | unicode_cleaner.py:39-40 | joining a list with one more string appended appends that string to the result |
| `TagsMode.KeysAreLong` | unicode_cleaner.py:7-18 | every key of the tag table has at least two characters |
| `TagsMode.TagsSpecLength` | unicode_cleaner.py:37-40 | the output is never shorter than the input |
| `TagsMode.TagsSpecAppend` | unicode_cleaner.py:37-40 | the transform distributes over concatenation |
| `TagsMode.TagsSpecNoKeys` | unicode_cleaner.py:38-39 | a text with no character that is a key passes through unchanged |
| `TagsMode.TagsSpecIsIdentity` | unicode_cleaner.py:7-40 | as written, the transform leaves every text unchanged |
| `TagsMode.TagsExample` | unicode_cleaner.py:7-40 | "Build passed âœ…" is unchanged, although "âœ…" is a key of the table |
| `TagsMode.Tags` | unicode_cleaner.py:35-40 | the list-and-join loop computes the concatenation of the per-character lookups, which equals the input |

## Left out

- `main` (unicode_cleaner.py:42-67): argument parsing, the `--mode` choice, reading and writing UTF-8 files, and the confirmation message. These are I/O and are not modelled.
- The contents of Python's Unicode database behind `str.isprintable()` and `unicodedata.category()`. They are a parameter. Only their ASCII answers are fixed, by the stated assumption `StandardOnAscii`, which is a fact about Unicode and not about this code.
- UTF-8 decoding errors, and writes that stop part way: these belong to the I/O boundary.
- The unused imports `sys` and `re`.
