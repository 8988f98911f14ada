/**
 * `mode_unicode`: every character that is not printable, or whose codepoint
 * is above 127, becomes `"U+"` followed by its codepoint as `%04X`; every
 * other character is kept.
 */
module EscapeMode {
  import opened Wrappers
  import opened Text
  import opened HexFormat
  import opened Printability

  /** `f'U+{ord(c):04X}'`: six to eight characters, the codepoint in upper-case hex after "U+". */
  function Token(c: char): (tok: string)
    ensures 6 <= |tok| <= 8 && tok[..2] == "U+"
    ensures AllDigits(tok[2..]) && Value(tok[2..]) == c as int
    ensures tok[2..] == Format04X(c as int)
  {
    var tok := "U+" + Format04X(c as int);
    assert tok[2..] == Format04X(c as int);
    tok
  }

  predicate IsScalar(n: int) {
    0 <= n < 0xD800 || 0xE000 <= n < 0x11_0000
  }

  /** Reads one token back: "U+", at least four hex digits, a Unicode scalar value. */
  function ParseToken(s: string): Option<char> {
    if |s| >= 6 && s[..2] == "U+" && AllDigits(s[2..]) && IsScalar(Value(s[2..]))
    then Some(Value(s[2..]) as char)
    else None
  }

  /** The condition on line 31 under which a character is escaped. */
  predicate Escaped(db: UnicodeDb, c: char) {
    !IsPrintable(db, c) || c as int > 127
  }

  /**
   * What one input character contributes: either the character itself, when
   * it is printable ASCII, or a token that reads back as that character.
   */
  function EscapeChar(db: UnicodeDb, c: char): (piece: string)
    ensures piece == [c] <==> !Escaped(db, c)
    ensures Escaped(db, c) ==> piece == Token(c) && ParseToken(piece) == Some(c)
    ensures c as int > 127 ==> piece != [c]
  {
    if Escaped(db, c) then Token(c) else [c]
  }

  /** `''.join(EscapeChar(c) for c in text)`. */
  function Escape(db: UnicodeDb, text: string): (r: string)
    ensures |r| >= |text|
  {
    if text == [] then [] else EscapeChar(db, text[0]) + Escape(db, text[1..])
  }

  /** The per-character pieces whose concatenation is the output. */
  function Pieces(db: UnicodeDb, text: string): (ps: seq<string>)
    ensures |ps| == |text|
  {
    seq(|text|, i requires 0 <= i < |text| => EscapeChar(db, text[i]))
  }

  /** Reads one piece back: a single character stands for itself, anything longer must be a token. */
  function DecodePiece(p: string): Option<char> {
    if |p| == 1 then Some(p[0]) else ParseToken(p)
  }

  function DecodePieces(ps: seq<string>): Option<string> {
    if ps == [] then Some([])
    else match (DecodePiece(ps[0]), DecodePieces(ps[1..]))
      case (Some(c), Some(rest)) => Some([c] + rest)
      case _ => None
  }

  /** The output is the concatenation of the pieces. */
  lemma {:induction false} EscapeIsJoinOfPieces(db: UnicodeDb, text: string)
    ensures Escape(db, text) == Join(Pieces(db, text))
  {
    if text != [] {
      assert Pieces(db, text)[1..] == Pieces(db, text[1..]);
      EscapeIsJoinOfPieces(db, text[1..]);
    }
  }

  /** A piece reads back as the character it came from. */
  lemma DecodeOnePiece(db: UnicodeDb, c: char)
    ensures DecodePiece(EscapeChar(db, c)) == Some(c)
  {
  }

  /** Every piece reads back as its input character, so the pieces, in order, give back the input. */
  lemma {:induction false} PiecesRoundTrip(db: UnicodeDb, text: string)
    ensures DecodePieces(Pieces(db, text)) == Some(text)
  {
    if text != [] {
      var ps := Pieces(db, text);
      assert ps[0] == EscapeChar(db, text[0]);
      assert ps[1..] == Pieces(db, text[1..]);
      PiecesRoundTrip(db, text[1..]);
      DecodeOnePiece(db, text[0]);
      assert [text[0]] + text[1..] == text;
    }
  }

  /** Escaping works character by character: it distributes over concatenation. */
  lemma {:induction false} EscapeAppend(db: UnicodeDb, a: string, b: string)
    ensures Escape(db, a + b) == Escape(db, a) + Escape(db, b)
  {
    if a != [] {
      assert (a + b)[0] == a[0];
      assert (a + b)[1..] == a[1..] + b;
      EscapeAppend(db, a[1..], b);
    } else {
      assert a + b == b;
    }
  }

  /** Whatever the database answers above 127, the output depends only on its answers on ASCII. */
  lemma {:induction false} EscapeIgnoresDbAboveAscii(db1: UnicodeDb, db2: UnicodeDb, text: string)
    requires forall c: char :: c as int <= 127 ==> (IsPrintable(db1, c) <==> IsPrintable(db2, c))
    ensures Escape(db1, text) == Escape(db2, text)
  {
    if text != [] {
      EscapeIgnoresDbAboveAscii(db1, db2, text[1..]);
      assert EscapeChar(db1, text[0]) == EscapeChar(db2, text[0]);
    }
  }

  predicate PrintableAsciiChar(c: char) {
    32 <= c as int <= 126
  }

  /** A token is made of printable ASCII only. */
  lemma TokenPrintable(c: char)
    ensures forall i :: 0 <= i < |Token(c)| ==> PrintableAsciiChar(Token(c)[i])
  {
  }

  /** With the standard ASCII classification, the output is printable ASCII (codepoints 32..126) only. */
  lemma {:induction false} EscapeAlphabet(db: UnicodeDb, text: string)
    requires StandardOnAscii(db)
    ensures forall i :: 0 <= i < |Escape(db, text)| ==> PrintableAsciiChar(Escape(db, text)[i])
  {
    if text != [] {
      EscapeAlphabet(db, text[1..]);
      var c := text[0];
      if Escaped(db, c) {
        TokenPrintable(c);
      } else {
        PrintableAscii(db, c);
      }
    }
  }

  /** Output and input have the same length exactly when no character is escaped. */
  lemma {:induction false} EscapeLength(db: UnicodeDb, text: string)
    ensures |Escape(db, text)| == |text| <==> forall i :: 0 <= i < |text| ==> !Escaped(db, text[i])
  {
    if text != [] {
      EscapeLength(db, text[1..]);
      if Escaped(db, text[0]) {
        assert |Escape(db, text)| > |text|;
      } else {
        assert forall i :: 1 <= i < |text| ==> text[i] == text[1..][i - 1];
      }
    }
  }

  /** With the standard ASCII classification, text is unchanged exactly when it is all printable ASCII. */
  lemma {:induction false} EscapeFixedPoint(db: UnicodeDb, text: string)
    requires StandardOnAscii(db)
    ensures Escape(db, text) == text <==> forall i :: 0 <= i < |text| ==> PrintableAsciiChar(text[i])
  {
    if forall i :: 0 <= i < |text| ==> PrintableAsciiChar(text[i]) {
      KeepsPrintableAscii(db, text);
    } else {
      var i :| 0 <= i < |text| && !PrintableAsciiChar(text[i]);
      if text[i] as int <= 127 { PrintableAscii(db, text[i]); }
      EscapeLength(db, text);
    }
  }

  lemma {:induction false} KeepsPrintableAscii(db: UnicodeDb, text: string)
    requires StandardOnAscii(db)
    requires forall i :: 0 <= i < |text| ==> PrintableAsciiChar(text[i])
    ensures Escape(db, text) == text
  {
    if text != [] {
      PrintableAscii(db, text[0]);
      KeepsPrintableAscii(db, text[1..]);
    }
  }

  /** With the standard ASCII classification, escaping twice is escaping once. */
  lemma EscapeIdempotent(db: UnicodeDb, text: string)
    requires StandardOnAscii(db)
    ensures Escape(db, Escape(db, text)) == Escape(db, text)
  {
    EscapeAlphabet(db, text);
    KeepsPrintableAscii(db, Escape(db, text));
  }

  /** é (U+00E9) becomes "U+00E9". */
  lemma EscapeEAcute(db: UnicodeDb)
    ensures Escape(db, "\U{E9}") == "U+00E9"
  {
    assert Hex(0xE9) == "E9";
  }

  /** DEL, newline and tab are ASCII but not printable, so they are escaped too. */
  lemma EscapeControls(db: UnicodeDb)
    requires StandardOnAscii(db)
    ensures Escape(db, "\U{7F}") == "U+007F"
    ensures Escape(db, "\n") == "U+000A"
    ensures Escape(db, "\t") == "U+0009"
  {
  }

  /** The output as a whole cannot be decoded: é and the literal text "U+00E9" give the same output. */
  lemma EscapeNotInjective(db: UnicodeDb)
    requires StandardOnAscii(db)
    ensures "\U{E9}" != "U+00E9" && Escape(db, "\U{E9}") == Escape(db, "U+00E9")
  {
    EscapeEAcute(db);
    KeepsPrintableAscii(db, "U+00E9");
  }
}
