/**
 * `mode_strip`: keep a character when it is one of space, newline, carriage
 * return and tab, or its codepoint lies in 32..126; drop every other one.
 * The printability predicate is not consulted.
 */
module StripMode {
  import opened Printability

  /** The whitelist of `mode_strip`. */
  predicate Allowed(c: char) {
    c in " \n\r\t" || 32 <= c as int < 127
  }

  /** `''.join(c for c in text if Allowed(c))`. */
  function Strip(text: string): (r: string)
    ensures |r| <= |text|
    ensures forall i :: 0 <= i < |r| ==> Allowed(r[i])
  {
    if text == [] then [] else (if Allowed(text[0]) then [text[0]] else []) + Strip(text[1..])
  }

  /** `s` is `t` with some characters removed, the rest kept in order. */
  predicate IsSubsequence(s: string, t: string)
    decreases |t|
  {
    if s == [] then true
    else if t == [] then false
    else (s[0] == t[0] && IsSubsequence(s[1..], t[1..])) || IsSubsequence(s, t[1..])
  }

  /** Stripping works character by character: it distributes over concatenation. */
  lemma {:induction false} StripAppend(a: string, b: string)
    ensures Strip(a + b) == Strip(a) + Strip(b)
  {
    if a != [] {
      assert (a + b)[0] == a[0];
      assert (a + b)[1..] == a[1..] + b;
      StripAppend(a[1..], b);
    } else {
      assert a + b == b;
    }
  }

  /** A single character survives exactly when it is allowed. */
  lemma StripOne(c: char)
    ensures Strip([c]) == if Allowed(c) then [c] else []
  {
  }

  /** The result keeps the order of the input. */
  lemma {:induction false} StripIsSubsequence(text: string)
    ensures IsSubsequence(Strip(text), text)
  {
    if text != [] {
      StripIsSubsequence(text[1..]);
      if Allowed(text[0]) {
        assert Strip(text)[1..] == Strip(text[1..]);
      } else {
        assert Strip(text) == Strip(text[1..]);
      }
    }
  }

  /** The result holds every allowed character of the input as often as the input does, and nothing else. */
  lemma {:induction false} StripCounts(text: string, c: char)
    ensures multiset(Strip(text))[c] == if Allowed(c) then multiset(text)[c] else 0
  {
    if text != [] {
      StripCounts(text[1..], c);
      assert text == [text[0]] + text[1..];
      assert multiset(text) == multiset([text[0]]) + multiset(text[1..]);
    }
  }

  /** Text is left unchanged exactly when all its characters are allowed. */
  lemma {:induction false} StripFixedPoint(text: string)
    ensures Strip(text) == text <==> forall i :: 0 <= i < |text| ==> Allowed(text[i])
  {
    if text != [] {
      StripFixedPoint(text[1..]);
      if !Allowed(text[0]) {
        assert |Strip(text)| == |Strip(text[1..])| < |text|;
      } else if Strip(text) == text {
        assert Strip(text[1..]) == text[1..];
      } else {
        assert Strip(text[1..]) != text[1..];
      }
    }
  }

  /** Stripping twice is stripping once. */
  lemma StripIdempotent(text: string)
    ensures Strip(Strip(text)) == Strip(text)
  {
    StripFixedPoint(Strip(text));
  }

  /**
   * The whitelist differs from the printability predicate on ASCII only by
   * newline, carriage return and tab, which it keeps and the predicate rejects;
   * above 127 it rejects everything, whatever the database says.
   */
  lemma AllowedVersusPrintable(db: UnicodeDb, c: char)
    requires StandardOnAscii(db)
    ensures Allowed(c) <==> (c as int <= 127 && IsPrintable(db, c)) || c in "\n\r\t"
  {
  }

  /** `"abc\n"` is unchanged. */
  lemma StripExample()
    ensures Strip("abc\n") == "abc\n"
  {
  }
}
