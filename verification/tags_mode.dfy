/**
 * `mode_tags`: look each character up in `TAG_MAP` and emit its tag when it
 * is a key, the character itself otherwise.
 *
 * The table is meant for emoji, but every key of `TAG_MAP` is a string of
 * two to five characters. A lookup of a single character therefore never
 * hits, and the transform leaves every text unchanged.
 */
module TagsMode {
  import opened Text

  /** `TAG_MAP`, written codepoint by codepoint (some keys hold a no-break space, U+00A0). */
  const TagMap: map<string, string> := map[
    "\U{E2}\U{153}\U{2026}" := "[CHECK]",                // "âœ…"
    "\U{E2}\U{161}\U{A0}\U{EF}\U{B8}" := "[WARNING]",    // "âš ï¸"
    "\U{E2}\U{AC}\U{2020}\U{EF}\U{B8}" := "[UP]",        // "â¬†ï¸"
    "\U{11F}\U{178}\U{201D}" := "[SEARCH]",              // "ğŸ”"
    "\U{11F}\U{178}\U{201C}\U{A6}" := "[PACKAGE]",       // "ğŸ“¦"
    "\U{E2}\U{152}" := "[ERROR]",                        // "âŒ"
    "\U{11F}\U{178}\U{201D}\U{A5}" := "[HOT]",           // "ğŸ”¥"
    "\U{11F}\U{178}\U{2022}\U{2019}" := "[TIME]",        // "ğŸ•’"
    "\U{11F}\U{178}\U{201C}" := "[FOLDER]",              // "ğŸ“"
    "\U{11F}\U{178}\U{201C}\U{201E}" := "[FILE]"         // "ğŸ“„"
  ]

  /** Python's `dict.get(key, default)`. */
  function GetOr<K, V>(m: map<K, V>, key: K, default: V): V {
    if key in m then m[key] else default
  }

  /** `TAG_MAP.get(c, c)`. */
  function Lookup(c: char): string {
    GetOr(TagMap, [c], [c])
  }

  /** The specification of `mode_tags`: the concatenation of the lookups, in order. */
  function TagsSpec(text: string): string {
    if text == [] then [] else Lookup(text[0]) + TagsSpec(text[1..])
  }

  /** The output is never shorter than the input. */
  lemma {:induction false} TagsSpecLength(text: string)
    ensures |TagsSpec(text)| >= |text|
  {
    if text != [] {
      TagsSpecLength(text[1..]);
    }
  }

  /** The transform works character by character: it distributes over concatenation. */
  lemma {:induction false} TagsSpecAppend(a: string, b: string)
    ensures TagsSpec(a + b) == TagsSpec(a) + TagsSpec(b)
  {
    if a != [] {
      assert (a + b)[0] == a[0];
      assert (a + b)[1..] == a[1..] + b;
      TagsSpecAppend(a[1..], b);
    } else {
      assert a + b == b;
    }
  }

  /** A text none of whose characters is a key passes through unchanged. */
  lemma {:induction false} TagsSpecNoKeys(text: string)
    requires forall i :: 0 <= i < |text| ==> [text[i]] !in TagMap
    ensures TagsSpec(text) == text
  {
    if text != [] {
      TagsSpecNoKeys(text[1..]);
      assert [text[0]] + text[1..] == text;
    }
  }

  /** Every key of the table is at least two characters long. */
  lemma KeysAreLong()
    ensures forall k :: k in TagMap ==> |k| >= 2
  {
  }

  /** As written, the transform is the identity: no single character is a key. */
  lemma {:induction false} TagsSpecIsIdentity(text: string)
    ensures TagsSpec(text) == text
  {
    KeysAreLong();
    forall i | 0 <= i < |text| ensures [text[i]] !in TagMap {
      assert |[text[i]]| == 1;
    }
    TagsSpecNoKeys(text);
  }

  /** "Build passed âœ…" comes out unchanged, although its last three characters form the key "âœ…". */
  lemma TagsExample()
    ensures TagsSpec("Build passed \U{E2}\U{153}\U{2026}") == "Build passed \U{E2}\U{153}\U{2026}"
    ensures "\U{E2}\U{153}\U{2026}" in TagMap
  {
    TagsSpecIsIdentity("Build passed \U{E2}\U{153}\U{2026}");
  }

  /** `mode_tags`: appends each lookup to a list, then joins the list. */
  method Tags(text: string) returns (r: string)
    ensures r == TagsSpec(text)
    ensures r == text
  {
    var result: seq<string> := [];
    for i := 0 to |text|
      invariant |result| == i
      invariant Join(result) == TagsSpec(text[..i])
    {
      var piece := Lookup(text[i]);
      JoinAppend(result, piece);
      assert text[..i + 1] == text[..i] + [text[i]];
      TagsSpecAppend(text[..i], [text[i]]);
      assert TagsSpec([text[i]]) == piece + TagsSpec([]);
      result := result + [piece];
    }
    assert text[..|text|] == text;
    r := Join(result);
    TagsSpecIsIdentity(text);
  }
}
