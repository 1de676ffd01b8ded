/** Stripping of Unicode bidirectional control characters from user text. */
module TextDirection {

  /** The character class of the replacement: LRM, RLM, LRO, RLO and the four isolates U+2066..U+2069. */
  predicate IsBidiControl(c: char) {
    c == '\U{200E}' || c == '\U{200F}' || c == '\U{202D}' || c == '\U{202E}'
    || ('\U{2066}' <= c <= '\U{2069}')
  }

  /** The global replace of that class by the empty string. */
  function SanitizeText(text: string): (r: string)
    ensures |r| <= |text|
    ensures forall i :: 0 <= i < |r| ==> !IsBidiControl(r[i])
    ensures forall c :: c in r ==> c in text
  {
    if text == [] then []
    else if IsBidiControl(text[0]) then SanitizeText(text[1..])
    else [text[0]] + SanitizeText(text[1..])
  }

  /** Sanitizing distributes over concatenation. */
  lemma {:induction false} SanitizeConcat(a: string, b: string)
    ensures SanitizeText(a + b) == SanitizeText(a) + SanitizeText(b)
  {
    if a != [] {
      assert (a + b)[0] == a[0] && (a + b)[1..] == a[1..] + b;
      SanitizeConcat(a[1..], b);
      assert SanitizeText(a) == (if IsBidiControl(a[0]) then [] else [a[0]]) + SanitizeText(a[1..]);
    } else {
      assert a + b == b;
    }
  }

  /** A single character is dropped exactly when it is in the class. */
  lemma SanitizeChar(c: char)
    ensures SanitizeText([c]) == if IsBidiControl(c) then [] else [c]
  {
    assert [c][1..] == [];
  }

  /** Text without bidi controls comes back unchanged, and only such text does. */
  lemma {:induction false} SanitizeFixedIff(text: string)
    ensures SanitizeText(text) == text <==> forall i :: 0 <= i < |text| ==> !IsBidiControl(text[i])
  {
    if text != [] {
      SanitizeFixedIff(text[1..]);
      if IsBidiControl(text[0]) {
        assert |SanitizeText(text)| < |text|;
      } else {
        assert SanitizeText(text) == [text[0]] + SanitizeText(text[1..]);
        if SanitizeText(text) == text {
          assert SanitizeText(text[1..]) == text[1..];
        }
        assert (forall i :: 0 <= i < |text| ==> !IsBidiControl(text[i]))
          <==> (forall i :: 0 <= i < |text[1..]| ==> !IsBidiControl(text[1..][i]));
      }
    }
  }

  lemma SanitizeIdempotent(text: string)
    ensures SanitizeText(SanitizeText(text)) == SanitizeText(text)
  {
    SanitizeFixedIff(SanitizeText(text));
  }

  /** Every character outside the class survives, as often as it occurred. */
  lemma {:induction false} SanitizeKeepsOthers(text: string, c: char)
    requires !IsBidiControl(c)
    ensures multiset(SanitizeText(text))[c] == multiset(text)[c]
  {
    if text != [] {
      SanitizeKeepsOthers(text[1..], c);
      assert text == [text[0]] + text[1..];
    }
  }

  /** LRE, RLE and PDF (U+202A..U+202C) are not in the class and pass through. */
  lemma EmbeddingControlsKept()
    ensures SanitizeText("\U{202A}\U{202B}\U{202C}") == "\U{202A}\U{202B}\U{202C}"
  {
    SanitizeFixedIff("\U{202A}\U{202B}\U{202C}");
  }
}
