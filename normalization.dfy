/** The text normalisation applied before a recognised text is stored
    (api/api.py:59): `text.replace('\n', ' ').replace('\r', '').strip()`. */
module Normalization {

  /** Python's `str.isspace` for one character: the characters `str.strip()`
      removes when called without arguments. */
  predicate IsSpace(c: char) {
    ('\t' <= c <= '\r') || ('\U{1C}' <= c <= '\U{1F}') || c == ' ' || c == '\U{85}' || c == '\U{A0}'
    || c == '\U{1680}' || ('\U{2000}' <= c <= '\U{200A}') || c == '\U{2028}' || c == '\U{2029}'
    || c == '\U{202F}' || c == '\U{205F}' || c == '\U{3000}'
  }

  /** `s.replace('\n', ' ')`. */
  function ReplaceNewlines(s: string): string {
    if s == [] then [] else [if s[0] == '\n' then ' ' else s[0]] + ReplaceNewlines(s[1..])
  }

  /** Each line feed becomes exactly one space; every other character stays
      where it is. */
  lemma {:induction false} ReplaceNewlinesSpec(s: string)
    ensures var r := ReplaceNewlines(s);
            |r| == |s| && forall i :: 0 <= i < |s| ==> r[i] == if s[i] == '\n' then ' ' else s[i]
  {
    if s != [] {
      ReplaceNewlinesSpec(s[1..]);
    }
  }

  /** `s.replace('\r', '')`. */
  function DeleteCarriageReturns(s: string): string {
    if s == [] then [] else (if s[0] == '\r' then [] else [s[0]]) + DeleteCarriageReturns(s[1..])
  }

  /** Carriage returns are deleted and nothing takes their place: none is left,
      the text does not grow, and every other character is kept. */
  lemma {:induction false} DeleteCarriageReturnsSpec(s: string)
    ensures var r := DeleteCarriageReturns(s);
            '\r' !in r && |r| <= |s| && forall c :: c != '\r' ==> (c in r <==> c in s)
  {
    if s != [] {
      DeleteCarriageReturnsSpec(s[1..]);
      assert s == [s[0]] + s[1..];
    }
  }

  /** `DeleteCarriageReturns` works character by character: it distributes over
      concatenation, keeps every other character, and leaves a text without
      carriage returns as it is. */
  lemma {:induction false} DeleteCarriageReturnsAppend(a: string, b: string)
    ensures DeleteCarriageReturns(a + b) == DeleteCarriageReturns(a) + DeleteCarriageReturns(b)
  {
    if a != [] {
      assert (a + b)[1..] == a[1..] + b;
      DeleteCarriageReturnsAppend(a[1..], b);
    } else {
      assert a + b == b;
    }
  }

  lemma {:induction false} DeleteCarriageReturnsKeepsOthers(s: string)
    requires '\r' !in s
    ensures DeleteCarriageReturns(s) == s
  {
    if s != [] {
      DeleteCarriageReturnsKeepsOthers(s[1..]);
    }
  }

  /** `s.lstrip()`. */
  function StripLeading(s: string): string {
    if s != [] && IsSpace(s[0]) then StripLeading(s[1..]) else s
  }

  /** `lstrip()` keeps the longest suffix of `s` that does not start with white
      space; everything cut off is white space. */
  lemma {:induction false} StripLeadingSpec(s: string)
    ensures var r := StripLeading(s);
            |r| <= |s| && r == s[|s| - |r|..]
            && (forall i :: 0 <= i < |s| - |r| ==> IsSpace(s[i]))
            && (r != [] ==> !IsSpace(r[0]))
  {
    if s != [] && IsSpace(s[0]) {
      var t := s[1..];
      StripLeadingSpec(t);
      var r := StripLeading(t);
      assert StripLeading(s) == r;
      assert t[|t| - |r|..] == s[|s| - |r|..];
      forall i | 0 <= i < |s| - |r| ensures IsSpace(s[i]) {
        if i > 0 {
          assert s[i] == t[i - 1];
        }
      }
    }
  }

  /** `s.rstrip()`. */
  function StripTrailing(s: string): string {
    if s != [] && IsSpace(s[|s| - 1]) then StripTrailing(s[..|s| - 1]) else s
  }

  /** `rstrip()` keeps the longest prefix of `s` that does not end with white
      space; everything cut off is white space. */
  lemma {:induction false} StripTrailingSpec(s: string)
    ensures var r := StripTrailing(s);
            |r| <= |s| && r == s[..|r|]
            && (forall i :: |r| <= i < |s| ==> IsSpace(s[i]))
            && (r != [] ==> !IsSpace(r[|r| - 1]))
  {
    if s != [] && IsSpace(s[|s| - 1]) {
      var t := s[..|s| - 1];
      StripTrailingSpec(t);
      var r := StripTrailing(t);
      assert StripTrailing(s) == r;
      assert t[..|r|] == s[..|r|];
      forall i | |r| <= i < |s| ensures IsSpace(s[i]) {
        if i < |s| - 1 {
          assert s[i] == t[i];
        }
      }
    }
  }

  /** `s.strip()`. */
  function Strip(s: string): string {
    StripTrailing(StripLeading(s))
  }

  /** `strip()` yields a contiguous slice of `s` that neither starts nor ends with
      white space, with only white space cut off on either side. */
  lemma StripSpec(s: string)
    ensures exists i :: 0 <= i <= |s| && TrimmedAt(s, i, Strip(s))
    ensures var r := Strip(s); r != [] ==> !IsSpace(r[0]) && !IsSpace(r[|r| - 1])
  {
    var l := StripLeading(s);
    StripLeadingSpec(s);
    StripTrailingSpec(l);
    assert TrimmedAt(s, |s| - |l|, Strip(s));
  }

  /** `r` is the slice of `s` starting at `i`, and only white space of `s` lies
      outside it. */
  ghost predicate TrimmedAt(s: string, i: int, r: string) {
    0 <= i <= |s| - |r| && r == s[i..i + |r|]
    && (forall k :: 0 <= k < i ==> IsSpace(s[k]))
    && (forall k :: i + |r| <= k < |s| ==> IsSpace(s[k]))
  }

  /** A text with nothing to strip is its own `strip()`. */
  lemma StripUnchanged(s: string)
    requires s != [] ==> !IsSpace(s[0]) && !IsSpace(s[|s| - 1])
    ensures Strip(s) == s
  {
  }

  /** The normalisation of api/api.py:59. */
  function Normalize(s: string): string {
    Strip(DeleteCarriageReturns(ReplaceNewlines(s)))
  }

  /** A normalised text holds no line break of either kind and has no white
      space at either end. */
  lemma NormalizeClean(s: string)
    ensures var r := Normalize(s);
            '\n' !in r && '\r' !in r
            && (r != [] ==> !IsSpace(r[0]) && !IsSpace(r[|r| - 1]))
  {
    ReplaceNewlinesSpec(s);
    DeleteCarriageReturnsSpec(ReplaceNewlines(s));
    var noReturns := DeleteCarriageReturns(ReplaceNewlines(s));
    assert '\n' !in noReturns;
    StripSpec(noReturns);
    var r := Strip(noReturns);
    assert forall c :: c in r ==> c in noReturns;
  }

  /** Normalising normalised text changes nothing. */
  lemma NormalizeIdempotent(s: string)
    ensures Normalize(Normalize(s)) == Normalize(s)
  {
    var t := Normalize(s);
    NormalizeClean(s);
    ReplaceNewlinesSpec(t);
    assert ReplaceNewlines(t) == t;
    DeleteCarriageReturnsKeepsOthers(t);
    StripUnchanged(t);
  }

  /** Example: a Windows line ending collapses to one space. */
  lemma NormalizeCrLf()
    ensures Normalize("a\r\nb") == "a b"
  {
    CrLfSteps();
    assert Strip("a b") == "a b" by {
      assert "a b"[0] == 'a' && !IsSpace('a');
      assert StripLeading("a b") == "a b";
      assert "a b"[2] == 'b' && !IsSpace('b');
    }
  }

  lemma CrLfSteps()
    ensures DeleteCarriageReturns(ReplaceNewlines("a\r\nb")) == "a b"
  {
    assert ReplaceNewlines("a\r\nb") == "a\r b" by {
      assert ReplaceNewlines("b") == "b";
      assert ReplaceNewlines("\nb") == " b";
      assert ReplaceNewlines("\r\nb") == "\r b";
    }
    assert DeleteCarriageReturns("a\r b") == "a b" by {
      assert DeleteCarriageReturns("b") == "b";
      assert DeleteCarriageReturns(" b") == " b";
      assert DeleteCarriageReturns("\r b") == " b";
    }
  }

  /** The normalisation of each text of a batch, in order. */
  function NormalizeAll(texts: seq<string>): (r: seq<string>)
    ensures |r| == |texts|
  {
    if texts == [] then [] else NormalizeAll(texts[..|texts| - 1]) + [Normalize(texts[|texts| - 1])]
  }

  lemma {:induction false} NormalizeAllAt(texts: seq<string>, j: nat)
    requires j < |texts|
    ensures NormalizeAll(texts)[j] == Normalize(texts[j])
  {
    if j < |texts| - 1 {
      assert texts[..|texts| - 1][j] == texts[j];
      NormalizeAllAt(texts[..|texts| - 1], j);
    }
  }
}
