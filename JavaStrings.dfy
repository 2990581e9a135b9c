/**
 * The few `java.lang.String` operations the token gate relies on, restated on
 * `seq<char>`: `isBlank`, `strip`, `startsWith` and `split` on a one-character
 * separator.
 */
module JavaStrings {

  /**
   * `Character.isWhitespace`: the Unicode space, line and paragraph separators
   * except the non-breaking ones (U+00A0, U+2007, U+202F), plus U+0009..U+000D
   * and U+001C..U+001F.
   */
  predicate IsWhitespace(c: char)
  {
    || ('\t' <= c <= '\r')
    || ('\U{001C}' <= c <= '\U{001F}')
    || c == ' '
    || c == '\U{1680}'
    || ('\U{2000}' <= c <= '\U{2006}')
    || ('\U{2008}' <= c <= '\U{200A}')
    || c == '\U{2028}'
    || c == '\U{2029}'
    || c == '\U{205F}'
    || c == '\U{3000}'
  }

  /**
   * The white-space set at work: ASCII blanks and controls U+0009..U+000D and
   * U+001C..U+001F, the Unicode space, line and paragraph separators, but not
   * the non-breaking spaces.
   */
  lemma WhitespaceExamples()
    ensures IsWhitespace(' ') && IsWhitespace('\t') && IsWhitespace('\n') && IsWhitespace('\U{001F}')
    ensures IsWhitespace('\U{2003}') && IsWhitespace('\U{2028}') && IsWhitespace('\U{3000}')
    ensures !IsWhitespace('\U{00A0}') && !IsWhitespace('\U{2007}') && !IsWhitespace('\U{202F}')
    ensures !IsWhitespace('\U{0085}') && !IsWhitespace('\U{200B}') && !IsWhitespace('a')
    ensures IsBlank("") && IsBlank(" \t\n") && !IsBlank(" \U{00A0}")
  {
    assert !IsWhitespace(" \U{00A0}"[1]);
  }

  /** `String.isBlank`: empty, or made of white space only. */
  predicate IsBlank(s: string)
  {
    forall i :: 0 <= i < |s| ==> IsWhitespace(s[i])
  }

  /** `String.startsWith`: `s` is `prefix` followed by the rest of the string. */
  predicate StartsWith(s: string, prefix: string)
    ensures StartsWith(s, prefix) <==> exists rest :: s == prefix + rest
  {
    assert prefix <= s ==> s == prefix + s[|prefix|..];
    prefix <= s
  }

  /** `String.stripLeading`: drops the longest white-space prefix. */
  function StripLeading(s: string): (r: string)
    ensures |r| <= |s| && r == s[|s| - |r|..]
    ensures forall i :: 0 <= i < |s| - |r| ==> IsWhitespace(s[i])
    ensures |r| > 0 ==> !IsWhitespace(r[0])
  {
    if |s| > 0 && IsWhitespace(s[0]) then StripLeading(s[1..]) else s
  }

  /** `String.stripTrailing`: drops the longest white-space suffix. */
  function StripTrailing(s: string): (r: string)
    ensures |r| <= |s| && r == s[..|r|]
    ensures forall i :: |r| <= i < |s| ==> IsWhitespace(s[i])
    ensures |r| > 0 ==> !IsWhitespace(r[|r| - 1])
  {
    if |s| > 0 && IsWhitespace(s[|s| - 1]) then StripTrailing(s[..|s| - 1]) else s
  }

  /**
   * `r` is what is left of `s` once the first `i` characters and everything
   * after `r` are cut off, and all that was cut off is white space.
   */
  predicate StripsTo(s: string, i: int, r: string)
  {
    && 0 <= i <= |s| - |r|
    && r == s[i..i + |r|]
    && (forall k :: 0 <= k < i ==> IsWhitespace(s[k]))
    && (forall k :: i + |r| <= k < |s| ==> IsWhitespace(s[k]))
  }

  /**
   * `String.strip`: the result is the infix of `s` left after cutting off
   * white space at both ends, it neither starts nor ends with white space,
   * and it is empty exactly when `s` is blank.
   */
  function Strip(s: string): (r: string)
    ensures exists i :: StripsTo(s, i, r)
    ensures |r| > 0 ==> !IsWhitespace(r[0]) && !IsWhitespace(r[|r| - 1])
    ensures r == [] <==> IsBlank(s)
  {
    StripFacts(s);
    StripTrailing(StripLeading(s))
  }

  lemma StripFacts(s: string)
    ensures var r := StripTrailing(StripLeading(s));
      && StripsTo(s, |s| - |StripLeading(s)|, r)
      && (|r| > 0 ==> !IsWhitespace(r[0]) && !IsWhitespace(r[|r| - 1]))
      && (r == [] <==> IsBlank(s))
  {
    var lead := StripLeading(s);
    var r := StripTrailing(lead);
    PrefixOfSuffixIsInfix(s, lead, r);
    var off := |s| - |lead|;
    if |r| > 0 {
      assert r[0] == lead[0] == s[off];
      assert !IsBlank(s);
    } else if |lead| == 0 {
      assert IsBlank(s);
    }
  }

  /**
   * Cutting a white-space prefix off `s` and then a white-space suffix off
   * what is left cuts only white space, at both ends.
   */
  lemma PrefixOfSuffixIsInfix(s: string, lead: string, r: string)
    requires |lead| <= |s| && lead == s[|s| - |lead|..]
    requires forall k :: 0 <= k < |s| - |lead| ==> IsWhitespace(s[k])
    requires |r| <= |lead| && r == lead[..|r|]
    requires forall k :: |r| <= k < |lead| ==> IsWhitespace(lead[k])
    ensures StripsTo(s, |s| - |lead|, r)
  {
    var off := |s| - |lead|;
    assert r == s[off..off + |r|];
    forall k | off + |r| <= k < |s| ensures IsWhitespace(s[k]) {
      assert s[k] == lead[k - off];
    }
  }

  /** Stripping adds no character: one that `s` lacks is missing from `Strip(s)` too. */
  lemma StripKeepsOut(s: string, c: char)
    requires c !in s
    ensures c !in Strip(s)
  {
    var r := Strip(s);
    var i :| StripsTo(s, i, r);
    assert forall j :: 0 <= j < |r| ==> r[j] == s[i + j];
  }

  /** `Strip` leaves alone exactly the strings that are already stripped. */
  lemma StripFixesStripped(s: string)
    ensures Strip(s) == s <==> |s| == 0 || (!IsWhitespace(s[0]) && !IsWhitespace(s[|s| - 1]))
  {
    if |s| > 0 && !IsWhitespace(s[0]) && !IsWhitespace(s[|s| - 1]) {
      assert StripLeading(s) == s;
    }
  }

  /** Leading white space is cut off one character at a time. */
  lemma StripSkipsLeadingWhitespace(s: string)
    requires |s| > 0 && IsWhitespace(s[0])
    ensures Strip(s) == Strip(s[1..])
  {
  }

  /**
   * The pieces of `s` between the occurrences of `sep`, keeping every empty
   * piece (the raw result of splitting, before Java drops trailing empties).
   */
  function SplitOn(s: string, sep: char): (parts: seq<string>)
    ensures |parts| >= 1
    ensures forall k :: 0 <= k < |parts| ==> sep !in parts[k]
  {
    if |s| == 0 then [""]
    else
      var rest := SplitOn(s[1..], sep);
      if s[0] == sep then [""] + rest
      else [[s[0]] + rest[0]] + rest[1..]
  }

  /** Joins `parts` with `sep` between neighbours: the inverse of `SplitOn`. */
  function Join(parts: seq<string>, sep: char): string
    requires |parts| >= 1
  {
    if |parts| == 1 then parts[0] else parts[0] + [sep] + Join(parts[1..], sep)
  }

  /** Splitting and joining again gives back the original string. */
  lemma {:induction false} JoinSplitOn(s: string, sep: char)
    ensures Join(SplitOn(s, sep), sep) == s
  {
    if |s| > 0 {
      JoinSplitOn(s[1..], sep);
      var rest := SplitOn(s[1..], sep);
      if s[0] != sep {
        if |rest| == 1 {
          assert s == [s[0]] + s[1..];
        } else {
          assert ([[s[0]] + rest[0]] + rest[1..])[1..] == rest[1..];
          assert s == [s[0]] + (rest[0] + [sep] + Join(rest[1..], sep));
        }
      } else {
        assert ([""] + rest)[1..] == rest;
      }
    }
  }

  /** Splitting at the first separator: the text before it is the first piece. */
  lemma {:induction false} SplitAtSeparator(a: string, sep: char, b: string)
    requires sep !in a
    ensures SplitOn(a + [sep] + b, sep) == [a] + SplitOn(b, sep)
  {
    if |a| == 0 {
      assert (a + [sep] + b)[1..] == b;
    } else {
      var s := a + [sep] + b;
      SplitAtSeparator(a[1..], sep, b);
      assert s[0] == a[0] != sep;
      assert s[1..] == a[1..] + [sep] + b;
      var rest := SplitOn(s[1..], sep);
      assert rest == [a[1..]] + SplitOn(b, sep);
      assert [s[0]] + rest[0] == a;
    }
  }

  /** A piece that is not blank makes the joined string not blank. */
  lemma {:induction false} NonBlankPieceJoinsNonBlank(parts: seq<string>, sep: char, k: nat)
    requires k < |parts| && !IsBlank(parts[k])
    ensures !IsBlank(Join(parts, sep))
  {
    if |parts| > 1 {
      var joined := Join(parts, sep);
      var rest := Join(parts[1..], sep);
      assert joined == parts[0] + [sep] + rest;
      if k == 0 {
        var i :| 0 <= i < |parts[0]| && !IsWhitespace(parts[0][i]);
        assert joined[i] == parts[0][i];
      } else {
        NonBlankPieceJoinsNonBlank(parts[1..], sep, k - 1);
        var i :| 0 <= i < |rest| && !IsWhitespace(rest[i]);
        assert joined[|parts[0]| + 1 + i] == rest[i];
      }
    }
  }

  /** Removes the empty strings at the end of `parts`. */
  function DropTrailingEmpty(parts: seq<string>): (r: seq<string>)
    ensures r <= parts
    ensures |r| > 0 ==> r[|r| - 1] != []
    ensures forall k :: |r| <= k < |parts| ==> parts[k] == []
  {
    if |parts| > 0 && parts[|parts| - 1] == [] then DropTrailingEmpty(parts[..|parts| - 1])
    else parts
  }

  /**
   * `String.split` with a one-character, non-regex-special separator and no
   * limit: a string without the separator splits into itself; otherwise the
   * raw pieces lose their trailing empty strings.
   */
  function Split(s: string, sep: char): (parts: seq<string>)
    ensures sep !in s ==> parts == [s]
    ensures sep in s ==> parts <= SplitOn(s, sep)
    ensures sep in s ==> forall k :: |parts| <= k < |SplitOn(s, sep)| ==> SplitOn(s, sep)[k] == []
    ensures sep in s && |parts| > 0 ==> parts[|parts| - 1] != []
    ensures forall k :: 0 <= k < |parts| ==> sep !in parts[k]
  {
    if sep !in s then [s] else DropTrailingEmpty(SplitOn(s, sep))
  }

  /**
   * `Split` keeps every non-empty piece of the raw split, and keeps nothing
   * that is not a piece: dropping empty strings changes only whether "" is
   * among the pieces.
   */
  lemma SplitPieces(s: string, sep: char)
    ensures forall p :: p in Split(s, sep) ==> p in SplitOn(s, sep)
    ensures forall p :: p in SplitOn(s, sep) && p != [] ==> p in Split(s, sep)
  {
    if sep !in s {
      NoSeparatorSplitsToItself(s, sep);
    } else {
      var raw := SplitOn(s, sep);
      var r := DropTrailingEmpty(raw);
      forall p | p in raw && p != [] ensures p in r {
        var k :| 0 <= k < |raw| && raw[k] == p;
        assert k < |r|;
        assert r[k] == p;
      }
      forall p | p in r ensures p in raw {
        var k :| 0 <= k < |r| && r[k] == p;
        assert raw[k] == p;
      }
    }
  }

  /**
   * Three pieces without separators, the last one non-empty, joined by two
   * separators split back into exactly those pieces (empty middle or first
   * pieces included).
   */
  lemma SplitThree(a: string, b: string, c: string, sep: char)
    requires sep !in a && sep !in b && sep !in c && c != []
    ensures Split(a + [sep] + b + [sep] + c, sep) == [a, b, c]
  {
    var s := a + [sep] + b + [sep] + c;
    assert s[|a|] == sep;
    SplitOnThree(a, b, c, sep);
    assert DropTrailingEmpty([a, b, c]) == [a, b, c];
  }

  /** The raw pieces of three separator-free strings joined by two separators. */
  lemma SplitOnThree(a: string, b: string, c: string, sep: char)
    requires sep !in a && sep !in b && sep !in c
    ensures SplitOn(a + [sep] + b + [sep] + c, sep) == [a, b, c]
  {
    var bc := b + [sep] + c;
    NoSeparatorSplitsToItself(c, sep);
    SplitAtSeparator(b, sep, c);
    assert SplitOn(bc, sep) == [b, c];
    SplitAtSeparator(a, sep, bc);
    assert a + [sep] + b + [sep] + c == a + [sep] + bc;
  }

  /** A string without the separator is its own single raw piece. */
  lemma {:induction false} NoSeparatorSplitsToItself(s: string, sep: char)
    requires sep !in s
    ensures SplitOn(s, sep) == [s]
  {
    if |s| > 0 {
      NoSeparatorSplitsToItself(s[1..], sep);
      assert [s[0]] + s[1..] == s;
    }
  }
}
