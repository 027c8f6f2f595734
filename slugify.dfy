/**
 * Django's `slugify(value)` (allow_unicode=False) on the ASCII part of its
 * input: lower-case, drop every character that is not a word character,
 * whitespace or '-', turn each run of '-' and whitespace into one '-', and
 * strip '-' and '_' from both ends.
 */
module Slugify {
  import opened Text

  /** Stands for NFKD normalisation followed by `encode("ascii", "ignore")`. */
  function AsciiOnly(s: string): (r: string)
    ensures forall i :: 0 <= i < |r| ==> r[i] < '\U{80}'
    ensures |r| <= |s|
  {
    if s == [] then []
    else if s[0] < '\U{80}' then [s[0]] + AsciiOnly(s[1..])
    else AsciiOnly(s[1..])
  }

  function LowerChar(c: char): char {
    if 'A' <= c <= 'Z' then (c as int + 32) as char else c
  }

  /** `str.lower()` on ASCII text. */
  function Lower(s: string): (r: string)
    ensures |r| == |s|
    ensures forall i :: 0 <= i < |r| ==> r[i] == LowerChar(s[i])
  {
    if s == [] then [] else [LowerChar(s[0])] + Lower(s[1..])
  }

  /** `\w` on an ASCII character. */
  predicate IsWordChar(c: char) {
    ('a' <= c <= 'z') || ('A' <= c <= 'Z') || IsDigit(c) || c == '_'
  }

  /** `[-\s]`: the characters a run of which becomes one '-'. */
  predicate IsSeparator(c: char) {
    c == '-' || IsSpace(c)
  }

  /** A lower-case ASCII word character: what `\w` leaves once the text is lower-cased. */
  predicate IsSlugWordChar(c: char) {
    ('a' <= c <= 'z') || IsDigit(c) || c == '_'
  }

  predicate HasNoUpper(s: string) {
    forall i :: 0 <= i < |s| ==> !('A' <= s[i] <= 'Z')
  }

  /** Every character is one `slugify` keeps before collapsing separators. */
  predicate KeptChars(s: string) {
    forall i :: 0 <= i < |s| ==> IsSlugWordChar(s[i]) || IsSeparator(s[i])
  }

  /** Every character is a lower-case word character or '-'. */
  predicate SlugChars(s: string) {
    forall i :: 0 <= i < |s| ==> IsSlugWordChar(s[i]) || s[i] == '-'
  }

  /** `re.sub(r"[^\w\s-]", "", s)`. */
  function KeepSlugChars(s: string): (r: string)
    ensures forall i :: 0 <= i < |r| ==> IsWordChar(r[i]) || IsSeparator(r[i])
    ensures HasNoUpper(s) ==> KeptChars(r)
  {
    if s == [] then []
    else if IsWordChar(s[0]) || IsSeparator(s[0]) then
      assert HasNoUpper(s) ==> HasNoUpper(s[1..]);
      [s[0]] + KeepSlugChars(s[1..])
    else
      assert HasNoUpper(s) ==> HasNoUpper(s[1..]);
      KeepSlugChars(s[1..])
  }

  /** The input after its leading run of separators. */
  function DropSeparators(s: string): (r: string)
    ensures |r| <= |s| && r == s[|s| - |r|..]
    ensures r == [] || !IsSeparator(r[0])
  {
    if s != [] && IsSeparator(s[0]) then DropSeparators(s[1..]) else s
  }

  predicate NoDoubleDash(s: string) {
    forall i :: 0 <= i < |s| - 1 ==> !(s[i] == '-' && s[i + 1] == '-')
  }

  /** `re.sub(r"[-\s]+", "-", s)`. */
  function CollapseSeparators(s: string): (r: string)
    ensures NoDoubleDash(r)
    ensures (r != [] && r[0] == '-') <==> (s != [] && IsSeparator(s[0]))
    ensures KeptChars(s) ==> SlugChars(r)
    decreases |s|
  {
    if s == [] then []
    else if IsSeparator(s[0]) then
      var rest := DropSeparators(s[1..]);
      assert KeptChars(s) ==> KeptChars(rest) by {
        if KeptChars(s) {
          forall i | 0 <= i < |rest| ensures IsSlugWordChar(rest[i]) || IsSeparator(rest[i]) {
            assert rest[i] == s[|s| - |rest| + i];
          }
        }
      }
      ['-'] + CollapseSeparators(rest)
    else
      assert KeptChars(s) ==> KeptChars(s[1..]);
      [s[0]] + CollapseSeparators(s[1..])
  }

  predicate IsEdgeChar(c: char) {
    c == '-' || c == '_'
  }

  function StripEdgeLeft(s: string): (r: string)
    ensures |r| <= |s| && r == s[|s| - |r|..]
    ensures r == [] || !IsEdgeChar(r[0])
  {
    if s != [] && IsEdgeChar(s[0]) then StripEdgeLeft(s[1..]) else s
  }

  function StripEdgeRight(s: string): (r: string)
    ensures |r| <= |s| && r == s[..|r|]
    ensures r == [] || !IsEdgeChar(r[|r| - 1])
  {
    if s != [] && IsEdgeChar(s[|s| - 1]) then StripEdgeRight(s[..|s| - 1]) else s
  }

  /** How many characters `s.strip("-_")` cuts from the front. */
  function LeadingEdges(s: string): nat {
    |s| - |StripEdgeLeft(s)|
  }

  /** `s.strip("-_")`: a slice of `s` with no '-' or '_' at either end. */
  function StripEdges(s: string): (r: string)
    ensures LeadingEdges(s) + |r| <= |s| && r == s[LeadingEdges(s)..LeadingEdges(s) + |r|]
    ensures r == [] || (!IsEdgeChar(r[0]) && !IsEdgeChar(r[|r| - 1]))
  {
    var left := StripEdgeLeft(s);
    var r := StripEdgeRight(left);
    assert r == [] || r[0] == left[0];
    r
  }

  function Slugify(value: string): (slug: string)
    ensures IsSlug(slug)
  {
    SlugStepsGiveSlug(value);
    StripEdges(CollapseSeparators(KeepSlugChars(Lower(AsciiOnly(value)))))
  }

  /** A slug: lower-case ASCII letters, digits, '_' and single '-', with no '-' or '_' at either end. */
  predicate IsSlug(s: string) {
    && (forall i :: 0 <= i < |s| ==> ('a' <= s[i] <= 'z') || IsDigit(s[i]) || s[i] == '_' || s[i] == '-')
    && NoDoubleDash(s)
    && (s == [] || (!IsEdgeChar(s[0]) && !IsEdgeChar(s[|s| - 1])))
  }

  /** Cutting '-' and '_' off the ends of single-dash slug characters leaves a slug. */
  lemma StripEdgesIsSlug(c: string)
    requires SlugChars(c) && NoDoubleDash(c)
    ensures IsSlug(StripEdges(c))
  {
    var r := StripEdges(c);
    var a := LeadingEdges(c);
    forall i | 0 <= i < |r| ensures IsSlugWordChar(r[i]) || r[i] == '-' {
      assert r[i] == c[a + i];
    }
    forall i | 0 <= i < |r| - 1 ensures !(r[i] == '-' && r[i + 1] == '-') {
      assert r[i] == c[a + i] && r[i + 1] == c[a + i + 1];
    }
  }

  /** Whatever the input, the steps of `slugify` produce a slug. */
  lemma SlugStepsGiveSlug(value: string)
    ensures IsSlug(StripEdges(CollapseSeparators(KeepSlugChars(Lower(AsciiOnly(value))))))
  {
    var lowered := Lower(AsciiOnly(value));
    assert HasNoUpper(lowered) by {
      forall i | 0 <= i < |lowered| ensures !('A' <= lowered[i] <= 'Z') {
        assert lowered[i] == LowerChar(AsciiOnly(value)[i]);
      }
    }
    var kept := KeepSlugChars(lowered);
    assert KeptChars(kept);
    StripEdgesIsSlug(CollapseSeparators(kept));
  }

  lemma {:induction false} AsciiOnlyKeepsAscii(s: string)
    requires SlugChars(s)
    ensures AsciiOnly(s) == s
  {
    if s != [] {
      assert SlugChars(s[1..]);
      AsciiOnlyKeepsAscii(s[1..]);
    }
  }

  lemma {:induction false} KeepSlugCharsKeepsSlugChars(s: string)
    requires SlugChars(s)
    ensures KeepSlugChars(s) == s
  {
    if s != [] {
      assert SlugChars(s[1..]);
      KeepSlugCharsKeepsSlugChars(s[1..]);
    }
  }

  /** The tail of single-dash slug characters is again single-dash slug characters. */
  lemma SlugCharsTail(s: string)
    requires s != [] && SlugChars(s) && NoDoubleDash(s)
    ensures SlugChars(s[1..]) && NoDoubleDash(s[1..])
    ensures !IsSpace(s[0])
    ensures s[0] == '-' ==> s[1..] == [] || !IsSeparator(s[1])
  {
    var rest := s[1..];
    forall i | 0 <= i < |rest| ensures IsSlugWordChar(rest[i]) || rest[i] == '-' {
      assert rest[i] == s[i + 1];
    }
    forall i | 0 <= i < |rest| - 1 ensures !(rest[i] == '-' && rest[i + 1] == '-') {
      assert rest[i] == s[i + 1] && rest[i + 1] == s[i + 2];
    }
  }

  lemma {:induction false} CollapseKeepsSingleDashes(s: string)
    requires SlugChars(s) && NoDoubleDash(s)
    ensures CollapseSeparators(s) == s
  {
    if s != [] {
      SlugCharsTail(s);
      CollapseKeepsSingleDashes(s[1..]);
      if s[0] == '-' {
        assert DropSeparators(s[1..]) == s[1..];
      }
    }
  }

  /** A slug passes through `slugify` unchanged. */
  lemma SlugifyFixesSlugs(s: string)
    requires IsSlug(s)
    ensures Slugify(s) == s
  {
    assert SlugChars(s) && NoDoubleDash(s);
    assert AsciiOnly(s) == s by { AsciiOnlyKeepsAscii(s); }
    assert Lower(s) == s;
    assert KeepSlugChars(s) == s by { KeepSlugCharsKeepsSlugChars(s); }
    assert CollapseSeparators(s) == s by { CollapseKeepsSingleDashes(s); }
  }

  /** `slugify` is idempotent. */
  lemma SlugifyIdempotent(value: string)
    ensures Slugify(Slugify(value)) == Slugify(value)
  {
    SlugifyFixesSlugs(Slugify(value));
  }
}
