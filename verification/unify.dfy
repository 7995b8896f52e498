/**
 Glyph canonicalisation (`unify_roman_and_symbols`): look-alike forms of the
 Roman numeral one, of the dash and of the full stop are rewritten to the
 ASCII characters the later matchers look for.
 */
module Unify {
  import opened Text

  /** Glyphs rewritten to Latin "I", in the order the source replaces them. */
  const IVariants: seq<char> := ['Ⅰ', 'Ｉ', '𝑰', '𝐈', '𝘐', '𝕀', '𝖨', '𝗜', '𝛪']
  /** Glyphs rewritten to "-". */
  const DashVariants: seq<char> := ['–', '—', '−', '﹣', '‐']
  /** Glyphs rewritten to ".". */
  const PeriodVariants: seq<char> := ['。', '．', '｡']

  /** The source's loop: one `str.replace(v, to)` per variant, in list order. */
  function ReplaceAll(s: string, vs: seq<char>, to: char): string
    decreases |vs|
  {
    if vs == [] then s else ReplaceAll(ReplaceChar(s, vs[0], to), vs[1..], to)
  }

  /** The loop of replacements acts on each character on its own. */
  lemma {:induction false} ReplaceAllPointwise(s: string, vs: seq<char>, to: char)
    ensures |ReplaceAll(s, vs, to)| == |s|
    ensures forall k :: 0 <= k < |s| ==> ReplaceAll(s, vs, to)[k] == if s[k] in vs then to else s[k]
    decreases |vs|
  {
    if vs != [] {
      var t := ReplaceChar(s, vs[0], to);
      ReplaceAllPointwise(t, vs[1..], to);
      forall k | 0 <= k < |s|
        ensures ReplaceAll(s, vs, to)[k] == if s[k] in vs then to else s[k]
      {
        assert s[k] in vs <==> s[k] == vs[0] || s[k] in vs[1..];
      }
    }
  }

  /** Reference definition: the canonical form of a single character. */
  function Canonical(c: char): char
  {
    if c in IVariants then 'I'
    else if c in DashVariants then '-'
    else if c in PeriodVariants then '.'
    else c
  }

  predicate IsVariant(c: char) {
    c in IVariants || c in DashVariants || c in PeriodVariants
  }

  /** The canonical form of a character is never itself a variant, and a
      non-variant is its own canonical form. */
  lemma CanonicalFacts(c: char)
    ensures !IsVariant(Canonical(c))
    ensures !IsVariant(c) ==> Canonical(c) == c
  {
    assert 'I' !in IVariants && 'I' !in DashVariants && 'I' !in PeriodVariants;
    assert '-' !in IVariants && '-' !in DashVariants && '-' !in PeriodVariants;
    assert '.' !in IVariants && '.' !in DashVariants && '.' !in PeriodVariants;
  }

  /** The three replacement loops in sequence. Since no replacement target
      is itself replaced by a later loop, the chain acts on each character as
      a case split on the three lists. */
  function ReplaceChain(s: string, v1: seq<char>, t1: char, v2: seq<char>, t2: char,
                        v3: seq<char>, t3: char): (r: string)
    requires t1 !in v2 && t1 !in v3 && t2 !in v3
    ensures |r| == |s|
    ensures forall k :: 0 <= k < |s| ==>
      r[k] == if s[k] in v1 then t1 else if s[k] in v2 then t2 else if s[k] in v3 then t3 else s[k]
  {
    var a := ReplaceAll(s, v1, t1);
    var b := ReplaceAll(a, v2, t2);
    ReplaceAllPointwise(s, v1, t1);
    ReplaceAllPointwise(a, v2, t2);
    ReplaceAllPointwise(b, v3, t3);
    ReplaceAll(b, v3, t3)
  }

  /** `unify_roman_and_symbols`: the seventeen sequential replacements amount
      to rewriting every character to its canonical form, one character for
      one, so the length is preserved. */
  function UnifyRomanAndSymbols(s: string): (r: string)
    ensures |r| == |s|
    ensures forall k :: 0 <= k < |s| ==> r[k] == Canonical(s[k])
  {
    TargetsSurvive();
    ChainIsCanonical(s);
    ReplaceChain(s, IVariants, 'I', DashVariants, '-', PeriodVariants, '.')
  }

  /** The chain of the three loops rewrites each character to its canonical
      form. */
  lemma ChainIsCanonical(s: string)
    ensures 'I' !in DashVariants && 'I' !in PeriodVariants && '-' !in PeriodVariants
    ensures forall k :: 0 <= k < |s| ==>
      ReplaceChain(s, IVariants, 'I', DashVariants, '-', PeriodVariants, '.')[k] == Canonical(s[k])
  {
    TargetsSurvive();
    var r := ReplaceChain(s, IVariants, 'I', DashVariants, '-', PeriodVariants, '.');
    forall k | 0 <= k < |s|
      ensures r[k] == Canonical(s[k])
    {
      var c := s[k];
      assert r[k] == if c in IVariants then 'I' else if c in DashVariants then '-' else if c in PeriodVariants then '.' else c;
    }
  }

  /** No loop replaces the target of an earlier loop. */
  lemma TargetsSurvive()
    ensures 'I' !in DashVariants && 'I' !in PeriodVariants && '-' !in PeriodVariants
  {
  }

  /** After canonicalisation no variant glyph is left, and every character
      that was not a variant is untouched. */
  lemma UnifyLeavesNoVariant(s: string)
    ensures forall k :: 0 <= k < |s| ==> !IsVariant(UnifyRomanAndSymbols(s)[k])
    ensures forall k :: 0 <= k < |s| ==> !IsVariant(s[k]) ==> UnifyRomanAndSymbols(s)[k] == s[k]
  {
    var r := UnifyRomanAndSymbols(s);
    forall k | 0 <= k < |s|
      ensures !IsVariant(r[k]) && (!IsVariant(s[k]) ==> r[k] == s[k])
    {
      CanonicalFacts(s[k]);
    }
  }

  /** Canonicalising twice changes nothing more. */
  lemma UnifyIdempotent(s: string)
    ensures UnifyRomanAndSymbols(UnifyRomanAndSymbols(s)) == UnifyRomanAndSymbols(s)
  {
    var r := UnifyRomanAndSymbols(s);
    var rr := UnifyRomanAndSymbols(r);
    forall k | 0 <= k < |s|
      ensures rr[k] == r[k]
    {
      CanonicalFacts(s[k]);
      CanonicalFacts(r[k]);
    }
  }
}
