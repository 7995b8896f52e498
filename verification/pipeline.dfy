/**
 The text extraction pipeline shared by the two monetary-policy jobs. Both
 run glyph canonicalisation, normalisation and the two cuts; they differ only
 in segmentation: the issue report splits the body into one paragraph per
 department byline and cleans each, the rate-decision statement cleans the
 whole body as one document.
 */
module Pipeline {
  import opened Text
  import Unify
  import Normalize
  import Segment
  import Sentences

  datatype Segmentation = ByDepartmentHeader | Flat

  /** A list of paragraphs (issue report) or a single string (decision). */
  datatype Extracted = Paragraphs(items: seq<string>) | Document(text: string)

  /** Canonicalise, normalise, drop the front matter, cut the appendix. */
  function Body(raw: string): string
  {
    Segment.CutStatisticsSection(
      Segment.RemoveTableOfContents(
        Normalize.NormalizeText(Unify.UnifyRomanAndSymbols(raw))))
  }

  /** Segmentation and sentence cleanup of the body. The decision variant
      returns the kept sentences of the whole body joined by single spaces.
      The issue variant yields exactly one cleaned paragraph per department
      byline, empty ones included, each the kept sentences of its paragraph
      joined by single spaces. */
  function Segmented(body: string, mode: Segmentation): (r: Extracted)
    ensures mode == Flat <==> r.Document?
    ensures mode == Flat ==> r == Document(JoinSpace(Sentences.KeptSentences(body)))
    ensures mode == ByDepartmentHeader ==>
              r.Paragraphs?
              && |r.items| == |Segment.SplitParagraphsByAuthor(body)|
              && |r.items| == |Segment.SplitTokens(body, Segment.Departments)| / 2
              && forall k :: 0 <= k < |r.items| ==>
                   r.items[k] == JoinSpace(Sentences.KeptSentences(Segment.SplitParagraphsByAuthor(body)[k]))
  {
    match mode
    case Flat =>
      Sentences.CleanIsJoinOfKept(body);
      Document(Sentences.CleanNonTextBlocks(body))
    case ByDepartmentHeader =>
      var ps := Segment.SplitParagraphsByAuthor(body);
      assert |ps| == |Segment.SplitTokens(body, Segment.Departments)| / 2 by {
        Segment.SplitByAuthorShape(body);
      }
      Paragraphs(CleanEach(ps))
  }

  /** `[clean_non_text_blocks(p) for p in paras]`: each paragraph becomes its
      kept sentences joined by single spaces. */
  function CleanEach(ps: seq<string>): (r: seq<string>)
    ensures |r| == |ps|
    ensures forall k :: 0 <= k < |ps| ==> r[k] == JoinSpace(Sentences.KeptSentences(ps[k]))
  {
    forall k | 0 <= k < |ps|
      ensures Sentences.CleanNonTextBlocks(ps[k]) == JoinSpace(Sentences.KeptSentences(ps[k]))
    {
      Sentences.CleanIsJoinOfKept(ps[k]);
    }
    seq(|ps|, k requires 0 <= k < |ps| => Sentences.CleanNonTextBlocks(ps[k]))
  }

  /** `extract_paragraphs` of either job. */
  function ExtractParagraphs(raw: string, mode: Segmentation): (r: Extracted)
    ensures mode == Flat <==> r.Document?
  {
    Segmented(Body(raw), mode)
  }

  predicate NormalShape(s: string) {
    Normalize.SingleSpaced(s) && Normalize.AllAllowed(s) && Normalize.NoNoteCall(s)
  }

  /** Dropping the front matter keeps the shape of normalised text. */
  lemma TocKeepsShape(s: string)
    requires NormalShape(s)
    ensures NormalShape(Segment.RemoveTableOfContents(s))
  {
    var t := Segment.RemoveTableOfContents(s);
    Normalize.ShapeOfSlice(s, |s| - |t|, |s|);
  }

  /** Cutting the appendix keeps the shape of normalised text. */
  lemma CutKeepsShape(s: string)
    requires NormalShape(s)
    ensures NormalShape(Segment.CutStatisticsSection(s))
  {
    match FirstFrom((i: nat) => Segment.StatsHeadingAt(s, i), 0, |s|)
    case None =>
    case Some(i) =>
      Normalize.ShapeOfSlice(s, 0, i);
      assert s[0..i] == s[..i];
      Normalize.StripKeepsShape(s[..i]);
  }

  /** The body both variants segment is normalised text: single plain spaces
      only, allowed characters only, and no footnote call left. */
  lemma BodyShape(raw: string)
    ensures NormalShape(Body(raw))
  {
    var u := Unify.UnifyRomanAndSymbols(raw);
    var n := Normalize.NormalizeText(u);
    Normalize.NormalizeTextShape(u);
    TocKeepsShape(n);
    CutKeepsShape(Segment.RemoveTableOfContents(n));
  }
}
