/**
 The summarisation batch requests: a length bucket chosen from a token count,
 the system prompt that names the bucket, and one chat-completion request
 record per paragraph (issue report) or for the whole document (decision).
 Records are modelled as data; writing them as JSON lines is left out.
 */
module Requests {
  import opened Wrappers
  import opened Text
  import opened Decimal

  // ---------------------------------------------------------------------
  // Length buckets
  // ---------------------------------------------------------------------

  /** The requested summary length, shortest first. */
  datatype Bucket = ThreeToFour | FiveToSix | SixToEight | EightToTen

  /** The label the prompt uses for a bucket. */
  function Label(b: Bucket): string
  {
    match b
    case ThreeToFour => "3~4줄"
    case FiveToSix => "5~6줄"
    case SixToEight => "6~8줄"
    case EightToTen => "8~10줄"
  }

  /** Position of a bucket in the order shortest to longest. */
  function Rank(b: Bucket): nat
  {
    match b
    case ThreeToFour => 0
    case FiveToSix => 1
    case SixToEight => 2
    case EightToTen => 3
  }

  /** The token counts at which the next longer bucket starts. */
  const Thresholds: seq<nat> := [1000, 2000, 3000]

  /** How many thresholds `tokens` has reached. */
  function Reached(ths: seq<nat>, tokens: nat): (n: nat)
    ensures n <= |ths|
  {
    if ths == [] then 0 else (if ths[0] <= tokens then 1 else 0) + Reached(ths[1..], tokens)
  }

  /** `decide_summary_lines` (identical in both jobs). */
  function DecideSummaryLines(tokens: nat): Bucket
  {
    if tokens < 1000 then ThreeToFour
    else if tokens < 2000 then FiveToSix
    else if tokens < 3000 then SixToEight
    else EightToTen
  }

  /** The bucket is the number of thresholds the count has reached. */
  lemma DecideMatchesThresholds(tokens: nat)
    ensures Rank(DecideSummaryLines(tokens)) == Reached(Thresholds, tokens)
  {
    var t3: seq<nat> := [3000];
    var t23: seq<nat> := [2000, 3000];
    assert t3[1..] == [];
    assert Reached(t3, tokens) == if 3000 <= tokens then 1 else 0;
    assert t23[1..] == t3;
    assert Reached(t23, tokens) == (if 2000 <= tokens then 1 else 0) + Reached(t3, tokens);
    assert Thresholds[1..] == t23;
    assert Reached(Thresholds, tokens) == (if 1000 <= tokens then 1 else 0) + Reached(t23, tokens);
  }

  /** A larger token count never asks for a shorter summary. */
  lemma DecideMonotone(a: nat, b: nat)
    requires a <= b
    ensures Rank(DecideSummaryLines(a)) <= Rank(DecideSummaryLines(b))
  {
  }

  /** Different buckets have different labels. */
  lemma LabelInjective(a: Bucket, b: Bucket)
    requires Label(a) == Label(b)
    ensures a == b
  {
  }

  /** The bucket a label names. */
  function BucketOfLabel(l: string): (r: Option<Bucket>)
    ensures r.Some? ==> Label(r.value) == l
  {
    if l == Label(ThreeToFour) then Some(ThreeToFour)
    else if l == Label(FiveToSix) then Some(FiveToSix)
    else if l == Label(SixToEight) then Some(SixToEight)
    else if l == Label(EightToTen) then Some(EightToTen)
    else None
  }

  lemma BucketOfLabelInverse(b: Bucket)
    ensures BucketOfLabel(Label(b)) == Some(b)
  {
  }

  // ---------------------------------------------------------------------
  // Token estimates and prompts
  // ---------------------------------------------------------------------

  /** The decision job's `estimate_tokens`: `int(len(text) / 3)`. The float
      quotient of two non-negative integers truncates to the floor. */
  function EstimateTokens(text: string): (e: nat)
    ensures 3 * e <= |text| < 3 * e + 3
  {
    |text| / 3
  }

  /** Through the estimate, the decision bucket depends on the character
      count alone, with steps at 3000, 6000 and 9000 characters. */
  lemma DecisionBucketByLength(text: string)
    ensures DecideSummaryLines(EstimateTokens(text)) == ThreeToFour <==> |text| < 3000
    ensures DecideSummaryLines(EstimateTokens(text)) == FiveToSix <==> 3000 <= |text| < 6000
    ensures DecideSummaryLines(EstimateTokens(text)) == SixToEight <==> 6000 <= |text| < 9000
    ensures DecideSummaryLines(EstimateTokens(text)) == EightToTen <==> 9000 <= |text|
  {
  }

  /** The fixed text before and after the bucket label in the issue prompt. */
  const IssuePromptHead: string :=
    "\n너는 경제 분석 전문가야. \n다음 문단을 불필요한 문장이나 반복 표현은 제거하고 핵심 경제 흐름만 정리하고 핵심만 "
  const IssuePromptTail: string :=
    "로 요약해줘. \n이를 대표하는 제목을 1줄로 작성해줘.\n"

  /** The fixed text before and after the bucket label in the decision prompt. */
  const DecisionPromptHead: string :=
    "\n너는 경제 분석 전문가야. \n다음 문단을 불필요한 문장이나 반복 표현은 제거하고 핵심 경제 흐름만 정리하여 핵심 내용을 "
  const DecisionPromptTail: string :=
    "로 요약해줘. \n요약은 '핵심 문장 단위 문자열 리스트' 형태로 반환해야 해.\n또한 기준 금리 변동 여부를 제목으로 1줄로 작성해줘.\n"

  /** `build_system_prompt`: the label between the job's fixed head and tail. */
  function Prompt(head: string, b: Bucket, tail: string): string
  {
    head + Label(b) + tail
  }

  /** Reads the bucket back from a prompt with the given head and tail. */
  function BucketOfPrompt(p: string, head: string, tail: string): Option<Bucket>
  {
    if |head| + |tail| <= |p| && p[..|head|] == head && p[|p| - |tail|..] == tail
    then BucketOfLabel(p[|head|..|p| - |tail|])
    else None
  }

  /** The prompt names its bucket recoverably: reading it back gives the
      bucket it was built from. */
  lemma PromptNamesBucket(head: string, b: Bucket, tail: string)
    ensures BucketOfPrompt(Prompt(head, b, tail), head, tail) == Some(b)
  {
    var p := Prompt(head, b, tail);
    assert p[..|head|] == head;
    assert p[|p| - |tail|..] == tail;
    assert p[|head|..|p| - |tail|] == Label(b);
    BucketOfLabelInverse(b);
  }

  // ---------------------------------------------------------------------
  // Request records
  // ---------------------------------------------------------------------

  datatype Role = System | User

  datatype Message = Message(role: Role, content: string)

  /** JSON-schema type of the `summary` field of the expected answer. */
  datatype SummaryShape = SummaryString | SummaryArrayOfStrings

  datatype Body = Body(model: string, messages: seq<Message>, maxCompletionTokens: nat,
                       temperature: int, schemaName: string, summary: SummaryShape)

  datatype Request = Request(customId: string, httpMethod: string, url: string, body: Body)

  /** `f"para-{i:04d}"`. */
  function CustomId(i: nat): string
  {
    "para-" + Pad(i, 4)
  }

  /** Reads the ordinal back from a custom id. */
  function ParseCustomId(s: string): Option<nat>
  {
    if |s| >= 5 && s[..5] == "para-" then ParseNat(s[5..]) else None
  }

  lemma CustomIdRoundTrip(i: nat)
    ensures ParseCustomId(CustomId(i)) == Some(i)
  {
    var c := CustomId(i);
    PadValue(i, 4);
    assert c[..5] == "para-" && c[5..] == Pad(i, 4);
  }

  /** Different ordinals give different custom ids. */
  lemma CustomIdInjective(i: nat, j: nat)
    requires CustomId(i) == CustomId(j)
    ensures i == j
  {
    CustomIdRoundTrip(i);
    CustomIdRoundTrip(j);
  }

  /** The issue job's request for one paragraph. The token count comes from an
      external tokenizer and is a parameter here. */
  function IssueRequest(ordinal: nat, paragraph: string, countTokens: string -> nat): Request
  {
    var prompt := Prompt(IssuePromptHead, DecideSummaryLines(countTokens(paragraph)), IssuePromptTail);
    Request(CustomId(ordinal), "POST", "/v1/chat/completions",
            Body("gpt-5.1", [Message(System, prompt), Message(User, paragraph)], 500, 0,
                 "paragraph_summary", SummaryString))
  }

  /** The issue job's `create_batch_jsonl`, one record per paragraph with
      ordinals from 1. */
  function IssueRequests(paragraphs: seq<string>, countTokens: string -> nat): (r: seq<Request>)
    ensures |r| == |paragraphs|
  {
    seq(|paragraphs|, k requires 0 <= k < |paragraphs| => IssueRequest(k + 1, paragraphs[k], countTokens))
  }

  /** One record per paragraph, in order: the `k`-th carries ordinal k + 1 in
      its id, the paragraph as user content, a system prompt naming the bucket
      of the paragraph's token count, temperature 0 and at most 500 tokens. */
  lemma IssueRequestsFacts(paragraphs: seq<string>, countTokens: string -> nat, k: nat)
    requires k < |paragraphs|
    ensures var q := IssueRequests(paragraphs, countTokens)[k];
            ParseCustomId(q.customId) == Some(k + 1)
            && |q.body.messages| == 2
            && q.body.messages[0].role == System && q.body.messages[1].role == User
            && q.body.messages[1].content == paragraphs[k]
            && BucketOfPrompt(q.body.messages[0].content, IssuePromptHead, IssuePromptTail)
               == Some(DecideSummaryLines(countTokens(paragraphs[k])))
            && q.body.temperature == 0 && q.body.maxCompletionTokens == 500
  {
    CustomIdRoundTrip(k + 1);
    PromptNamesBucket(IssuePromptHead, DecideSummaryLines(countTokens(paragraphs[k])), IssuePromptTail);
  }

  /** The custom ids of one batch are pairwise distinct. */
  lemma IssueRequestIdsDistinct(paragraphs: seq<string>, countTokens: string -> nat, i: nat, j: nat)
    requires i < j < |paragraphs|
    ensures IssueRequests(paragraphs, countTokens)[i].customId
            != IssueRequests(paragraphs, countTokens)[j].customId
  {
    var a := IssueRequests(paragraphs, countTokens)[i].customId;
    var b := IssueRequests(paragraphs, countTokens)[j].customId;
    assert a == CustomId(i + 1) by { IssueRequestId(paragraphs, countTokens, i); }
    assert b == CustomId(j + 1) by { IssueRequestId(paragraphs, countTokens, j); }
    CustomIdDistinct(i + 1, j + 1);
  }

  lemma CustomIdDistinct(i: nat, j: nat)
    requires i != j
    ensures CustomId(i) != CustomId(j)
  {
    if CustomId(i) == CustomId(j) {
      CustomIdInjective(i, j);
    }
  }

  lemma IssueRequestId(paragraphs: seq<string>, countTokens: string -> nat, k: nat)
    requires k < |paragraphs|
    ensures IssueRequests(paragraphs, countTokens)[k].customId == CustomId(k + 1)
  {
    assert IssueRequests(paragraphs, countTokens)[k] == IssueRequest(k + 1, paragraphs[k], countTokens);
  }

  /** The decision job's `create_batch_jsonl`: a single record for the whole
      document. */
  function DecisionRequests(document: string): (r: seq<Request>)
    ensures |r| == 1
  {
    var prompt := Prompt(DecisionPromptHead, DecideSummaryLines(EstimateTokens(document)), DecisionPromptTail);
    [Request("para-0000", "POST", "/v1/chat/completions",
             Body("gpt-5.2", [Message(System, prompt), Message(User, document)], 800, 0,
                  "paragraph_summary", SummaryArrayOfStrings))]
  }

  /** The decision record has ordinal 0, asks for a list of summary strings,
      temperature 0 and at most 800 tokens, and its prompt names the bucket of
      the document's length. */
  lemma DecisionRequestFacts(document: string)
    ensures var q := DecisionRequests(document)[0];
            ParseCustomId(q.customId) == Some(0)
            && q.body.messages[1].content == document
            && q.body.summary == SummaryArrayOfStrings
            && q.body.temperature == 0 && q.body.maxCompletionTokens == 800
            && BucketOfPrompt(q.body.messages[0].content, DecisionPromptHead, DecisionPromptTail)
               == Some(DecideSummaryLines(|document| / 3))
  {
    CustomIdRoundTrip(0);
    assert CustomId(0) == "para-0000" by {
      assert Dec(0) == "0";
      assert Pad(0, 4) == "0000";
    }
    PromptNamesBucket(DecisionPromptHead, DecideSummaryLines(EstimateTokens(document)), DecisionPromptTail);
  }
}
