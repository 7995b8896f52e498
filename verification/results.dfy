/**
 The batch-result job: reading the output rows of a finished batch into
 result entries, and the loop that handles every pending job of the current
 report period. The batch service, the object store and the job table are
 parameters: what a batch returns, whether an upload succeeds and which jobs
 the table holds.
 */
module Results {
  import opened Wrappers
  import Calendar

  /** A value as `json.loads` returns it. Numbers keep only whether they are
      zero, which is all the job looks at. */
  datatype Json =
    | JNull
    | JBool(b: bool)
    | JNum(nonZero: bool)
    | JStr(s: string)
    | JArr(items: seq<Json>)
    | JObj(fields: map<string, Json>)

  /** Python truthiness. */
  predicate Truthy(j: Json) {
    match j
    case JNull => false
    case JBool(b) => b
    case JNum(nz) => nz
    case JStr(s) => s != []
    case JArr(xs) => xs != []
    case JObj(m) => m != map[]
  }

  /** `d.get(key)` on a dict: the missing key reads as `None`. */
  function Get(m: map<string, Json>, key: string): Json
  {
    if key in m then m[key] else JNull
  }

  /** `j[key]`: only a dict holding the key can be subscripted by a string. */
  function Field(j: Json, key: string): Option<Json>
  {
    if j.JObj? && key in j.fields then Some(j.fields[key]) else None
  }

  /** `j[0]`: the first item of a list, or the first character of a string. */
  function First(j: Json): Option<Json>
  {
    match j
    case JArr(xs) => if xs != [] then Some(xs[0]) else None
    case JStr(s) => if s != [] then Some(JStr([s[0]])) else None
    case _ => None
  }

  /** `response["body"]["choices"][0]["message"]["content"]`, `None` where
      the lookup raises. */
  function Content(response: Json): Option<Json>
  {
    match Field(response, "body")
    case None => None
    case Some(body) =>
      match Field(body, "choices")
      case None => None
      case Some(choices) =>
        match First(choices)
        case None => None
        case Some(choice) =>
          match Field(choice, "message")
          case None => None
          case Some(message) => Field(message, "content")
  }

  /** One entry of the parsed results. */
  datatype Entry =
    | Parsed(value: Json)                 // the model's answer itself, without the row's id
    | RowError(id: Json, error: Json)     // `{"id": custom_id, "error": error}`
    | ParseError(id: Json)                // `{"id": custom_id, "error": "json_parse_error: ..."}`

  /** The entry for one output row, `None` when the row is not a dict (then
      `row.get` raises and the whole parse fails). `parse` is `json.loads` on
      the answer text. */
  function EntryOf(row: Json, parse: string -> Option<Json>): (r: Option<Entry>)
    ensures r.None? <==> !row.JObj?
  {
    match row
    case JObj(m) =>
      var id := Get(m, "custom_id");
      var error := Get(m, "error");
      if Truthy(error) then Some(RowError(id, error))
      else
        (match Content(Get(m, "response"))
         case Some(JStr(text)) =>
           (match parse(text)
            case Some(v) => Some(Parsed(v))
            case None => Some(ParseError(id)))
         case _ => Some(ParseError(id)))
    case _ => None
  }

  /** `parse_batch_jsonl`: one entry per row, or a failure when some row is
      not a dict. */
  function ParseBatch(rows: seq<Json>, parse: string -> Option<Json>): (r: Result<seq<Entry>, string>)
  {
    if forall k :: 0 <= k < |rows| ==> rows[k].JObj? then
      Ok(seq(|rows|, k requires 0 <= k < |rows| => EntryOf(rows[k], parse).value))
    else Err("row is not an object")
  }

  /** Exactly one entry per row, in row order; the parse fails only on a row
      that is not a dict. */
  lemma ParseBatchOnePerRow(rows: seq<Json>, parse: string -> Option<Json>)
    ensures ParseBatch(rows, parse).Ok? <==> forall k :: 0 <= k < |rows| ==> rows[k].JObj?
    ensures ParseBatch(rows, parse).Ok? ==>
              |ParseBatch(rows, parse).value| == |rows|
              && forall k :: 0 <= k < |rows| ==> Some(ParseBatch(rows, parse).value[k]) == EntryOf(rows[k], parse)
  {
  }

  /** A row with a truthy `error` becomes an error entry carrying the id and
      the whole error value, whatever its response holds. */
  lemma ErrorRowIgnoresResponse(m: map<string, Json>, response: Json, parse: string -> Option<Json>)
    requires Truthy(Get(m, "error"))
    ensures EntryOf(JObj(m), parse) == Some(RowError(Get(m, "custom_id"), Get(m, "error")))
    ensures EntryOf(JObj(m["response" := response]), parse) == EntryOf(JObj(m), parse)
  {
    assert Get(m["response" := response], "error") == Get(m, "error");
    assert Get(m["response" := response], "custom_id") == Get(m, "custom_id");
  }

  /** A row without an error whose answer is missing, not a string or not
      valid JSON becomes a parse-error entry rather than failing. */
  lemma BadAnswerIsParseError(m: map<string, Json>, parse: string -> Option<Json>)
    requires !Truthy(Get(m, "error"))
    requires match Content(Get(m, "response"))
             case Some(JStr(text)) => parse(text).None?
             case _ => true
    ensures EntryOf(JObj(m), parse) == Some(ParseError(Get(m, "custom_id")))
  {
  }

  /** A successful entry is the parsed answer alone: it does not depend on the
      row's `custom_id`, so entries line up with rows only by position. */
  lemma SuccessCarriesNoId(m: map<string, Json>, id: Json, parse: string -> Option<Json>)
    requires EntryOf(JObj(m), parse).value.Parsed?
    ensures EntryOf(JObj(m["custom_id" := id]), parse) == EntryOf(JObj(m), parse)
  {
    var m2 := m["custom_id" := id];
    assert Get(m2, "error") == Get(m, "error");
    assert Get(m2, "response") == Get(m, "response");
  }

  // ---------------------------------------------------------------------
  // The job loop
  // ---------------------------------------------------------------------

  /** `f"monetary-policy/{code}/{type_}.json"`. */
  function StorageKey(code: string, kind: string): string
  {
    "monetary-policy/" + code + "/" + kind + ".json"
  }

  /** For codes without a '/', such as period codes, the key names its code
      and kind: different jobs never share a key. */
  lemma StorageKeyInjective(c1: string, k1: string, c2: string, k2: string)
    requires '/' !in c1 && '/' !in c2
    requires StorageKey(c1, k1) == StorageKey(c2, k2)
    ensures c1 == c2 && k1 == k2
  {
    var p := "monetary-policy/";
    var s := StorageKey(c1, k1);
    assert s == p + (c1 + "/" + k1 + ".json");
    assert s == p + (c2 + "/" + k2 + ".json");
    var t1 := c1 + "/" + k1 + ".json";
    var t2 := c2 + "/" + k2 + ".json";
    assert t1 == s[|p|..] == t2;
    SlashAt(t1, |c1|, |c2|);
    assert c1 == t1[..|c1|] && c2 == t2[..|c2|];
    assert t1[|c1| + 1..] == k1 + ".json" && t2[|c2| + 1..] == k2 + ".json";
    assert k1 == (k1 + ".json")[..|k1|] && k2 == (k2 + ".json")[..|k2|];
  }

  /** The first '/' of a string has one position. */
  lemma SlashAt(s: string, i: nat, j: nat)
    requires i < |s| && j < |s| && s[i] == '/' && s[j] == '/'
    requires forall k :: 0 <= k < i ==> s[k] != '/'
    requires forall k :: 0 <= k < j ==> s[k] != '/'
    ensures i == j
  {
  }

  /** A row of the job table. */
  datatype StoredJob = StoredJob(code: string, kind: string, batchId: string, status: string)

  /** `f"{code}#{type_}"`, the table's key. */
  function CodeType(code: string, kind: string): string
  {
    code + "#" + kind
  }

  /** What asking the batch service for a batch's output gives: the output
      rows of a completed batch, or a failure (a batch that is not completed,
      an unreadable output or a transport error; each raises in the job). */
  datatype BatchOutput = Rows(rows: seq<Json>) | Unavailable(reason: string)

  /** One result line of `run`. */
  datatype JobResult =
    | JobSuccess(codeType: string, batchId: string, storeKey: string)
    | JobError(codeType: string, batchId: string)

  /** A write to the job table: the key and the new status. */
  datatype StatusUpdate = StatusUpdate(codeType: string, status: string)

  /** The body of the `try` for one job. `uploaded(key)` says whether storing
      the entries under `key` succeeds. */
  function HandleJob(job: StoredJob, output: string -> BatchOutput, parse: string -> Option<Json>,
                     uploaded: string -> bool): JobResult
  {
    var ct := CodeType(job.code, job.kind);
    match output(job.batchId)
    case Unavailable(_) => JobError(ct, job.batchId)
    case Rows(rows) =>
      match ParseBatch(rows, parse)
      case Err(_) => JobError(ct, job.batchId)
      case Ok(_) =>
        var key := StorageKey(job.code, job.kind);
        if uploaded(key) then JobSuccess(ct, job.batchId, key) else JobError(ct, job.batchId)
  }

  /** The status a job's outcome writes. */
  function StatusOf(r: JobResult): StatusUpdate
  {
    match r
    case JobSuccess(ct, _, _) => StatusUpdate(ct, "completed")
    case JobError(ct, _) => StatusUpdate(ct, "error")
  }

  /** The loop of `run` over the pending jobs. */
  method ProcessPendingJobs(jobs: seq<StoredJob>, output: string -> BatchOutput,
                            parse: string -> Option<Json>, uploaded: string -> bool)
    returns (results: seq<JobResult>, updates: seq<StatusUpdate>)
    ensures |results| == |jobs| && |updates| == |jobs|
    ensures forall k :: 0 <= k < |jobs| ==> results[k] == HandleJob(jobs[k], output, parse, uploaded)
    ensures forall k :: 0 <= k < |jobs| ==>
              updates[k] == StatusUpdate(CodeType(jobs[k].code, jobs[k].kind),
                                         if results[k].JobSuccess? then "completed" else "error")
  {
    results := [];
    updates := [];
    var i := 0;
    while i < |jobs|
      invariant 0 <= i <= |jobs|
      invariant |results| == i && |updates| == i
      invariant forall k :: 0 <= k < i ==> results[k] == HandleJob(jobs[k], output, parse, uploaded)
      invariant forall k :: 0 <= k < i ==> updates[k] == StatusOf(results[k])
    {
      var r := HandleJob(jobs[i], output, parse, uploaded);
      results := results + [r];
      updates := updates + [StatusOf(r)];
      i := i + 1;
    }
  }

  /** The job's answer. */
  datatype RunOutcome =
    | NoReportMonth
    | NoPendingJobs(code: string)
    | Processed(code: string, results: seq<JobResult>, updates: seq<StatusUpdate>, processed: nat)

  /** `fetch_pending_jobs`: the table rows of the code still pending. */
  function PendingJobs(table: seq<StoredJob>, code: string): (r: seq<StoredJob>)
    ensures forall j | j in r :: j in table && j.code == code && j.status == "pending"
    ensures forall j | j in table && j.code == code && j.status == "pending" :: j in r
  {
    if table == [] then []
    else (if table[0].code == code && table[0].status == "pending" then [table[0]] else [])
         + PendingJobs(table[1..], code)
  }

  /** `run` of the batch-result job. */
  method Run(today: Calendar.Moment, table: seq<StoredJob>, output: string -> BatchOutput,
             parse: string -> Option<Json>, uploaded: string -> bool)
    returns (r: RunOutcome)
    requires Calendar.Valid(today.date)
    ensures r.NoReportMonth? <==> Calendar.GetCode(today).None?
    ensures r.NoPendingJobs? <==>
              Calendar.GetCode(today).Some? && PendingJobs(table, Calendar.GetCode(today).value) == []
    ensures r.NoPendingJobs? ==> r.code == Calendar.GetCode(today).value
    ensures r.Processed? ==>
              var pending := PendingJobs(table, r.code);
              r.code == Calendar.GetCode(today).value && pending != []
              && r.processed == |pending| == |r.results| == |r.updates|
              && (forall k :: 0 <= k < |pending| ==>
                    r.results[k] == HandleJob(pending[k], output, parse, uploaded)
                    && r.updates[k].codeType == CodeType(pending[k].code, pending[k].kind)
                    && (r.updates[k].status == "completed" <==> r.results[k].JobSuccess?)
                    && (r.updates[k].status == "error" <==> r.results[k].JobError?))
  {
    match Calendar.GetCode(today)
    case None =>
      return NoReportMonth;
    case Some(code) =>
      var pending := PendingJobs(table, code);
      if pending == [] {
        return NoPendingJobs(code);
      }
      var results, updates := ProcessPendingJobs(pending, output, parse, uploaded);
      return Processed(code, results, updates, |results|);
  }

  /** A job succeeds exactly when its batch has output, every row of it is a
      dict and the upload goes through; a batch that is not completed is an
      error like any other failure. */
  lemma HandleJobSucceeds(job: StoredJob, output: string -> BatchOutput, parse: string -> Option<Json>,
                          uploaded: string -> bool)
    ensures HandleJob(job, output, parse, uploaded).JobSuccess?
            <==> output(job.batchId).Rows?
                 && (forall k :: 0 <= k < |output(job.batchId).rows| ==> output(job.batchId).rows[k].JObj?)
                 && uploaded(StorageKey(job.code, job.kind))
    ensures HandleJob(job, output, parse, uploaded).JobSuccess? ==>
              HandleJob(job, output, parse, uploaded).storeKey == StorageKey(job.code, job.kind)
  {
    if output(job.batchId).Rows? {
      ParseBatchOnePerRow(output(job.batchId).rows, parse);
    }
  }
}
