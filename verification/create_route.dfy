/** The create endpoint (src/app/api/pastes/route.ts): body validation, the
    new record, the write to the store and the share URL. The request's JSON
    parsing, the random id and the clock are parameters. */
module CreateRoute {
  import opened Wrappers
  import opened Text
  import opened Json
  import opened Paste
  import opened Kv

  /** 512 KiB: the largest accepted UTF-8 size of the trimmed content. */
  const MAX_CONTENT_BYTES: nat := 512 * 1024

  datatype ValidationError =
    | InvalidBody
    | ContentRequired
    | ContentTooLarge
    | BadTtl
    | BadMaxViews
  {
    /** The request field a check is about; the body-shape check has none. */
    function Subject(): string
      requires this != InvalidBody
    {
      match this
      case ContentRequired => "content"
      case ContentTooLarge => "content"
      case BadTtl => "ttl_seconds"
      case BadMaxViews => "max_views"
    }

    /** The `error` string the route answers with: the body-shape error is
        "Missing or invalid body"; every other message starts with the name
        of the field at fault. */
    function Message(): (m: string)
      ensures this == InvalidBody ==> m == "Missing or invalid body"
      ensures this != InvalidBody ==> |m| > |Subject()| && m[..|Subject()|] == Subject()
    {
      match this
      case InvalidBody => "Missing or invalid body"
      case ContentRequired => Subject() + " is required and must be a non-empty string"
      case ContentTooLarge => Subject() + " must be at most " + Decimal(MAX_CONTENT_BYTES / 1024) + " KB"
      case BadTtl => Subject() + " must be an integer >= 1"
      case BadMaxViews => Subject() + " must be an integer >= 1"
    }

    /** Position of the check in the order the validator runs them. */
    function Rank(): nat {
      match this
      case InvalidBody => 0
      case ContentRequired => 1
      case ContentTooLarge => 2
      case BadTtl => 3
      case BadMaxViews => 4
    }
  }

  /** The limit in KiB renders as "512". */
  lemma DecimalOfLimit()
    ensures Decimal(MAX_CONTENT_BYTES / 1024) == "512"
  {
    assert MAX_CONTENT_BYTES / 1024 == 512;
    assert Decimal(5) == "5";
    assert Decimal(51) == Decimal(5) + "1";
    assert Decimal(512) == Decimal(51) + "2";
  }

  /** The oversize message gives the limit in KiB. */
  lemma TooLargeMessage()
    ensures ContentTooLarge.Message() == "content must be at most 512 KB"
  {
    DecimalOfLimit();
  }

  /** The number a string of decimal digits stands for. */
  function DigitsValue(d: string): int {
    if d == [] then 0 else DigitsValue(d[..|d| - 1]) * 10 + (d[|d| - 1] as int - '0' as int)
  }

  /** Decimal rendering of a natural number (template-literal interpolation):
      the canonical digits of `n`, which read back as `n` and start with a
      zero only when `n` is 0. */
  function Decimal(n: nat): (d: string)
    ensures |d| >= 1
    ensures forall k :: 0 <= k < |d| ==> '0' <= d[k] <= '9'
    ensures DigitsValue(d) == n
    ensures d[0] == '0' <==> n == 0
    ensures |d| > 1 ==> d[0] != '0'
  {
    if n < 10 then ["0123456789"[n]]
    else
      var d := Decimal(n / 10) + ["0123456789"[n % 10]];
      assert d[..|d| - 1] == Decimal(n / 10);
      d
  }

  /** Distinct checks answer with distinct messages. */
  lemma MessagesDistinct(e1: ValidationError, e2: ValidationError)
    requires e1 != e2
    ensures e1.Message() != e2.Message()
  {
  }

  /** A number that passes `typeof v === "number" && Number.isInteger(v) && v >= 1`. */
  predicate PositiveInteger(v: Json) {
    v.JNumber? && v.num.Integer? && v.num.value >= 1
  }

  /** An optional count field is fine when absent (`undefined`) or a positive
      integer; a present `null` is not. */
  predicate OptionalCountOk(v: Option<Json>) {
    v.None? || PositiveInteger(v.value)
  }

  function AsCount(v: Option<Json>): (c: Option<int>)
    requires OptionalCountOk(v)
    ensures c.None? <==> v.None?
    ensures c.Some? ==> c.value >= 1 && v.value == JNumber(Integer(c.value))
  {
    if v.None? then None else Some(v.value.num.value)
  }

  /** What a successful validation guarantees about its output. */
  predicate ValidInput(input: CreatePasteInput) {
    && input.content != []
    && Trim(input.content) == input.content
    && Utf8Length(input.content) <= MAX_CONTENT_BYTES
    && (input.ttl_seconds.None? || input.ttl_seconds.value >= 1)
    && (input.max_views.None? || input.max_views.value >= 1)
  }

  /** `validateBody`: the checks run in order and the first failing one names
      the error. */
  function ValidateBody(body: Json): (r: Result<CreatePasteInput, ValidationError>)
    ensures r.Success? ==> ValidInput(r.value)
    ensures r.Success? ==>
      && body.JObject? && "content" in body.fields && body.fields["content"].JString?
      && r.value.content == Trim(body.fields["content"].s)
      && r.value.ttl_seconds.Some? == ("ttl_seconds" in body.fields)
      && r.value.max_views.Some? == ("max_views" in body.fields)
      && (r.value.ttl_seconds.Some? ==>
            body.fields["ttl_seconds"] == JNumber(Integer(r.value.ttl_seconds.value)))
      && (r.value.max_views.Some? ==>
            body.fields["max_views"] == JNumber(Integer(r.value.max_views.value)))
  {
    if !body.JObject? || "content" !in body.fields then Failure(InvalidBody)
    else
      var content := body.fields["content"];
      var ttl := Field(body.fields, "ttl_seconds");
      var maxViews := Field(body.fields, "max_views");
      if !content.JString? || Trim(content.s) == "" then Failure(ContentRequired)
      else
        var trimmed := Trim(content.s);
        if |Encode(trimmed)| > MAX_CONTENT_BYTES then Failure(ContentTooLarge)
        else if !OptionalCountOk(ttl) then Failure(BadTtl)
        else if !OptionalCountOk(maxViews) then Failure(BadMaxViews)
        else
          TrimIdempotent(content.s);
          Success(CreatePasteInput(trimmed, AsCount(ttl), AsCount(maxViews)))
  }

  /** Each check stated on its own, independently of the others: the body is
      an object with `content`; the content is a string not made only of
      whitespace; its trimmed form fits in `MAX_CONTENT_BYTES` bytes; each
      optional count is absent or a positive integer. */
  predicate Passes(body: Json, e: ValidationError) {
    match e
    case InvalidBody =>
      body.JObject? && "content" in body.fields
    case ContentRequired =>
      body.JObject? && "content" in body.fields ==>
        body.fields["content"].JString? && !AllWhitespace(body.fields["content"].s)
    case ContentTooLarge =>
      body.JObject? && "content" in body.fields && body.fields["content"].JString? ==>
        Utf8Length(Trim(body.fields["content"].s)) <= MAX_CONTENT_BYTES
    case BadTtl =>
      body.JObject? ==> OptionalCountOk(Field(body.fields, "ttl_seconds"))
    case BadMaxViews =>
      body.JObject? ==> OptionalCountOk(Field(body.fields, "max_views"))
  }

  /** The checks that run before the one for `e` all pass. */
  predicate EarlierPass(body: Json, e: ValidationError) {
    match e
    case InvalidBody => true
    case ContentRequired => Passes(body, InvalidBody)
    case ContentTooLarge => Passes(body, InvalidBody) && Passes(body, ContentRequired)
    case BadTtl =>
      Passes(body, InvalidBody) && Passes(body, ContentRequired) && Passes(body, ContentTooLarge)
    case BadMaxViews =>
      && Passes(body, InvalidBody) && Passes(body, ContentRequired)
      && Passes(body, ContentTooLarge) && Passes(body, BadTtl)
  }

  lemma EarlierPassIff(body: Json, e: ValidationError)
    ensures EarlierPass(body, e) <==> forall e': ValidationError :: e'.Rank() < e.Rank() ==> Passes(body, e')
  {
    if EarlierPass(body, e) {
      forall e': ValidationError | e'.Rank() < e.Rank() ensures Passes(body, e') {
        match e' {
          case InvalidBody =>
          case ContentRequired =>
          case ContentTooLarge =>
          case BadTtl =>
          case BadMaxViews =>
        }
      }
    } else {
      match e {
        case InvalidBody =>
        case ContentRequired => assert InvalidBody.Rank() < e.Rank();
        case ContentTooLarge =>
          assert InvalidBody.Rank() < e.Rank() && ContentRequired.Rank() < e.Rank();
        case BadTtl =>
          assert InvalidBody.Rank() < e.Rank() && ContentRequired.Rank() < e.Rank();
          assert ContentTooLarge.Rank() < e.Rank();
        case BadMaxViews =>
          assert InvalidBody.Rank() < e.Rank() && ContentRequired.Rank() < e.Rank();
          assert ContentTooLarge.Rank() < e.Rank() && BadTtl.Rank() < e.Rank();
      }
    }
  }

  /** Each stage of the validator, given that the earlier stages passed:
      it fails with its own error exactly when its check fails. */
  lemma ValidateSteps(body: Json)
    ensures ValidateBody(body) == Failure(InvalidBody) <==> !Passes(body, InvalidBody)
    ensures EarlierPass(body, ContentRequired) ==>
      (ValidateBody(body) == Failure(ContentRequired) <==> !Passes(body, ContentRequired))
    ensures EarlierPass(body, ContentTooLarge) ==>
      (ValidateBody(body) == Failure(ContentTooLarge) <==> !Passes(body, ContentTooLarge))
    ensures EarlierPass(body, BadTtl) ==>
      (ValidateBody(body) == Failure(BadTtl) <==> !Passes(body, BadTtl))
    ensures EarlierPass(body, BadMaxViews) ==>
      (ValidateBody(body) == Failure(BadMaxViews) <==> !Passes(body, BadMaxViews))
    ensures EarlierPass(body, BadMaxViews) && Passes(body, BadMaxViews) ==> ValidateBody(body).Success?
  {
    if !Passes(body, InvalidBody) {
      assert ValidateBody(body) == Failure(InvalidBody);
    } else {
      var content := body.fields["content"];
      if !content.JString? || Trim(content.s) == [] {
        assert ValidateBody(body) == Failure(ContentRequired);
      } else {
        var t := Trim(content.s);
        assert |Encode(t)| == Utf8Length(t);
        if |Encode(t)| > MAX_CONTENT_BYTES {
          assert ValidateBody(body) == Failure(ContentTooLarge);
        } else if !OptionalCountOk(Field(body.fields, "ttl_seconds")) {
          assert ValidateBody(body) == Failure(BadTtl);
        } else if !OptionalCountOk(Field(body.fields, "max_views")) {
          assert ValidateBody(body) == Failure(BadMaxViews);
        } else {
          assert ValidateBody(body).Success?;
        }
      }
    }
  }

  /** The error returned is the failing check that comes first. */
  lemma {:induction false} ValidateFirstFailure(body: Json, e: ValidationError)
    ensures ValidateBody(body) == Failure(e) <==>
      !Passes(body, e) && forall e': ValidationError :: e'.Rank() < e.Rank() ==> Passes(body, e')
  {
    EarlierPassIff(body, e);
    ValidateSteps(body);
    match e {
      case InvalidBody =>
      case ContentRequired =>
      case ContentTooLarge =>
      case BadTtl =>
      case BadMaxViews =>
    }
  }

  /** Validation succeeds exactly when every check passes. */
  lemma {:induction false} ValidateSucceedsIff(body: Json)
    ensures ValidateBody(body).Success? <==> forall e :: Passes(body, e)
  {
    if !ValidateBody(body).Success? {
      ValidateFirstFailure(body, ValidateBody(body).error);
    }
  }

  /** `null`, a non-object, or an object without `content` is answered with
      the body-shape error, whatever else it holds. */
  lemma ValidateInvalidBody(body: Json)
    requires !body.JObject? || "content" !in body.fields
    ensures ValidateBody(body) == Failure(InvalidBody)
    ensures ValidateBody(body).error.Message() == "Missing or invalid body"
  {
  }

  /** The size limit is inclusive: trimmed content of exactly 512 KiB is
      accepted, one byte more is rejected. */
  lemma {:induction false} SizeBoundary(content: string)
    requires Trim(content) != []
    ensures Utf8Length(Trim(content)) == MAX_CONTENT_BYTES ==>
      ValidateBody(JObject(map["content" := JString(content)])).Success?
    ensures Utf8Length(Trim(content)) == MAX_CONTENT_BYTES + 1 ==>
      ValidateBody(JObject(map["content" := JString(content)])) == Failure(ContentTooLarge)
  {
    OnlyContent(content);
  }

  /** A body holding only `content` has no count fields. */
  lemma OnlyContent(content: string)
    ensures var fields := map["content" := JString(content)];
      && "content" in fields && fields["content"] == JString(content)
      && Field(fields, "ttl_seconds") == None && Field(fields, "max_views") == None
  {
    assert "ttl_seconds"[0] != "content"[0];
    assert "max_views"[0] != "content"[0];
  }

  /** The record `POST` builds from validated input: created at `nowMs`,
      unviewed, with the input's content and limits. A positive TTL does not
      expire it at creation, and a positive view limit leaves all its views
      remaining. */
  function BuildRecord(input: CreatePasteInput, nowMs: int): (r: PasteRecord)
    ensures r.createdAt == nowMs && r.viewCount == 0
    ensures r.content == input.content
    ensures r.ttlSeconds == input.ttl_seconds && r.maxViews == input.max_views
    ensures (input.ttl_seconds.None? || input.ttl_seconds.value > 0) ==> !IsPasteExpired(r, nowMs)
    ensures (input.max_views.None? || input.max_views.value >= 0) ==>
      GetRemainingViews(r) == input.max_views
    ensures IsViewLimitExceeded(r) <==> input.max_views.Some? && input.max_views.value <= 0
  {
    PasteRecord(input.content, nowMs, input.ttl_seconds, input.max_views, 0)
  }

  /** A record built from input whose limits passed validation starts
      unviewed at `nowMs`, keeps the input's content and limits, and is
      visible at creation: not expired, not over its view limit, with all its
      views remaining. */
  lemma FreshRecordVisible(input: CreatePasteInput, nowMs: int)
    requires input.ttl_seconds.None? || input.ttl_seconds.value >= 1
    requires input.max_views.None? || input.max_views.value >= 1
    ensures BuildRecord(input, nowMs).viewCount == 0
    ensures BuildRecord(input, nowMs).createdAt == nowMs
    ensures BuildRecord(input, nowMs).content == input.content
    ensures BuildRecord(input, nowMs).ttlSeconds == input.ttl_seconds
    ensures BuildRecord(input, nowMs).maxViews == input.max_views
    ensures !IsPasteExpired(BuildRecord(input, nowMs), nowMs)
    ensures !IsViewLimitExceeded(BuildRecord(input, nowMs))
    ensures GetRemainingViews(BuildRecord(input, nowMs)) == input.max_views
  {
  }

  /** Request headers, keyed by lower-case name. */
  type Headers = map<string, string>

  /** `protocol://host`, from the `x-forwarded-proto` and `host` headers:
      the protocol (default `https`) reads back from before the first
      "://", the host (default empty) from after it. */
  function GetBaseUrl(headers: Headers): (url: string)
    ensures var protocol := if "x-forwarded-proto" in headers then headers["x-forwarded-proto"] else "https";
      var host := if "host" in headers then headers["host"] else "";
      && |url| == |protocol| + 3 + |host|
      && url[..|protocol|] == protocol
      && url[|protocol|..|protocol| + 3] == "://"
      && url[|protocol| + 3..] == host
  {
    var host := Lookup(headers, "host").GetOr("");
    var protocol := Lookup(headers, "x-forwarded-proto").GetOr("https");
    protocol + "://" + host
  }

  /** The link returned for a new paste. */
  function ShareUrl(headers: Headers, id: string): (url: string)
    ensures |url| > |id|
    ensures url[|url| - |id|..] == id
    ensures url[..|url| - |id|] == GetBaseUrl(headers) + "/p/"
  {
    GetBaseUrl(headers) + "/p/" + id
  }

  /** Without forwarding headers the link is `https:///p/<id>`. */
  lemma ShareUrlDefaults(id: string)
    ensures ShareUrl(map[], id) == "https:///p/" + id
  {
  }

  /** The path segment after the last '/'. */
  function LastSegment(s: string): (seg: string)
    ensures '/' !in seg
    ensures |seg| <= |s| && seg == s[|s| - |seg|..]
  {
    if s == [] || s[|s| - 1] == '/' then []
    else LastSegment(s[..|s| - 1]) + [s[|s| - 1]]
  }

  /** The id can be read back from the link: it is the last path segment. */
  lemma {:induction false} LastSegmentAfterSlash(prefix: string, id: string)
    requires '/' !in id
    ensures LastSegment(prefix + "/" + id) == id
    decreases |id|
  {
    var p := prefix + "/";
    var s := p + id;
    assert s == prefix + "/" + id;
    if id == [] {
      assert s == p && s[|s| - 1] == '/';
    } else {
      var init, last := id[..|id| - 1], id[|id| - 1];
      assert last in id;
      assert s[|s| - 1] == last && s[..|s| - 1] == p + init;
      assert LastSegment(s) == LastSegment(p + init) + [last];
      LastSegmentAfterSlash(prefix, init);
      assert id == init + [last];
    }
  }

  lemma ShareUrlRoundTrip(headers: Headers, id: string)
    requires '/' !in id
    ensures LastSegment(ShareUrl(headers, id)) == id
  {
    var base := GetBaseUrl(headers) + "/p";
    assert GetBaseUrl(headers) + "/p/" == base + "/";
    assert ShareUrl(headers, id) == base + "/" + id;
    LastSegmentAfterSlash(base, id);
  }

  /** The HTTP answer of the create endpoint, status codes left implicit:
      201, 400 and 503 respectively. */
  datatype Response =
    | Created(id: string, url: string)
    | BadRequest(error: string)
    | Unavailable(error: string)

  /** `POST /api/pastes`. `body` is `None` when the request is not valid
      JSON; `id` and `nowMs` are the values of `randomUUID()` and
      `Date.now()`. Returns the answer and the store afterwards. */
  function Post(s: Store, body: Option<Json>, id: string, nowMs: int, headers: Headers)
    : (out: (Response, Store))
    ensures out.0.BadRequest? ==> out.1 == s
    ensures out.0.Unavailable? ==> out.1 == s && !s.configured
    ensures !s.configured ==> out.1 == s && !out.0.Created?
    ensures body.None? ==> out == (BadRequest("Invalid JSON"), s)
    ensures s.configured && body.Some? && ValidateBody(body.value).Success? ==>
      && out.0 == Created(id, ShareUrl(headers, id))
      && Success(out.1) == SetPaste(s, id, BuildRecord(ValidateBody(body.value).value, nowMs))
    ensures out.0.Created? ==>
      && out.0.id == id
      && out.0.url == ShareUrl(headers, id)
      && body.Some?
      && ValidateBody(body.value).Success?
      && GetPaste(out.1, id) == Some(RecordValue(BuildRecord(ValidateBody(body.value).value, nowMs)))
  {
    match body
    case None => (BadRequest("Invalid JSON"), s)
    case Some(b) =>
      match ValidateBody(b)
      case Failure(e) => (BadRequest(e.Message()), s)
      case Success(input) =>
        var record := BuildRecord(input, nowMs);
        match SetPaste(s, id, record)
        case Failure(_) => (Unavailable("Storage unavailable"), s)
        case Success(s') =>
          SetThenGet(s, id, record);
          (Created(id, ShareUrl(headers, id)), s')
  }

  /** An invalid body is answered with its validation message and stores
      nothing. */
  lemma PostRejectsInvalid(s: Store, b: Json, id: string, nowMs: int, headers: Headers)
    requires ValidateBody(b).Failure?
    ensures Post(s, Some(b), id, nowMs, headers) == (BadRequest(ValidateBody(b).error.Message()), s)
  {
  }

  /** Valid input meets an unconfigured store: 503 and nothing stored. */
  lemma PostUnconfigured(s: Store, b: Json, id: string, nowMs: int, headers: Headers)
    requires !s.configured
    ensures ValidateBody(b).Success? ==>
      Post(s, Some(b), id, nowMs, headers) == (Unavailable("Storage unavailable"), s)
  {
  }

  /** For every valid body, creating a paste and reading it back gives the
      record built from it: the trimmed content, created now, unviewed; a
      view-limited paste starts its counter at 0. */
  lemma {:induction false} PostThenRead(s: Store, b: Json, id: string, nowMs: int, headers: Headers)
    requires s.configured && ValidateBody(b).Success?
    ensures var (resp, s') := Post(s, Some(b), id, nowMs, headers);
      && resp.Created?
      && GetPaste(s', id) == Some(RecordValue(BuildRecord(ValidateBody(b).value, nowMs)))
      && GetPaste(s', id).value.record.content == Trim(b.fields["content"].s)
      && ("max_views" in b.fields ==> GetViewCount(s', id) == CountValue(0))
  {
    SetThenGet(s, id, BuildRecord(ValidateBody(b).value, nowMs));
  }

  /** Creating a paste and reading it back at once gives the trimmed
      content, visible and with no view limit. */
  lemma {:induction false} CreateThenRead(s: Store, content: string, id: string, nowMs: int, headers: Headers)
    requires s.configured
    requires Trim(content) != [] && Utf8Length(Trim(content)) <= MAX_CONTENT_BYTES
    ensures var (resp, s') := Post(s, Some(JObject(map["content" := JString(content)])), id, nowMs, headers);
      && resp == Created(id, ShareUrl(headers, id))
      && GetPaste(s', id).Some?
      && GetPaste(s', id).value.RecordValue?
      && GetPaste(s', id).value.record.content == Trim(content)
      && !IsPasteExpired(GetPaste(s', id).value.record, nowMs)
      && GetRemainingViews(GetPaste(s', id).value.record) == None
  {
    var body := JObject(map["content" := JString(content)]);
    OnlyContent(content);
    assert ValidateBody(body) == Success(CreatePasteInput(Trim(content), None, None));
    PostThenRead(s, body, id, nowMs, headers);
  }
}
