/**
 * The server side of the translation: evrth_translate_ajax_handler in functions.php, the AJAX
 * action that checks the request, forwards the texts to the Cloud Translation API (v2) and
 * relays the answer.
 *
 * Every wp_send_json_error ends the request, so the handler is a chain of early returns. The
 * WordPress helpers it calls (nonce verification, unslashing, JSON decoding, sanitising, the
 * string-to-integer part of PHP's (int) cast) are given as a Host record of functions; the
 * HTTP call is given as its outcome.
 */
module TranslationProxy {
  import opened Optional

  /** A PHP array key. */
  datatype ArrayKey = IntKey(i: int) | StrKey(s: string)

  /** A PHP value as json_decode(..., true) produces it; an array keeps its entries in order. */
  datatype PhpValue =
    | Null
    | Bool(b: bool)
    | Int(i: int)
    | Float(r: real)
    | Str(s: string)
    | Arr(entries: seq<(ArrayKey, PhpValue)>)

  /** The WordPress and PHP helpers the handler relies on. */
  datatype Host = Host(
    verifyNonce: (string, string) -> bool,  // wp_verify_nonce(nonce, action) is truthy
    unslash: string -> string,              // wp_unslash
    jsonDecode: string -> Option<PhpValue>, // json_decode(s, true); None when json_last_error() is set
    sanitize: PhpValue -> string,           // sanitize_text_field
    stringToInt: string -> int)             // (int) applied to a string

  /** The fields of $_POST the handler reads; None when not set. */
  datatype Request = Request(nonce: Option<string>, texts: Option<string>, targetLang: Option<string>)

  /** What wp_remote_post returned. */
  datatype Upstream =
    | ConnectionError(message: string)     // a WP_Error, with its get_error_message()
    | HttpReply(code: PhpValue, body: string) // the response code and the raw body

  /** The JSON body sent to the translation API. */
  datatype Payload = Payload(q: seq<(ArrayKey, string)>, target: string, source: string, format: string)

  /** What the browser receives. */
  datatype Reply =
    | Failure(status: int, message: PhpValue) // wp_send_json_error(array('message' => message), status)
    | Success(data: PhpValue)                 // wp_send_json_success(data), status 200

  /** The handler's result: the payload it sent upstream, if it got that far, and its reply. */
  datatype Handled = Handled(sent: Option<Payload>, reply: Reply)

  const NonceAction: string := "evrth_translation_nonce"
  const SourceLanguage: string := "ja"
  const TextFormat: string := "text"
  const NonceErrorMessage: string := "Nonce認証エラー"
  const MissingParameterMessage: string := "必要なパラメーターが不足しています。"
  const DecodeErrorMessage: string := "Textsパラメーターのデコードエラー"
  const ConnectionErrorPrefix: string := "APIへの接続エラー: "
  const DefaultApiErrorMessage: string := "APIエラーが発生しました。"
  const DefaultApiErrorCode: int := 500

  /** The value of the last entry with the given key, if it is there. */
  function LastWithKey(entries: seq<(ArrayKey, PhpValue)>, key: ArrayKey): (r: Option<PhpValue>)
    ensures r.Some? <==> exists k :: 0 <= k < |entries| && entries[k].0 == key
  {
    if entries == [] then None
    else if entries[|entries| - 1].0 == key then Some(entries[|entries| - 1].1)
    else LastWithKey(entries[..|entries| - 1], key)
  }

  /** $v['name'] as isset and ?? see it: absent unless v is an array holding a non-null value under that name. */
  function Get(v: Option<PhpValue>, name: string): Option<PhpValue> {
    if v.Some? && v.value.Arr? then
      match LastWithKey(v.value.entries, StrKey(name))
      case Some(x) => if x.Null? then None else Some(x)
      case None => None
    else None
  }

  /** The ?? operator. */
  function OrElse(v: Option<PhpValue>, default: PhpValue): PhpValue {
    if v.Some? then v.value else default
  }

  /** PHP's (int) cast; a float is truncated toward zero. */
  function IntCast(v: PhpValue, host: Host): (r: int)
    ensures v.Int? ==> r == v.i
    ensures v.Float? && v.r >= 0.0 ==> r as real <= v.r < r as real + 1.0
    ensures v.Float? && v.r < 0.0 ==> r as real - 1.0 < v.r <= r as real
  {
    match v
    case Null => 0
    case Bool(b) => if b then 1 else 0
    case Int(i) => i
    case Float(r) => if r >= 0.0 then r.Floor else -((-r).Floor)
    case Str(s) => host.stringToInt(s)
    case Arr(entries) => if entries == [] then 0 else 1
  }

  /** array_map('sanitize_text_field', $texts): the same keys in the same order, each value sanitised. */
  function SanitizeAll(entries: seq<(ArrayKey, PhpValue)>, host: Host): (r: seq<(ArrayKey, string)>)
    ensures |r| == |entries|
    ensures forall k :: 0 <= k < |entries| ==> r[k] == (entries[k].0, host.sanitize(entries[k].1))
  {
    if entries == [] then []
    else [(entries[0].0, host.sanitize(entries[0].1))] + SanitizeAll(entries[1..], host)
  }

  /** The texts parameter decoded, when it decodes to an array. */
  function DecodedTexts(host: Host, texts: string): Option<seq<(ArrayKey, PhpValue)>> {
    var decoded := host.jsonDecode(host.unslash(texts));
    if decoded.Some? && decoded.value.Arr? then Some(decoded.value.entries) else None
  }

  /** The request passes the nonce check. */
  predicate NonceValid(host: Host, req: Request) {
    req.nonce.Some? && host.verifyNonce(req.nonce.value, NonceAction)
  }

  /** The request passes every check before the upstream call. */
  predicate Accepted(host: Host, req: Request) {
    NonceValid(host, req) && req.texts.Some? && req.targetLang.Some? && DecodedTexts(host, req.texts.value).Some?
  }

  /** The payload built for an accepted request. */
  function PayloadOf(host: Host, entries: seq<(ArrayKey, PhpValue)>, targetLang: string): Payload {
    Payload(SanitizeAll(entries, host), host.sanitize(Str(targetLang)), SourceLanguage, TextFormat)
  }

  /**
   * How the API's answer is relayed: success exactly when the status is 200 and the body has no
   * error member; a failed connection is a 500 carrying its message.
   */
  function Relay(host: Host, upstream: Upstream): (r: Reply)
    ensures r.Success? <==>
      upstream.HttpReply? && IntCast(upstream.code, host) == 200 && Get(host.jsonDecode(upstream.body), "error").None?
    ensures upstream.ConnectionError? ==> r == Failure(500, Str(ConnectionErrorPrefix + upstream.message))
  {
    match upstream
    case ConnectionError(message) => Failure(500, Str(ConnectionErrorPrefix + message))
    case HttpReply(code, body) =>
      var decoded := host.jsonDecode(body);
      var error := Get(decoded, "error");
      if IntCast(code, host) != 200 || error.Some? then
        Failure(IntCast(OrElse(Get(error, "code"), Int(DefaultApiErrorCode)), host),
                OrElse(Get(error, "message"), Str(DefaultApiErrorMessage)))
      else
        Success(OrElse(Get(Get(decoded, "data"), "translations"), Null))
  }

  /** evrth_translate_ajax_handler: the request and the outcome of the upstream call, if it is made. */
  function Handle(host: Host, req: Request, upstream: Upstream): (r: Handled)
    ensures r.sent.Some? <==> Accepted(host, req)
    ensures r.reply.Success? ==> Accepted(host, req) && upstream.HttpReply?
    ensures r.sent.Some? ==> r.sent.value.source == SourceLanguage && r.sent.value.format == TextFormat
  {
    if !NonceValid(host, req) then Handled(None, Failure(403, Str(NonceErrorMessage)))
    else if req.texts.None? || req.targetLang.None? then Handled(None, Failure(400, Str(MissingParameterMessage)))
    else
      match DecodedTexts(host, req.texts.value)
      case None => Handled(None, Failure(400, Str(DecodeErrorMessage)))
      case Some(entries) =>
        Handled(Some(PayloadOf(host, entries, req.targetLang.value)), Relay(host, upstream))
  }

  // ---------------------------------------------------------------- properties

  /** A missing or invalid nonce is refused with 403 before anything is decoded or sent. */
  lemma NonceCheckedFirst(host: Host, req: Request, upstream: Upstream)
    requires !NonceValid(host, req)
    ensures Handle(host, req, upstream) == Handled(None, Failure(403, Str(NonceErrorMessage)))
  {
  }

  /** With a valid nonce, a missing texts or targetLang is refused with 400, and nothing is sent. */
  lemma MissingParameterRefused(host: Host, req: Request, upstream: Upstream)
    requires NonceValid(host, req) && (req.texts.None? || req.targetLang.None?)
    ensures Handle(host, req, upstream) == Handled(None, Failure(400, Str(MissingParameterMessage)))
  {
  }

  /** Texts that do not decode, or decode to something other than an array, are refused with 400. */
  lemma UndecodableTextsRefused(host: Host, req: Request, upstream: Upstream)
    requires NonceValid(host, req) && req.texts.Some? && req.targetLang.Some?
    requires var d := host.jsonDecode(host.unslash(req.texts.value)); d.None? || !d.value.Arr?
    ensures Handle(host, req, upstream) == Handled(None, Failure(400, Str(DecodeErrorMessage)))
  {
  }

  /**
   * The payload of an accepted request: q holds the decoded texts sanitised, with their keys and
   * in their order; target is the sanitised targetLang; source is "ja" and format is "text".
   */
  lemma PayloadShape(host: Host, req: Request, upstream: Upstream)
    requires Accepted(host, req)
    ensures var p := Handle(host, req, upstream).sent.value;
      var entries := host.jsonDecode(host.unslash(req.texts.value)).value.entries;
      && |p.q| == |entries|
      && (forall k :: 0 <= k < |entries| ==> p.q[k].0 == entries[k].0 && p.q[k].1 == host.sanitize(entries[k].1))
      && p.target == host.sanitize(Str(req.targetLang.value))
      && p.source == "ja" && p.format == "text"
  {
  }

  /** A connection failure is reported with 500 and the transport's message after a fixed prefix. */
  lemma ConnectionFailureIs500(host: Host, req: Request, message: string)
    requires Accepted(host, req)
    ensures Handle(host, req, ConnectionError(message)).reply == Failure(500, Str(ConnectionErrorPrefix + message))
  {
  }

  /**
   * An answer with a code other than 200, or whose body has a non-null "error", is reported with
   * error.code (500 if absent) as the status and error.message (a fixed text if absent) as the message.
   */
  lemma ApiErrorRelayed(host: Host, req: Request, code: PhpValue, body: string)
    requires Accepted(host, req)
    requires var error := Get(host.jsonDecode(body), "error"); IntCast(code, host) != 200 || error.Some?
    ensures var error := Get(host.jsonDecode(body), "error");
      var reply := Handle(host, req, HttpReply(code, body)).reply;
      && reply.Failure?
      && reply.status == (if Get(error, "code").Some? then IntCast(Get(error, "code").value, host) else 500)
      && reply.message == (if Get(error, "message").Some? then Get(error, "message").value else Str(DefaultApiErrorMessage))
  {
  }

  /** The reply is a success exactly when the request is accepted and the API answered 200 without an error. */
  lemma SuccessIff(host: Host, req: Request, upstream: Upstream)
    ensures Handle(host, req, upstream).reply.Success? <==>
      && Accepted(host, req)
      && upstream.HttpReply?
      && IntCast(upstream.code, host) == 200
      && Get(host.jsonDecode(upstream.body), "error").None?
  {
  }

  /** On success the reply carries data.translations of the API's body as it is, or null when it is missing. */
  lemma SuccessPassesTranslationsThrough(host: Host, req: Request, upstream: Upstream)
    requires Handle(host, req, upstream).reply.Success?
    ensures var translations := Get(Get(host.jsonDecode(upstream.body), "data"), "translations");
      Handle(host, req, upstream).reply.data == (if translations.Some? then translations.value else Null)
  {
    SuccessIff(host, req, upstream);
  }

  /** Every failure status is 403, 400, 500 or the API's own error code. */
  lemma FailureStatuses(host: Host, req: Request, upstream: Upstream)
    requires Handle(host, req, upstream).reply.Failure?
    ensures var status := Handle(host, req, upstream).reply.status;
      || status == 403 || status == 400 || status == 500
      || (upstream.HttpReply? && exists c :: Get(Get(host.jsonDecode(upstream.body), "error"), "code") == Some(c) && status == IntCast(c, host))
  {
    if Accepted(host, req) && upstream.HttpReply? {
      var c := Get(Get(host.jsonDecode(upstream.body), "error"), "code");
      if c.Some? {
        assert Handle(host, req, upstream).reply.status == IntCast(c.value, host);
      }
    }
  }

  /**
   * (int) on a float truncates toward zero, unlike floor: it is odd, it agrees with floor on
   * non-negative floats and lies one above it on negative ones with a fraction; 2.9 gives 2 and
   * -2.9 gives -2.
   */
  lemma IntCastTruncates(r: real, host: Host)
    ensures IntCast(Float(-r), host) == -IntCast(Float(r), host)
    ensures r >= 0.0 ==> IntCast(Float(r), host) == r.Floor
    ensures r < 0.0 && r != r.Floor as real ==> IntCast(Float(r), host) == r.Floor + 1
    ensures IntCast(Float(2.9), host) == 2 && IntCast(Float(-2.9), host) == -2
  {
    assert (2.9).Floor == 2;
  }
}
