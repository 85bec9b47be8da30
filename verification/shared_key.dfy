/**
 * The shared-key authentication of the Log Analytics HTTP Data Collector
 * API as `laDataSink` builds it: the string to sign, its HMAC-SHA256
 * signature, the `Authorization` value and the endpoint URL.
 */
module SharedKey {
  import opened Wrappers
  import opened Text

  const Verb := "POST"
  const ContentType := "application/json"
  const DateHeaderName := "x-ms-date"
  const Resource := "/api/logs"
  const Scheme := "SharedKey "
  const HostSuffix := ".ods.opinsights.azure.com/api/logs?api-version=2016-04-01"
  const UrlPrefix := "https://"

  /**
   * The string to sign for a body of `contentLength` UTF-8 bytes sent at
   * `date`: verb, length, content type, date header and resource, one per line.
   */
  function StringToSign(contentLength: nat, date: string): string
  {
    Verb + "\n" + NatToDecimal(contentLength) + "\n" + ContentType + "\n"
      + DateHeaderName + ":" + date + "\n" + Resource
  }

  /** Read line by line, the string to sign gives back its five parts and the exact length. */
  lemma StringToSignLines(contentLength: nat, date: string)
    requires '\n' !in date
    ensures var lines := Split(StringToSign(contentLength, date), '\n');
      && lines == [Verb, NatToDecimal(contentLength), ContentType, DateHeaderName + ":" + date, Resource]
      && ParseDecimal(lines[1]) == contentLength
  {
    SplitStringToSign(contentLength, date);
    DecimalRoundTrip(contentLength);
  }

  lemma SplitStringToSign(contentLength: nat, date: string)
    requires '\n' !in date
    ensures Split(StringToSign(contentLength, date), '\n')
         == [Verb, NatToDecimal(contentLength), ContentType, DateHeaderName + ":" + date, Resource]
  {
    var len := NatToDecimal(contentLength);
    var dateLine := DateHeaderName + ":" + date;
    assert StringToSign(contentLength, date)
        == Verb + ['\n'] + (len + ['\n'] + (ContentType + ['\n'] + (dateLine + ['\n'] + Resource)));
    SplitFive(Verb, len, ContentType, dateLine, Resource, '\n');
  }

  lemma SplitFive(a: string, b: string, c: string, d: string, e: string, sep: char)
    requires sep !in a && sep !in b && sep !in c && sep !in d && sep !in e
    ensures Split(a + [sep] + (b + [sep] + (c + [sep] + (d + [sep] + e))), sep) == [a, b, c, d, e]
  {
    SplitNoSep(e, sep);
    SplitCons(d, sep, e, [e]);
    SplitCons(c, sep, d + [sep] + e, [d, e]);
    SplitCons(b, sep, c + [sep] + (d + [sep] + e), [c, d, e]);
    SplitCons(a, sep, b + [sep] + (c + [sep] + (d + [sep] + e)), [b, c, d, e]);
  }

  /**
   * An ASCII date makes the string to sign pure ASCII, so the bytes
   * `ASCIIEncoding` feeds to the HMAC spell it out exactly.
   */
  lemma StringToSignIsAscii(contentLength: nat, date: string)
    requires IsAscii(date)
    ensures IsAscii(StringToSign(contentLength, date))
    ensures AsciiDecode(AsciiBytes(StringToSign(contentLength, date))) == StringToSign(contentLength, date)
  {
    var s := StringToSign(contentLength, date);
    assert IsAscii(s);
    AsciiRoundTrip(s);
  }

  /**
   * HMAC-SHA256 (RFC 2104 over SHA-256) and Base64 (section 4 of RFC 4648),
   * not modelled. `fromBase64` is `Convert.FromBase64String`: the bytes, or
   * the message of the `FormatException` it throws on text that is not Base64.
   */
  datatype Crypto = Crypto(
    fromBase64: string -> Result<seq<byte>, string>,
    hmacSha256: (seq<byte>, seq<byte>) -> seq<byte>,
    toBase64: seq<byte> -> string)

  /**
   * `BuildSignature`: decode the secret from Base64 (throwing if it is not
   * Base64), HMAC the ASCII bytes of the message with it, Base64 the digest.
   */
  function BuildSignature(message: string, secret: string, crypto: Crypto): (r: Result<string, string>)
    ensures r.Failure? <==> crypto.fromBase64(secret).Failure?
    ensures r.Failure? ==> r.error == crypto.fromBase64(secret).error
    ensures r.Success? ==>
      r.value == crypto.toBase64(crypto.hmacSha256(crypto.fromBase64(secret).value, AsciiBytes(message)))
  {
    var key :- crypto.fromBase64(secret);
    Success(crypto.toBase64(crypto.hmacSha256(key, AsciiBytes(message))))
  }

  /**
   * The service's side of the scheme: when Base64 decodes what it encodes,
   * decoding a signature gives back the HMAC, under the shared key, of the
   * message's ASCII bytes, which the service recomputes from the string to
   * sign it rebuilds.
   */
  lemma SignatureVerifies(message: string, secret: string, crypto: Crypto)
    requires forall b :: crypto.fromBase64(crypto.toBase64(b)) == Success(b)
    ensures var r := BuildSignature(message, secret, crypto);
      r.Success? ==>
        crypto.fromBase64(r.value) == Success(crypto.hmacSha256(crypto.fromBase64(secret).value, AsciiBytes(message)))
  {
  }

  /** The `Authorization` header value. */
  function Authorization(workspaceId: string, signature: string): string
  {
    Scheme + workspaceId + ":" + signature
  }

  /** The scheme, the workspace id (up to the first colon) and the signature can be read back. */
  lemma AuthorizationParts(workspaceId: string, signature: string)
    requires ':' !in workspaceId
    ensures var a := Authorization(workspaceId, signature);
      && a[..|Scheme|] == Scheme
      && FirstToken(a[|Scheme|..], ':') == workspaceId
      && a[|Scheme| + |workspaceId| + 1..] == signature
  {
    var a := Authorization(workspaceId, signature);
    var rest := a[|Scheme|..];
    assert rest == workspaceId + ":" + signature;
    FirstTokenIsFirstPart(rest, ':');
    SplitJoin(workspaceId, ':', signature);
    assert rest == workspaceId + [':'] + signature;
  }

  /** The ingestion endpoint of a workspace. */
  function Url(workspaceId: string): string
  {
    UrlPrefix + workspaceId + HostSuffix
  }

  /** Distinct workspaces get distinct endpoints, and the workspace can be read back. */
  lemma UrlParts(workspaceId: string)
    ensures var u := Url(workspaceId);
      && |u| == |UrlPrefix| + |workspaceId| + |HostSuffix|
      && u[..|UrlPrefix|] == UrlPrefix
      && u[|UrlPrefix|..|UrlPrefix| + |workspaceId|] == workspaceId
      && u[|UrlPrefix| + |workspaceId|..] == HostSuffix
  {
  }

  lemma UrlInjective(a: string, b: string)
    requires Url(a) == Url(b)
    ensures a == b
  {
    UrlParts(a);
    UrlParts(b);
  }
}
