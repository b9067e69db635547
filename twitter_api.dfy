/**
 * The client object: application-only authentication (the client
 * credentials grant of section 4.4 of RFC 6749) with a lazily fetched,
 * never refreshed bearer token, and the search call built on it.
 */
module TwitterApi {
  import opened Options
  import opened Bytes
  import opened Json
  import opened Decimal
  import PercentEncoding
  import Base64
  import opened Tweets

  // ---------------------------------------------------------------------
  // The Basic credential of the token request (section 2.3.1 of RFC 6749)
  // ---------------------------------------------------------------------

  /** rawurlencode(key) ":" rawurlencode(secret), before base64. */
  function Credential(key: seq<Byte>, secret: seq<Byte>): seq<Byte>
  {
    PercentEncoding.RawUrlEncode(key) + [Colon] + PercentEncoding.RawUrlEncode(secret)
  }

  /** encodeBearerAuth: the value that follows "Basic " in the Authorization header. */
  function EncodeBearerAuth(key: seq<Byte>, secret: seq<Byte>): string
  {
    Base64.Encode(Credential(key, secret))
  }

  /** The first index of b in s. */
  function FirstIndex(s: seq<Byte>, b: Byte): (r: Option<nat>)
    ensures r.Some? ==> r.value < |s| && s[r.value] == b && forall j :: 0 <= j < r.value ==> s[j] != b
    ensures r.None? ==> forall j :: 0 <= j < |s| ==> s[j] != b
    decreases |s|
  {
    if s == [] then None
    else if s[0] == b then Some(0)
    else match FirstIndex(s[1..], b)
      case None => None
      case Some(i) => Some(i + 1)
  }

  /** How the token endpoint reads the credential: base64, split at the first ':', percent-decode both halves. */
  function DecodeBearerAuth(auth: string): Option<(seq<Byte>, seq<Byte>)>
  {
    match Base64.Decode(auth)
    case None => None
    case Some(c) =>
      match FirstIndex(c, Colon)
      case None => None
      case Some(i) =>
        match (PercentEncoding.PercentDecode(c[..i]), PercentEncoding.PercentDecode(c[i + 1..]))
        case (Some(key), Some(secret)) => Some((key, secret))
        case _ => None
  }

  /** Percent-encoding escapes ':', so the credential holds exactly one, between the two encoded parts. */
  lemma CredentialHasOneColon(key: seq<Byte>, secret: seq<Byte>)
    ensures var c := Credential(key, secret);
            forall i :: 0 <= i < |c| ==> (c[i] == Colon <==> i == |PercentEncoding.RawUrlEncode(key)|)
  {
    var ek, es := PercentEncoding.RawUrlEncode(key), PercentEncoding.RawUrlEncode(secret);
    var c := Credential(key, secret);
    forall i | 0 <= i < |c| ensures c[i] == Colon <==> i == |ek| {
      if i < |ek| {
        assert c[i] == ek[i];
      } else if i > |ek| {
        assert c[i] == es[i - |ek| - 1];
      }
    }
  }

  /** The endpoint recovers exactly the consumer key and secret from the header value. */
  lemma BearerAuthRoundTrip(key: seq<Byte>, secret: seq<Byte>)
    ensures DecodeBearerAuth(EncodeBearerAuth(key, secret)) == Some((key, secret))
  {
    var ek, es := PercentEncoding.RawUrlEncode(key), PercentEncoding.RawUrlEncode(secret);
    var c := Credential(key, secret);
    Base64.DecodeEncode(c);
    CredentialHasOneColon(key, secret);
    assert c[|ek|] == Colon;
    assert FirstIndex(c, Colon) == Some(|ek|);
    assert c[..|ek|] == ek && c[|ek| + 1..] == es;
    PercentEncoding.DecodeEncode(key);
    PercentEncoding.DecodeEncode(secret);
  }

  // ---------------------------------------------------------------------
  // The token reply
  // ---------------------------------------------------------------------

  /** The string PHP makes of a scalar in strlen and concatenation; arrays have none. */
  function PhpString(v: Value): Option<string>
  {
    match v
    case Null => Some("")
    case Bool(b) => Some(if b then "1" else "")
    case Int(i) => Some(DecimalString(i))
    case Str(s) => Some(s)
    case List(_) => None
    case Object(_) => None
  }

  /**
   * The token the client keeps from a decoded token reply: only from an
   * object whose token_type is exactly the string "bearer" and whose
   * access_token is set and non-empty.
   */
  function AcceptedToken(reply: Option<Value>): (r: Option<string>)
    ensures r.Some? ==> |r.value| > 0
    ensures r.Some? <==>
      && reply.Some? && reply.value.Object?
      && "token_type" in reply.value.fields && reply.value.fields["token_type"] == Str("bearer")
      && "access_token" in reply.value.fields
      && PhpString(reply.value.fields["access_token"]).Some?
      && |PhpString(reply.value.fields["access_token"]).value| > 0
    ensures r.Some? ==> PhpString(reply.value.fields["access_token"]) == r
  {
    match reply
    case Some(Object(fields)) =>
      if && "token_type" in fields && fields["token_type"] == Str("bearer")
         && "access_token" in fields
      then
        match PhpString(fields["access_token"])
        case Some(token) => if |token| > 0 then Some(token) else None
        case None => None
      else None
    case _ => None
  }

  /** A reply of token type "basic" is refused, whatever its access_token. */
  lemma BasicTokenTypeRefused(accessToken: Value)
    ensures AcceptedToken(Some(Object(map["token_type" := Str("basic"), "access_token" := accessToken]))) == None
  {
  }

  // ---------------------------------------------------------------------
  // The network
  // ---------------------------------------------------------------------

  datatype Request =
    | GetRequest(url: string, query: Query, headers: seq<string>)
    | PostRequest(url: string, headers: seq<string>, body: string)

  /**
   * The transport and JSON decoder as an oracle: it records every request
   * and answers the n-th one (counting from 0) with postReply or getReply,
   * arbitrary functions of the request and of n; None stands for a reply
   * that json_decode turns into null.
   */
  class Http {
    var log: seq<Request>
    const postReply: (Request, nat) -> Option<Value>
    const getReply: (Request, nat) -> Option<SearchResult>

    constructor (postReply: (Request, nat) -> Option<Value>, getReply: (Request, nat) -> Option<SearchResult>)
      ensures log == [] && this.postReply == postReply && this.getReply == getReply
    {
      log := [];
      this.postReply := postReply;
      this.getReply := getReply;
    }

    method Post(url: string, headers: seq<string>, body: string) returns (reply: Option<Value>)
      modifies this
      ensures log == old(log) + [PostRequest(url, headers, body)]
      ensures reply == postReply(PostRequest(url, headers, body), |old(log)|)
    {
      reply := postReply(PostRequest(url, headers, body), |log|);
      log := log + [PostRequest(url, headers, body)];
    }

    method Get(url: string, query: Query, headers: seq<string>) returns (reply: Option<SearchResult>)
      modifies this
      ensures log == old(log) + [GetRequest(url, query, headers)]
      ensures reply == getReply(GetRequest(url, query, headers), |old(log)|)
    {
      reply := getReply(GetRequest(url, query, headers), |log|);
      log := log + [GetRequest(url, query, headers)];
    }
  }

  // ---------------------------------------------------------------------
  // The client
  // ---------------------------------------------------------------------

  const BaseUrl: string := "https://api.twitter.com/"
  const TokenPath: string := "oauth2/token"
  const SearchPath: string := "1.1/search/tweets.json"
  /** http_build_query(['grant_type' => 'client_credentials']) */
  const TokenBody: string := "grant_type=client_credentials"

  function TokenHeaders(key: seq<Byte>, secret: seq<Byte>): seq<string>
  {
    [ "Authorization: Basic " + EncodeBearerAuth(key, secret),
      "Content-Type: application/x-www-form-urlencoded;charset=UTF-8",
      "Content-Length: " + DecimalString(|TokenBody|) ]
  }

  function BearerHeaders(token: string): seq<string>
  {
    ["Authorization: Bearer " + token]
  }

  /**
   * The client. Its bearer token moves from unset ("") to a non-empty
   * token at most once: it is fetched only while unset and no operation
   * ever clears or replaces it.
   */
  class TwitterAPI {
    var bearerToken: string
    const consumerKey: seq<Byte>
    const consumerSecret: seq<Byte>
    const baseUrl: string
    const http: Http
    /** PHP's strtotime, an opaque library function of the date string. */
    const strtotime: string -> int

    constructor (consumerKey: seq<Byte>, consumerSecret: seq<Byte>, http: Http, strtotime: string -> int)
      ensures bearerToken == "" && baseUrl == BaseUrl
      ensures this.consumerKey == consumerKey && this.consumerSecret == consumerSecret
      ensures this.http == http && this.strtotime == strtotime
    {
      bearerToken := "";
      this.consumerKey := consumerKey;
      this.consumerSecret := consumerSecret;
      baseUrl := BaseUrl;
      this.http := http;
      this.strtotime := strtotime;
    }

    /** The one request that fetches the token. */
    function TokenRequest(): Request
    {
      PostRequest(baseUrl + TokenPath, TokenHeaders(consumerKey, consumerSecret), TokenBody)
    }

    /** The token held after the token request was answered as the n-th request. */
    function TokenAfter(prior: string, n: nat): string
    {
      var accepted := AcceptedToken(http.postReply(TokenRequest(), n));
      if accepted.Some? then accepted.value else prior
    }

    /**
     * getBearerToken: one POST to the token endpoint, flagged as the token
     * request so that it does not look for a token itself; the reply's
     * token is kept only if it is well formed.
     */
    method GetBearerToken()
      modifies this, http
      decreases 1
      ensures http.log == old(http.log) + [TokenRequest()]
      ensures bearerToken == TokenAfter(old(bearerToken), |old(http.log)|)
      ensures old(bearerToken) != "" ==> bearerToken != ""
    {
      var bearerAuth := EncodeBearerAuth(consumerKey, consumerSecret);
      var requestBody := TokenBody;
      var headers := [
        "Authorization: Basic " + bearerAuth,
        "Content-Type: application/x-www-form-urlencoded;charset=UTF-8",
        "Content-Length: " + DecimalString(|requestBody|)
      ];
      var result := MakePostRequest(TokenPath, headers, requestBody, true);
      var accepted := AcceptedToken(result);
      if accepted.Some? {
        bearerToken := accepted.value;
      }
    }

    /**
     * makePostRequest: unless it is the token request itself, fetch the
     * token first when none is held; then send the POST as given.
     */
    method MakePostRequest(path: string, headers: seq<string>, body: string, forBearerToken: bool)
      returns (reply: Option<Value>)
      modifies this, http
      decreases if forBearerToken then 0 else 2
      ensures var request := PostRequest(baseUrl + path, headers, body);
              if forBearerToken || old(bearerToken) != "" then
                && bearerToken == old(bearerToken)
                && http.log == old(http.log) + [request]
                && reply == http.postReply(request, |old(http.log)|)
              else
                && bearerToken == TokenAfter(old(bearerToken), |old(http.log)|)
                && http.log == old(http.log) + [TokenRequest(), request]
                && reply == http.postReply(request, |old(http.log)| + 1)
    {
      if !forBearerToken && bearerToken == "" {
        GetBearerToken();
      }
      reply := http.Post(baseUrl + path, headers, body);
    }

    /**
     * makeGetRequest: fetch the token first only when none is held, then
     * send the GET with the token as bearer credential, whatever the token
     * fetch gave.
     */
    method MakeGetRequest(path: string, query: Query) returns (reply: Option<SearchResult>)
      modifies this, http
      ensures old(bearerToken) != "" ==> bearerToken == old(bearerToken)
      ensures old(bearerToken) == "" ==> bearerToken == TokenAfter(old(bearerToken), |old(http.log)|)
      ensures var request := GetRequest(baseUrl + path, query, BearerHeaders(bearerToken));
              && http.log == old(http.log) + (if old(bearerToken) == "" then [TokenRequest()] else []) + [request]
              && reply == http.getReply(request, |http.log| - 1)
    {
      if bearerToken == "" {
        GetBearerToken();
      }
      var headers := BearerHeaders(bearerToken);
      reply := http.Get(baseUrl + path, query, headers);
    }

    /**
     * getFeaturedTweets: one search for the hashtag (preceded by the token
     * request only while no token is held), post-processed as Transform
     * says; a reply that does not decode gives None.
     */
    method GetFeaturedTweets(hashtag: string := "custserv", minRetweetCount: int := 1,
                             maxId: string := "", loadMoreCount: int := 20)
      returns (result: Option<SearchResult>)
      modifies this, http
      ensures old(bearerToken) != "" ==> bearerToken == old(bearerToken)
      ensures old(bearerToken) == "" ==> bearerToken == TokenAfter(old(bearerToken), |old(http.log)|)
      ensures var request := GetRequest(baseUrl + SearchPath, SearchQuery(hashtag, maxId, loadMoreCount),
                                        BearerHeaders(bearerToken));
              && http.log == old(http.log) + (if old(bearerToken) == "" then [TokenRequest()] else []) + [request]
              && var reply := http.getReply(request, |http.log| - 1);
                 result == if reply.Some? then Some(Transform(reply.value, minRetweetCount, strtotime)) else None
    {
      var parameters := SearchQuery(hashtag, maxId, loadMoreCount);
      var reply := MakeGetRequest(SearchPath, parameters);
      if reply.None? {
        return None;
      }
      var page := PostProcess(reply.value, minRetweetCount, strtotime);
      result := Some(page);
    }
  }
}
