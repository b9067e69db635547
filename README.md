# Twitter search client: a Dafny model

This project models the search client of a small tweet-wall application, `models/TwitterAPI.php`. The client does three things:

- It gets a bearer token through Twitter's application-only authentication. This is the client credentials grant of section 4.4 of RFC 6749. The Basic credential is built as section 2.3.1 of RFC 6749 describes: percent-encoding (section 2.1 of RFC 3986), then base 64 (section 4 of RFC 4648).
- It searches for tweets with a hashtag, with an optional `max_id` cursor and a page size.
- It post-processes the decoded search result:
  - each status gets a `timestamp`;
  - bare links in each status's text are wrapped in anchor tags;
  - a load-more cursor is published, equal to the least fetched id minus one, as a decimal string;
  - statuses below a retweet threshold are dropped.

Modules, one concern each:

- `Options`, `Bytes`, `Json`: the optional value, the byte type and the decoded JSON value.
- `Decimal`: PHP's `(string)` cast of an integer (the cursor), and the reading of such a string back into a number.
- `PercentEncoding`, `Base64`: `rawurlencode` and `base64_encode`, each with its decoder.
- `Links`: the link-wrapping rewrite.
  - It is an explicit left-to-right scanner. `MatchAt` follows how the regular-expression engine tries the pattern at each position.
  - `IsMatch` is a declarative statement of the pattern. It is the reference the scanner is proved against.
- `Tweets`:
  - the search parameters;
  - the specification of the post-processing (`Transform`);
  - the post-processing loop itself (`PostProcess`). It updates the statuses one by one and keeps a running minimum.
- `TwitterApi`: the client.
  - The network and JSON decoder become an oracle class, `Http`. It records every request and answers the n-th one with an arbitrary function of the request and n.
  - `TwitterAPI` is a class whose `bearerToken` field is `""` until a token is accepted.

The model follows the code as written:

- The link's run excludes only whitespace and `<`, not `>`.
- A single quote, as well as `"`, `=` and `>`, before a link stops it being wrapped.
- A link at the very start of a text has no preceding character, so it is never wrapped.
- When the token request fails, the search request is still sent, with an empty bearer token. The failure is not reported as an error.

## Model

| member | source | states |
|---|---|---|
| `Tweets.SearchQuery` | models/TwitterAPI.php:53-67 | The parameters are `include_entities` = 0, `count` = the page size, `q` = "#" + hashtag + " -filter:retweets". `max_id` is present exactly when the given cursor is non-empty, and then equals it verbatim. No other parameter is sent, and no name occurs twice: there are 4 parameters with a cursor and 3 without. |
| `Tweets.PostProcess` | models/TwitterAPI.php:78-141 | The loop updates each status in place and keeps the running minimum of the ids. Then it publishes the cursor and applies the threshold. The result equals `Transform` of the raw reply. |
| `Tweets.EnrichedStatus` | models/TwitterAPI.php:86-101 | A processed status keeps id, retweet count, date and every other key. It gains `timestamp` = strtotime(created_at). Its new text renders pieces whose visible text is the old text, and every wrapped piece is a link of the pattern. The first match of the old text is wrapped: the new text is the old text up to and including the character before the link, then the anchor, then the rewrite resumed after the match. |
| `Tweets.ReturnedAreEnriched` | models/TwitterAPI.php:86-141 | Every returned status is the processed form of some fetched status. |
| `Tweets.LowestIsMinimum` | models/TwitterAPI.php:82-107 | With positive ids, the running minimum (0 meaning "none yet") is 0 for an empty batch. Otherwise it is an id of the batch and no larger than any id. |
| `Tweets.CursorIsMinimumMinusOne` | models/TwitterAPI.php:82-126 | For a non-empty batch of positive ids, `load_more_max_id` is set to the decimal string of the least fetched id minus 1. The rest of `search_metadata` is unchanged. |
| `Tweets.NoStatusesNoCursor` | models/TwitterAPI.php:119-126 | An empty batch gives no statuses and the metadata exactly as received, with no cursor written. |
| `Tweets.CursorIgnoresThreshold` | models/TwitterAPI.php:115-141 | The cursor is computed before filtering: two thresholds on the same batch give the same metadata. |
| `Tweets.Popular` | models/TwitterAPI.php:130-136 | Every status kept by the filter has at least the threshold's retweets. |
| `Tweets.PopularCounts` | models/TwitterAPI.php:130-136 | A status occurs in the filtered list as often as in the input if it meets the threshold, and not at all otherwise. |
| `Tweets.PopularIsSubsequence` | models/TwitterAPI.php:130-140 | The survivors keep their relative order and are reindexed: the output is a subsequence of the input. |
| `Tweets.ThresholdFilter` | models/TwitterAPI.php:128-141 | With a positive threshold, survivors meet it, statuses below it are dropped and the order is kept. With a threshold of 0 or less, the list is the processed list unchanged. |
| `Tweets.NextPageIsOlder` | models/TwitterAPI.php:115-125 | The next search sends the published cursor as `max_id`. If the endpoint returns no id above `max_id`, every status of the next page is strictly older than every status fetched for this page. |
| `Tweets.ScenarioLeastIdCursor` | models/TwitterAPI.php:103-125 | Ids 105, 103, 104 give the cursor "102". |
| `Tweets.ScenarioThresholdKeepsCursor` | models/TwitterAPI.php:115-141 | Retweet counts 0 and 5 with threshold 1 keep only the second status. The cursor still comes from the least id of both. |
| `Links.MatchAt` | models/TwitterAPI.php:97 | A match found at p ends after p + 1, inside the text. |
| `Links.MatchAtCorrect` | models/TwitterAPI.php:97 | The scanner finds a match at p exactly when the pattern matches there: a character other than `"`, `=`, `'`, `>`, then `http://`, `https://` or `ftp://` in any case, then a run without whitespace or `<` not ending in `.` or `)`. It returns the longest such match, which is the one the greedy engine picks. |
| `Links.RunEnd` | models/TwitterAPI.php:97 | The run of characters other than whitespace and `<` is taken as far as it goes. |
| `Links.LastEnd` | models/TwitterAPI.php:97 | The run is given back only until its last character is neither `.` nor `)`. |
| `Links.SchemesExclusive` | models/TwitterAPI.php:97 | At most one of the three schemes followed by "://" stands at a position, so the alternation's choice is fixed by the text. |
| `Links.ScanKeepsText` | models/TwitterAPI.php:96-100 | Removing the anchors from the rewrite gives back the scanned text. |
| `Links.ScanWrapsOnlyUrls` | models/TwitterAPI.php:96-100 | Every wrapped link matches the pattern and follows a copied character that may precede one. The first piece is always a copied character. |
| `Links.NoMatchUnchanged` | models/TwitterAPI.php:96-100 | Where the scanner finds no match, the text is copied unchanged. |
| `Links.LinkifySpec` | models/TwitterAPI.php:96-101 | The rewrite renders pieces whose visible text is the input. The URL is copied verbatim into both `href` and the anchor text. Only pattern links after an allowed character are wrapped, and the first character is always copied, so a link at position 0 is never wrapped. Conversely, the first match in the text is wrapped: the output is the text up to and including the character before the link, the anchor of the link, then the rewrite resumed after the match. |
| `Links.ScanUpToMatch` | models/TwitterAPI.php:96-100 | When the scanner finds nothing from i up to p and a match at p, the scan copies s[i..p] as characters, copies s[p], wraps the match's link and resumes at the match's end. |
| `Links.ScanWrapsLeftmost` | models/TwitterAPI.php:96-100 | The leftmost match from i, taken at its longest, is wrapped, and everything before it is copied unchanged. The scan resumes right after it. |
| `Links.RenderWrapsLeftmost` | models/TwitterAPI.php:96-100 | The rendered scan from i is s[i..p+1], then the anchor of s[p+1..e], then the rendered scan from e, where s[p..e] is the leftmost longest match. |
| `Links.LinkifyWrapsFirstMatch` | models/TwitterAPI.php:96-101 | The rewrite of a text with a first match s[p..e] is the text up to p inclusive, then `<a href="url" target="_blank">url</a>` for url = s[p+1..e], then the rewrite resumed at e. |
| `Links.LinkifyNoMatch` | models/TwitterAPI.php:96-100 | Text in which the pattern matches nowhere is returned unchanged. |
| `Decimal.DecimalRoundTrip` | models/TwitterAPI.php:119-125 | The cursor string reads back as exactly the number it was printed from. |
| `Decimal.DecimalCanonical` | models/TwitterAPI.php:122-125 | Every canonical decimal numeral is the string the cast prints for its value. |
| `Decimal.DigitsDenote` | models/TwitterAPI.php:125 | The printed digits form a canonical numeral that denotes the number. |
| `PercentEncoding.RawUrlEncode` | models/TwitterAPI.php:194-195 | The output of `rawurlencode` contains only unreserved bytes and `%`. In particular it contains no `:`. |
| `PercentEncoding.DecodeEncode` | models/TwitterAPI.php:194-195 | Percent-decoding the output of `rawurlencode` gives back the original bytes. |
| `Base64.EncodeLength` | models/TwitterAPI.php:196 | `base64_encode` writes four symbols for every started group of three bytes. |
| `Base64.DecodeEncode` | models/TwitterAPI.php:196 | Decoding the output of `base64_encode` gives back the original bytes. |
| `TwitterApi.CredentialHasOneColon` | models/TwitterAPI.php:193-196 | The string before base64 has exactly one `:`, between the two encoded parts. |
| `TwitterApi.BearerAuthRoundTrip` | models/TwitterAPI.php:193-196 | The endpoint recovers exactly the consumer key and secret from the Basic value: base64-decode, split at the first `:`, then percent-decode both parts. |
| `TwitterApi.AcceptedToken` | models/TwitterAPI.php:177-184 | A token is taken from the reply exactly when it is an object, `token_type` is the string "bearer", and `access_token` is set with a non-empty string form. The token is then that string form, which is never empty. |
| `TwitterApi.BasicTokenTypeRefused` | models/TwitterAPI.php:177-181 | A reply whose token type is "basic" yields no token. |
| `TwitterApi.Http.Post` | models/TwitterAPI.php:259-271 | The POST is recorded and answered by the oracle as the next request. |
| `TwitterApi.Http.Get` | models/TwitterAPI.php:221-231 | The GET is recorded and answered by the oracle as the next request. |
| `TwitterApi.TwitterAPI.constructor` | models/TwitterAPI.php:24-29 | A new client holds no token and the base URL `https://api.twitter.com/`. The key and secret are given as parameters. |
| `TwitterApi.TwitterAPI.GetBearerToken` | models/TwitterAPI.php:152-185 | Sends exactly one request: a POST to `oauth2/token` with the Basic credential, the form content type, `Content-Length: 29` and the body `grant_type=client_credentials`. It does not re-enter itself. The token changes only to an accepted token, and once set it stays set. |
| `TwitterApi.TwitterAPI.MakePostRequest` | models/TwitterAPI.php:244-272 | The token request (`for_bearer_token`), or any POST made while a token is held, sends just that POST and leaves the token alone. Otherwise the token request is sent first. |
| `TwitterApi.TwitterAPI.MakeGetRequest` | models/TwitterAPI.php:206-232 | The token is fetched only while the field is empty, so a held token is never refreshed. The GET then carries `Authorization: Bearer` followed by the token held at that point. |
| `TwitterApi.TwitterAPI.GetFeaturedTweets` | models/TwitterAPI.php:46-144 | The defaults are "custserv", 1, "" and 20. It sends the search request with `SearchQuery`'s parameters, preceded by the token request only while no token is held. The result is `Transform` of the decoded reply, or nothing when the reply does not decode. |

## Left out

- The cURL transport and `json_decode` (models/TwitterAPI.php:222-231, 260-271) are the `Http` oracle. Its replies are arbitrary, and a reply that decodes to null is `None`. No transport failure is modelled beyond that.
- `GetFeaturedTweets` returns `None` when the search reply decodes to null. PHP would instead emit warnings and return null, or an array whose `statuses` is null. A reply without `statuses`, such as an error document, is assumed to be decoded by the oracle into a `SearchResult`.
- `http_build_query`: the search parameters are an ordered list of name/value pairs, not the URL-encoded query string. The token body is the fixed string it produces.
- `strtotime` is a function value given to the client's constructor. Its `false` result for an unparsable date is not told apart from a number.
- Configuration: the `$ENV` lookup of the consumer key and secret is replaced by constructor parameters.
- The unused `$url` pattern at models/TwitterAPI.php:95 is never applied, so it is not modelled.
- Integer width: integers are unbounded. With positive ids, "least id minus 1" cannot overflow a 64-bit integer. PHP's switch to a float below the smallest 64-bit integer is not modelled.
- JSON numbers with a fraction (PHP floats) are not represented. `Json.Value` numbers are integers.
- `access_token` values are read with PHP's string conversion:
  - a number or `true` is accepted;
  - an array is refused (PHP 7's `strlen` of an array gives null);
  - PHP 8 would throw instead of refusing an array.
- Character model: texts are sequences of characters, while PHP matches bytes.
  - Every character of the pattern is ASCII, and `\s` and case folding cover only ASCII.
  - So the wrapping decisions are the same for UTF-8 text.
- `LinkifyWrapsFirstMatch`: the output after the first match is stated as the scan resumed at the match's end inside the whole text, not as the rewrite of the remaining suffix on its own. The two agree because the pattern looks back only at the one character it consumes, but that equivalence is not proved.
- Linkify idempotence is not claimed. The rewrite can re-wrap inside its own output, for example a URL containing "ahttp://" in the middle.
- Concurrency: none in the source, none in the model.
- js/main.js, api/v1/index.php and controllers/Twitter.php are not part of this model. They are browser rendering, request routing and a one-line pass-through.
