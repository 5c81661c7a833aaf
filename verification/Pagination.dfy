/**
  Pages, page tokens and the query that asks for a page.  A token carries the
  page selector of an endpoint, wrapped with a version, as base64 text of its
  JSON form; the JSON form itself is a parameter.
 */
module Pagination {
  import opened Wrappers
  import opened Base64

  const MAX_TOKEN_LENGTH: nat := 512

  datatype PaginationVersion = V1

  datatype SerializedToken<S> = SerializedToken(v: PaginationVersion, pageStart: S)

  /** How selectors are written to JSON and read back; writing may fail. */
  datatype Json<!S> = Json(
    write: SerializedToken<S> -> Option<seq<Byte>>,
    read: seq<Byte> -> Option<SerializedToken<S>>)

  /** What was written reads back as it was. */
  ghost predicate Faithful<S(!new)>(json: Json<S>) {
    forall t, bytes :: json.write(t) == Some(bytes) ==> json.read(bytes) == Some(t)
  }

  datatype TokenError = NotSerializable | TokenTooLarge | NotBase64 | CorruptedToken | UnsupportedVersion

  function SerializePageToken<S>(json: Json<S>, pageStart: S): Result<string, TokenError> {
    match json.write(SerializedToken(V1, pageStart))
    case None => Err(NotSerializable)
    case Some(bytes) =>
      var token := Encode(bytes);
      if |token| > MAX_TOKEN_LENGTH then Err(TokenTooLarge) else Ok(token)
  }

  function DeserializePageToken<S>(json: Json<S>, token: string): Result<S, TokenError> {
    if |token| > MAX_TOKEN_LENGTH then Err(TokenTooLarge)
    else match Decode(token)
      case None => Err(NotBase64)
      case Some(bytes) => match json.read(bytes)
        case None => Err(CorruptedToken)
        case Some(t) => if t.v != V1 then Err(UnsupportedVersion) else Ok(t.pageStart)
  }

  /** Every token that is handed out can be redeemed for the selector it was made from. */
  lemma TokenRoundTrip<S(!new)>(json: Json<S>, pageStart: S)
    requires Faithful(json) && SerializePageToken(json, pageStart).Ok?
    ensures DeserializePageToken(json, SerializePageToken(json, pageStart).value) == Ok(pageStart)
  {
    hide Encode, Decode;
    DecodeEncode(json.write(SerializedToken(V1, pageStart)).value);
  }

  /** Nothing else is redeemed: only text of bounded length that encodes the JSON form of a token with that selector. */
  lemma RedeemedIff<S>(json: Json<S>, token: string, pageStart: S)
    ensures DeserializePageToken(json, token) == Ok(pageStart) <==>
      && |token| <= MAX_TOKEN_LENGTH
      && exists bytes :: token == Encode(bytes) && json.read(bytes) == Some(SerializedToken(V1, pageStart))
  {
    hide Encode, Decode;
    if Decode(token).Some? { EncodeDecode(token); }
    forall bytes | token == Encode(bytes) ensures Decode(token) == Some(bytes) { DecodeEncode(bytes); }
  }

  /** The selector has a JSON form of at most 384 bytes. */
  predicate TokenFits<S>(json: Json<S>, pageStart: S) {
    var bytes := json.write(SerializedToken(V1, pageStart));
    bytes.Some? && |bytes.value| <= 384
  }

  /** A token can be handed out exactly when the JSON form has at most 384 bytes. */
  lemma TokenFitsIff<S>(json: Json<S>, pageStart: S)
    ensures SerializePageToken(json, pageStart).Ok? <==> TokenFits(json, pageStart)
  {
    hide Encode;
    match json.write(SerializedToken(V1, pageStart))
    case None =>
    case Some(bytes) => EncodedLength(bytes);
  }

  // --------------------------------------------------------------------- pages

  datatype ResultsPage<T> = ResultsPage(nextPage: Option<string>, items: seq<T>)

  /** A page with the token for the next one, made from the last item; an empty page has none. */
  function NewResultsPage<T, P, S>(json: Json<S>, items: seq<T>, scanParams: P, selectorFor: (T, P) -> S)
    : Result<ResultsPage<T>, TokenError>
  {
    if items == [] then Ok(ResultsPage(None, items))
    else match SerializePageToken(json, selectorFor(items[|items| - 1], scanParams))
      case Err(e) => Err(e)
      case Ok(token) => Ok(ResultsPage(Some(token), items))
  }

  /**
    A page can be made exactly when it is empty or a token can; the token leads back to the selector of its last item.
   */
  lemma NextPageResumesAfterLast<T, P, S(!new)>(json: Json<S>, items: seq<T>, scanParams: P, selectorFor: (T, P) -> S)
    requires Faithful(json)
    ensures NewResultsPage(json, items, scanParams, selectorFor).Ok? <==>
      items == [] || SerializePageToken(json, selectorFor(items[|items| - 1], scanParams)).Ok?
    ensures NewResultsPage(json, items, scanParams, selectorFor).Ok? ==>
      var page := NewResultsPage(json, items, scanParams, selectorFor).value;
      && page.items == items
      && (page.nextPage.None? <==> items == [])
      && (items != [] ==>
           DeserializePageToken(json, page.nextPage.value) == Ok(selectorFor(items[|items| - 1], scanParams)))
  {
    hide SerializePageToken, DeserializePageToken;
    if items != [] && SerializePageToken(json, selectorFor(items[|items| - 1], scanParams)).Ok? {
      TokenRoundTrip(json, selectorFor(items[|items| - 1], scanParams));
    }
  }

  datatype WhichPage<P, S> = First(scanParams: P) | Next(selector: S)

  datatype QueryError = BadToken(cause: TokenError) | BadScanParams

  /** A query with a page token resumes a scan; any other begins one. */
  function DeserializeWhichPage<P, S>(json: Json<S>, fromMap: map<string, string> -> Option<P>,
                                      raw: map<string, string>)
    : Result<WhichPage<P, S>, QueryError>
  {
    if "page_token" in raw then
      match DeserializePageToken(json, raw["page_token"])
      case Err(e) => Err(BadToken(e))
      case Ok(selector) => Ok(Next(selector))
    else
      match fromMap(raw)
      case None => Err(BadScanParams)
      case Some(p) => Ok(First(p))
  }

  /** A query is understood exactly as its token says, if it has one that redeems, and else as its parameters say. */
  lemma QueryIsUnderstoodIff<P, S>(json: Json<S>, fromMap: map<string, string> -> Option<P>, raw: map<string, string>,
                                   page: WhichPage<P, S>)
    ensures "page_token" in raw ==>
      (DeserializeWhichPage(json, fromMap, raw) == Ok(page) <==>
        && page.Next? && |raw["page_token"]| <= 512
        && exists bytes ::
             raw["page_token"] == Encode(bytes) && json.read(bytes) == Some(SerializedToken(V1, page.selector)))
    ensures "page_token" !in raw ==>
      (DeserializeWhichPage(json, fromMap, raw) == Ok(page) <==> page.First? && fromMap(raw) == Some(page.scanParams))
  {
    if "page_token" in raw && page.Next? {
      RedeemedIff(json, raw["page_token"], page.selector);
    }
    hide Encode, Decode;
  }

  /** A number of items; zero is ruled out by its type. */
  type Limit = n: nat | n >= 1 witness 1

  datatype PageConfig = PageConfig(maxItems: Limit, defaultItems: Limit)

  /** The client's limit, capped by the server's; or the server's default. */
  function PageLimit(config: PageConfig, requested: Option<Limit>): (limit: Limit)
    ensures config.defaultItems <= config.maxItems ==> limit <= config.maxItems
    ensures requested.Some? ==>
      limit <= requested.value && limit <= config.maxItems && limit in {requested.value, config.maxItems}
    ensures requested.None? ==> limit == config.defaultItems
  {
    match requested
    case None => config.defaultItems
    case Some(n) => if n < config.maxItems then n else config.maxItems
  }
}
