/**
 * The request handler of the proxy: parse the request path, answer from the
 * cache, or fetch the origin image, convert it, store it and answer with it.
 * Every collaborator (URL parser, cache, origin, converter) is a parameter,
 * and the handler's result is the response together with the calls it made,
 * in order, so that what a branch does not touch can be stated.
 */
module Handlers {
  import opened Wrappers
  import opened GoText
  import opened Query
  import opened Http

  /** A call the handler makes to one of its collaborators. */
  datatype Call =
    | CacheGet(key: string)
    | Fetch(url: Url)
    | Convert(width: Int64, height: Int64, pic: Bytes)
    | CacheSet(key: string, pic: Bytes)

  /** The dynamic value the cache hands back: nothing, a `[]byte`, or anything else. */
  datatype Cached = Absent | Pic(pic: Bytes) | Other

  /** `Cache.Get`'s results: the value, whether the key was found, and an error. */
  datatype Lookup = Lookup(value: Cached, found: bool, err: Option<string>)

  /** `fromOrigin`'s results: an error, or the origin's status and body. */
  datatype Fetched = FetchFailed(err: string) | Fetched(status: int, body: Bytes)

  /** A handled request: the response and the collaborator calls, in order. */
  datatype Handled = Handled(response: Response, calls: seq<Call>)

  const NotInOrigin: string := "Pic not found in origin or have problem with upstream"

  /** `handler`: one request, answered with its ladder of early returns. */
  function Handle(
    path: string,
    parse: string -> Option<Url>,
    get: string -> Lookup,
    fetch: Url -> Fetched,
    convert: (Int64, Int64, Bytes) -> Result<Bytes, string>,
    store: (string, Bytes) -> Option<string>): (r: Handled)
    ensures r.calls == [] <==> BuildQuery(path, parse).Failure?
    ensures r.calls != [] ==> r.calls[0] == CacheGet(Id(BuildQuery(path, parse).value)) && |r.calls| <= 4
    ensures r.response.body.Picture? <==> r.response.status == StatusOK
  {
    match BuildQuery(path, parse)
    case Failure(e) =>
      Handled(ErrorReply("can't parse query:\n " + e, StatusBadRequest), [])
    case Success(q) =>
      var key := Id(q);
      var got := get(key);
      if got.err.Some? then
        Handled(ErrorReply("can't get pic from cache:\n " + got.err.value, StatusInternalServerError), [CacheGet(key)])
      else if got.found && got.value.Pic? then
        Handled(PictureReply(map["X-From-Appcache" := ["true"]], got.value.pic), [CacheGet(key)])
      else
        var asked := [CacheGet(key), Fetch(q.url)];
        match fetch(q.url)
        case FetchFailed(e) =>
          Handled(ErrorReply("can't get pic from origin:\n " + e, StatusBadGateway), asked)
        case Fetched(status, body) =>
          if status != StatusOK then Handled(ErrorReply(NotInOrigin, status), asked)
          else
            var converting := asked + [Convert(q.width, q.height, body)];
            match convert(q.width, q.height, body)
            case Failure(e) =>
              Handled(ErrorReply("can't convert pic:\n " + e, StatusInternalServerError), converting)
            case Success(pic) =>
              var storing := converting + [CacheSet(key, pic)];
              match store(key, pic)
              case Some(e) =>
                Handled(ErrorReply("can't add pic to cache:\n " + e, StatusInternalServerError), storing)
              case None => Handled(PictureReply(map[], pic), storing)
  }

  /** A request that does not parse is refused with 400 before any collaborator is asked. */
  lemma ParseFailureRefused(path: string, parse: string -> Option<Url>, get: string -> Lookup, fetch: Url -> Fetched,
    convert: (Int64, Int64, Bytes) -> Result<Bytes, string>, store: (string, Bytes) -> Option<string>)
    requires BuildQuery(path, parse).Failure?
    ensures var r := Handle(path, parse, get, fetch, convert, store);
      r.response == ErrorReply("can't parse query:\n " + BuildQuery(path, parse).error, StatusBadRequest) && r.calls == []
  {
  }

  /**
   * The response carries a picture exactly when the cache had one for the
   * request's id (then nothing else is asked, and the reply is marked as coming
   * from the cache), or when the origin answered 200, the conversion succeeded
   * and the converted picture was stored under the id.
   */
  lemma PictureServed(path: string, parse: string -> Option<Url>, get: string -> Lookup, fetch: Url -> Fetched,
    convert: (Int64, Int64, Bytes) -> Result<Bytes, string>, store: (string, Bytes) -> Option<string>)
    ensures var r := Handle(path, parse, get, fetch, convert, store);
      r.response.body.Picture? <==>
        && BuildQuery(path, parse).Success?
        && var q := BuildQuery(path, parse).value;
        && var got := get(Id(q));
        && got.err.None?
        && (if got.found && got.value.Pic? then
              r.calls == [CacheGet(Id(q))] &&
              r.response == PictureReply(map["X-From-Appcache" := ["true"]], got.value.pic)
            else
              && fetch(q.url).Fetched? && fetch(q.url).status == StatusOK
              && var body := fetch(q.url).body;
              && convert(q.width, q.height, body).Success?
              && var pic := convert(q.width, q.height, body).value;
              && store(Id(q), pic).None?
              && r.calls == [CacheGet(Id(q)), Fetch(q.url), Convert(q.width, q.height, body), CacheSet(Id(q), pic)]
              && r.response == PictureReply(map[], pic))
  {
  }

  /**
   * The status of every other outcome: 500 when the cache lookup, the
   * conversion or the store fails, 502 when the origin cannot be reached, and
   * the origin's own status when it is not 200.
   */
  lemma FailureStatus(path: string, parse: string -> Option<Url>, get: string -> Lookup, fetch: Url -> Fetched,
    convert: (Int64, Int64, Bytes) -> Result<Bytes, string>, store: (string, Bytes) -> Option<string>)
    requires BuildQuery(path, parse).Success?
    ensures var q := BuildQuery(path, parse).value;
      var got := get(Id(q));
      var r := Handle(path, parse, get, fetch, convert, store);
      && (got.err.Some? ==> r.response.status == StatusInternalServerError && r.calls == [CacheGet(Id(q))])
      && (got.err.None? && !(got.found && got.value.Pic?) ==>
            && (fetch(q.url).FetchFailed? ==> r.response.status == StatusBadGateway)
            && (fetch(q.url).Fetched? && fetch(q.url).status != StatusOK ==>
                  r.response.status == fetch(q.url).status && |r.calls| == 2)
            && (fetch(q.url).Fetched? && fetch(q.url).status == StatusOK &&
                convert(q.width, q.height, fetch(q.url).body).Failure? ==>
                  r.response.status == StatusInternalServerError && |r.calls| == 3)
            && (fetch(q.url).Fetched? && fetch(q.url).status == StatusOK &&
                convert(q.width, q.height, fetch(q.url).body).Success? &&
                store(Id(q), convert(q.width, q.height, fetch(q.url).body).value).Some? ==>
                  r.response.status == StatusInternalServerError && |r.calls| == 4))
  {
  }

  /**
   * The cache only ever receives, under the request's id, the conversion of an
   * origin body that came with status 200, and the store is the last call.
   */
  lemma StoresOnlyConverted(path: string, parse: string -> Option<Url>, get: string -> Lookup, fetch: Url -> Fetched,
    convert: (Int64, Int64, Bytes) -> Result<Bytes, string>, store: (string, Bytes) -> Option<string>,
    i: nat)
    requires var r := Handle(path, parse, get, fetch, convert, store); i < |r.calls| && r.calls[i].CacheSet?
    ensures var r := Handle(path, parse, get, fetch, convert, store);
      && BuildQuery(path, parse).Success?
      && var q := BuildQuery(path, parse).value;
      && i == |r.calls| - 1 == 3
      && r.calls[i].key == Id(q)
      && fetch(q.url).Fetched? && fetch(q.url).status == StatusOK
      && convert(q.width, q.height, fetch(q.url).body) == Success(r.calls[i].pic)
  {
  }
}

/**
 * The previewer's first handler: the same ladder without the cache error and
 * origin status branches, answering 404 to parse and fetch failures, and
 * passing the origin's headers on with the converted picture.
 */
module PreviewerHandlers {
  import opened Wrappers
  import opened GoText
  import opened Query
  import opened Http
  import opened Handlers
  import LinkedList
  import PreviewerQuery

  /** `fromOrigin`'s results in the previewer: an error, or the origin's headers and body. */
  datatype Origin = OriginFailed(err: string) | OriginReply(header: Header, body: Bytes)

  /**
   * `handler`: one request. Requests are parsed with the length check the
   * proxy added (`Query.BuildQuery`); the previewer's own parser is
   * `PreviewerQuery.BuildQueryAsWritten`.
   */
  function Handle(
    path: string,
    parse: string -> Option<Url>,
    get: string -> Cached,
    fetch: Url -> Origin,
    convert: (Int64, Int64, Bytes) -> Result<Bytes, string>): (r: Handled)
    ensures r.calls == [] <==> BuildQuery(path, parse).Failure?
    ensures r.calls != [] ==> r.calls[0] == CacheGet(PreviewerQuery.Id(BuildQuery(path, parse).value)) && |r.calls| <= 4
    ensures r.response.body.Picture? <==> r.response.status == StatusOK
  {
    match BuildQuery(path, parse)
    case Failure(_) => Handled(ErrorReply("Can't parse query", StatusNotFound), [])
    case Success(q) =>
      var key := PreviewerQuery.Id(q);
      match get(key)
      case Pic(pic) => Handled(PictureReply(Merged(map[], map[]), pic), [CacheGet(key)])
      case _ =>
        var asked := [CacheGet(key), Fetch(q.url)];
        match fetch(q.url)
        case OriginFailed(_) => Handled(ErrorReply("Pic not found in origin", StatusNotFound), asked)
        case OriginReply(header, body) =>
          var converting := asked + [Convert(q.width, q.height, body)];
          match convert(q.width, q.height, body)
          case Failure(_) => Handled(ErrorReply("Resizer kirdyk...", StatusInternalServerError), converting)
          case Success(pic) =>
            Handled(PictureReply(Merged(map[], header), pic), converting + [CacheSet(key, pic)])
  }

  /**
   * A picture is served exactly when the cache holds a `[]byte` under the id,
   * with no header added and nothing else asked, or when the origin answered
   * and the conversion succeeded: then the picture is stored under the id and
   * served with every value of every origin header.
   */
  lemma PictureServed(path: string, parse: string -> Option<Url>, get: string -> Cached, fetch: Url -> Origin,
    convert: (Int64, Int64, Bytes) -> Result<Bytes, string>)
    ensures var r := Handle(path, parse, get, fetch, convert);
      r.response.body.Picture? <==>
        && BuildQuery(path, parse).Success?
        && var q := BuildQuery(path, parse).value;
        && var key := PreviewerQuery.Id(q);
        && (if get(key).Pic? then
              r.calls == [CacheGet(key)] && r.response == PictureReply(map[], get(key).pic)
            else
              && fetch(q.url).OriginReply?
              && var body := fetch(q.url).body;
              && convert(q.width, q.height, body).Success?
              && var pic := convert(q.width, q.height, body).value;
              && r.calls == [CacheGet(key), Fetch(q.url), Convert(q.width, q.height, body), CacheSet(key, pic)]
              && r.response == PictureReply(Merged(map[], fetch(q.url).header), pic))
  {
    MergedNothing(map[]);
  }

  /**
   * Parse and fetch failures answer 404 and a conversion failure 500, each
   * after the calls its branch makes; none of them stores anything.
   */
  lemma FailureStatus(path: string, parse: string -> Option<Url>, get: string -> Cached, fetch: Url -> Origin,
    convert: (Int64, Int64, Bytes) -> Result<Bytes, string>)
    ensures var r := Handle(path, parse, get, fetch, convert);
      && (BuildQuery(path, parse).Failure? ==> r.response.status == StatusNotFound && r.calls == [])
      && (BuildQuery(path, parse).Success? ==>
            var q := BuildQuery(path, parse).value;
            !get(PreviewerQuery.Id(q)).Pic? ==>
              && (fetch(q.url).OriginFailed? ==> r.response.status == StatusNotFound && |r.calls| == 2)
              && (fetch(q.url).OriginReply? && convert(q.width, q.height, fetch(q.url).body).Failure? ==>
                    r.response.status == StatusInternalServerError && |r.calls| == 3))
      && (r.response.body.Text? ==> forall i :: 0 <= i < |r.calls| ==> !r.calls[i].CacheSet?)
  {
  }

  /**
   * `writeResponse`: adds every value of every name of `h` to the writer's
   * headers, then writes the body. `names` is the order in which the loop
   * meets the names of `h`, which Go leaves unspecified; the resulting headers
   * are the same for every order.
   */
  method WriteResponse(w: ResponseWriter, h: Header, names: seq<string>, body: Bytes)
    requires LinkedList.Distinct(names)
    requires forall name :: name in h <==> name in names
    modifies w
    ensures w.header == Merged(old(w.header), h)
    ensures w.body == old(w.body) + body
  {
    ghost var start := w.header;
    var i := 0;
    while i < |names|
      invariant 0 <= i <= |names|
      invariant w.header == AddEach(start, h, names[..i])
      invariant w.body == old(w.body)
    {
      AddValues(w, names[i], h[names[i]]);
      assert names[..i + 1][..i] == names[..i];
      i := i + 1;
    }
    assert names[..i] == names;
    AddEachMerged(start, h, names);
    RestrictAll(h, names);
    w.Write(body);
  }

  /** The inner loop of `writeResponse`: every value of one name, in order. */
  method AddValues(w: ResponseWriter, name: string, values: seq<string>)
    modifies w
    ensures w.header == AddAll(old(w.header), name, values)
    ensures w.body == old(w.body)
  {
    var j := 0;
    while j < |values|
      invariant 0 <= j <= |values|
      invariant w.header == AddAll(old(w.header), name, values[..j])
      invariant w.body == old(w.body)
    {
      assert values[..j + 1][..j] == values[..j];
      w.Add(name, values[j]);
      j := j + 1;
    }
    assert values[..j] == values;
  }
}
