/**
 * Request parsing of the proxy: `buildQuery` reads the thumbnail size and the
 * origin address from a request path of the form
 * `/<verb>/<width>/<height>/<origin host and path>`, and `Query.id` derives the
 * cache key of a request.
 *
 * `url.Parse` is a parameter: a partial function from the rebuilt origin
 * string to the parsed URL, of which the host and the path are kept.
 */
module Query {
  import opened Wrappers
  import opened GoText

  /** The parts of a parsed `*url.URL` that the proxy reads. */
  datatype Url = Url(host: string, path: string)

  /** `Query`: the requested thumbnail size and the origin address. */
  datatype Query = Query(width: Int64, height: Int64, url: Url)

  const NeedMoreParams: string := "need more params"
  const WidthError: string := "width must be an integer"
  const HeightError: string := "height must be an integer"
  const UrlError: string := "not valid url"

  /** The origin address rebuilt from the path segments after the height. */
  function Origin(t: seq<string>): string
    requires |t| >= 4
  {
    "http://" + Join(t[4..], '/')
  }

  /**
   * `buildQuery`: at least five segments, a decimal width in segment 2 and a
   * decimal height in segment 3; segment 1 (the verb) is never read, and the
   * size may be zero or negative here.
   */
  function BuildQuery(path: string, parse: string -> Option<Url>): (r: Result<Query, string>)
    ensures r.Failure? ==> r.error in {NeedMoreParams, WidthError, HeightError, UrlError}
    ensures r.Success? ==>
      var t := Split(path, '/');
      && |t| >= 5
      && Atoi(t[2]) == Some(r.value.width) && Atoi(t[3]) == Some(r.value.height)
      && parse(Origin(t)) == Some(r.value.url)
  {
    var t := Split(path, '/');
    if |t| < 5 then Failure(NeedMoreParams)
    else match Atoi(t[2])
      case None => Failure(WidthError)
      case Some(width) =>
        match Atoi(t[3])
        case None => Failure(HeightError)
        case Some(height) =>
          match parse(Origin(t))
          case None => Failure(UrlError)
          case Some(u) => Success(Query(width, height, u))
  }

  /**
   * `Query.id`: width, height and origin path with every `/` turned into `_`.
   * It holds no `/`, so it is a plain file name in the cache directory.
   */
  function Id(q: Query): (id: string)
    ensures '/' !in id
  {
    var s := Itoa(q.width) + "/" + Itoa(q.height) + q.url.path;
    ReplaceAllAt(s, '/', '_');
    var r := ReplaceAll(s, '/', '_');
    assert forall i :: 0 <= i < |r| ==> r[i] != '/';
    r
  }

  /** The request path that asks for `width × height` of the origin segments `origin`. */
  function RequestPath(verb: string, width: Int64, height: Int64, origin: seq<string>): string {
    Join(["", verb, Itoa(width), Itoa(height)] + origin, '/')
  }

  /** `Itoa` never writes a separator. */
  lemma ItoaNoSlash(n: Int64)
    ensures '/' !in Itoa(n)
  {
    var s := Itoa(n);
    assert forall i :: 0 <= i < |s| ==> s[i] != '/';
  }

  /**
   * `buildQuery` reads back every well-formed request path: any verb, the
   * size as written and the origin segments joined after `http://`.
   */
  lemma ParseRequestPath(verb: string, width: Int64, height: Int64, origin: seq<string>, parse: string -> Option<Url>)
    requires '/' !in verb && |origin| >= 1
    requires forall i :: 0 <= i < |origin| ==> '/' !in origin[i]
    ensures BuildQuery(RequestPath(verb, width, height, origin), parse) ==
      match parse("http://" + Join(origin, '/'))
      case None => Failure(UrlError)
      case Some(u) => Success(Query(width, height, u))
  {
    var parts := ["", verb, Itoa(width), Itoa(height)] + origin;
    PartsNoSlash(verb, width, height, origin);
    SplitJoin(parts, '/');
    var t := Split(RequestPath(verb, width, height, origin), '/');
    assert t == parts;
    assert t[2] == Itoa(width) && t[3] == Itoa(height) && t[4..] == origin;
    AtoiItoa(width);
    AtoiItoa(height);
  }

  lemma PartsNoSlash(verb: string, width: Int64, height: Int64, origin: seq<string>)
    requires '/' !in verb
    requires forall i :: 0 <= i < |origin| ==> '/' !in origin[i]
    ensures var parts := ["", verb, Itoa(width), Itoa(height)] + origin;
      forall i :: 0 <= i < |parts| ==> '/' !in parts[i]
  {
    var parts := ["", verb, Itoa(width), Itoa(height)] + origin;
    ItoaNoSlash(width);
    ItoaNoSlash(height);
    forall i | 0 <= i < |parts|
      ensures '/' !in parts[i]
    {
      if i >= 4 {
        assert parts[i] == origin[i - 4];
      }
    }
  }

  /** A path of fewer than five segments is refused, whatever else it holds. */
  lemma ShortPathRefused(path: string, parse: string -> Option<Url>)
    requires |Split(path, '/')| < 5
    ensures BuildQuery(path, parse) == Failure(NeedMoreParams)
  {
  }

  /** A width or a height that is not a decimal integer is refused, width first. */
  lemma BadSizeRefused(path: string, parse: string -> Option<Url>)
    requires |Split(path, '/')| >= 5
    ensures var t := Split(path, '/');
      && (Atoi(t[2]).None? ==> BuildQuery(path, parse) == Failure(WidthError))
      && (Atoi(t[2]).Some? && Atoi(t[3]).None? ==> BuildQuery(path, parse) == Failure(HeightError))
  {
  }

  /** `strings.Replace` of one character distributes over concatenation. */
  lemma {:induction false} ReplaceAllAppend(a: string, b: string, from: char, to: char)
    ensures ReplaceAll(a + b, from, to) == ReplaceAll(a, from, to) + ReplaceAll(b, from, to)
    decreases |a|
  {
    if |a| > 0 {
      ReplaceAllAppend(a[1..], b, from, to);
      assert (a + b)[1..] == a[1..] + b;
      var c := if a[0] == from then to else a[0];
      assert ReplaceAll(a + b, from, to) == [c] + ReplaceAll(a[1..] + b, from, to);
      assert ReplaceAll(a, from, to) == [c] + ReplaceAll(a[1..], from, to);
    } else {
      assert a + b == b;
    }
  }

  /**
   * The id reads only the size and the path: two requests for the same size
   * share an id exactly when their paths agree once every `/` is read as `_`,
   * whatever their hosts.
   */
  lemma IdSharedBy(q: Query, r: Query)
    requires q.width == r.width && q.height == r.height
    ensures Id(q) == Id(r) <==> ReplaceAll(q.url.path, '/', '_') == ReplaceAll(r.url.path, '/', '_')
  {
    var prefix := Itoa(q.width) + "/" + Itoa(q.height);
    ReplaceAllAppend(prefix, q.url.path, '/', '_');
    ReplaceAllAppend(prefix, r.url.path, '/', '_');
    var p := ReplaceAll(prefix, '/', '_');
    var a, b := ReplaceAll(q.url.path, '/', '_'), ReplaceAll(r.url.path, '/', '_');
    if p + a == p + b {
      assert a == (p + a)[|p|..] && b == (p + b)[|p|..];
    }
  }

  /** So `/a/b.jpg` and `/a_b.jpg` on any two hosts share the cache entry of a size. */
  lemma IdCollision(w: Int64, h: Int64, host1: string, host2: string)
    ensures Id(Query(w, h, Url(host1, "/a/b.jpg"))) == Id(Query(w, h, Url(host2, "/a_b.jpg")))
  {
    var a, b := ReplaceAll("/a/b.jpg", '/', '_'), ReplaceAll("/a_b.jpg", '/', '_');
    assert a == b by {
      ReplaceAllAt("/a/b.jpg", '/', '_');
      ReplaceAllAt("/a_b.jpg", '/', '_');
      assert |a| == |b|;
      forall i | 0 <= i < |a|
        ensures a[i] == b[i]
      {
      }
    }
    IdSharedBy(Query(w, h, Url(host1, "/a/b.jpg")), Query(w, h, Url(host2, "/a_b.jpg")));
  }
}

/**
 * The first version of request parsing, in the previewer: the same segments,
 * no check of their number, and a cache key that keeps the separators.
 */
module PreviewerQuery {
  import opened Wrappers
  import opened GoText
  import opened Query

  /** A call that may stop the program with a run-time panic. */
  datatype Parsed = Parsed(q: Result<Query, string>) | Panicked

  /**
   * `buildQuery` as the previewer has it: segment 2 is read before anything
   * checks that it exists, and segment 3 after the width parsed, so a path of
   * fewer than three segments panics, one of three segments panics once its
   * width parses, and one of four is accepted with an empty origin.
   */
  function BuildQueryAsWritten(path: string, parse: string -> Option<Url>): (r: Parsed)
    ensures var t := Split(path, '/');
      r.Panicked? <==> |t| < 3 || (|t| == 3 && Atoi(t[2]).Some?)
    ensures r.Parsed? && r.q.Success? ==> |Split(path, '/')| >= 4
  {
    var t := Split(path, '/');
    if |t| < 3 then Panicked
    else match Atoi(t[2])
      case None => Parsed(Failure(WidthError))
      case Some(width) =>
        if |t| < 4 then Panicked
        else match Atoi(t[3])
          case None => Parsed(Failure(HeightError))
          case Some(height) =>
            match parse(Origin(t))
            case None => Parsed(Failure(UrlError))
            case Some(u) => Parsed(Success(Query(width, height, u)))
  }

  /** From five segments on, the previewer and the proxy parse alike. */
  lemma AgreesFromFiveSegments(path: string, parse: string -> Option<Url>)
    requires |Split(path, '/')| >= 5
    ensures BuildQueryAsWritten(path, parse) == Parsed(BuildQuery(path, parse))
  {
  }

  /** `/fill/10`, a width only, panics instead of being refused. */
  lemma OnlyWidthPanics(parse: string -> Option<Url>)
    ensures BuildQueryAsWritten("/fill/10", parse) == Panicked
    ensures BuildQuery("/fill/10", parse) == Failure(NeedMoreParams)
  {
    assert Join(["", "fill", "10"], '/') == "/fill/10";
    SplitJoin(["", "fill", "10"], '/');
    assert Atoi("10") == Some(10) by {
      assert Itoa(10) == "10";
      AtoiItoa(10);
    }
  }

  /** `/fill/10/10`, dimensions only, is accepted with the origin `http://` when that parses. */
  lemma OnlyDimensionsAccepted(parse: string -> Option<Url>)
    requires parse("http://").Some?
    ensures BuildQueryAsWritten("/fill/10/10", parse) == Parsed(Success(Query(10, 10, parse("http://").value)))
    ensures BuildQuery("/fill/10/10", parse) == Failure(NeedMoreParams)
  {
    var t := ["", "fill", "10", "10"];
    assert Join(t, '/') == "/fill/10/10";
    SplitJoin(t, '/');
    assert Itoa(10) == "10";
    AtoiItoa(10);
    assert Origin(t) == "http://";
  }

  /**
   * `Query.id` as the previewer has it: the size and the origin path,
   * separators kept, so the key is a path whose first piece is the width.
   */
  function Id(q: Query): (id: string)
    ensures Split(id, '/')[0] == Itoa(q.width)
  {
    ItoaNoSlash(q.width);
    SlashFirst(Itoa(q.width), Itoa(q.height) + "/" + q.url.path);
    assert Itoa(q.width) + "/" + (Itoa(q.height) + "/" + q.url.path)
        == Itoa(q.width) + "/" + Itoa(q.height) + "/" + q.url.path;
    Itoa(q.width) + "/" + Itoa(q.height) + "/" + q.url.path
  }

  /** The previewer's id tells every size and path apart; only the host is dropped. */
  lemma IdInjective(q: Query, r: Query)
    requires Id(q) == Id(r)
    ensures q.width == r.width && q.height == r.height && q.url.path == r.url.path
  {
    ItoaNoSlash(q.width);
    ItoaNoSlash(r.width);
    ItoaNoSlash(q.height);
    ItoaNoSlash(r.height);
    var a := Itoa(q.width) + "/" + (Itoa(q.height) + "/" + q.url.path);
    var b := Itoa(r.width) + "/" + (Itoa(r.height) + "/" + r.url.path);
    assert a == Id(q) && b == Id(r);
    SlashSplit(Itoa(q.width), Itoa(q.height) + "/" + q.url.path, Itoa(r.width), Itoa(r.height) + "/" + r.url.path);
    SlashSplit(Itoa(q.height), q.url.path, Itoa(r.height), r.url.path);
    ItoaInjective(q.width, r.width);
    ItoaInjective(q.height, r.height);
  }

  /** Text before the first separator, and what follows it, are determined. */
  lemma SlashSplit(a: string, x: string, b: string, y: string)
    requires '/' !in a && '/' !in b
    requires a + "/" + x == b + "/" + y
    ensures a == b && x == y
  {
    SlashFirst(a, x);
    SlashFirst(b, y);
    var s := a + "/" + x;
    assert x == s[|a| + 1..] == y;
  }

  /** The first piece of `a + "/" + x` is `a`, when `a` holds no separator. */
  lemma SlashFirst(a: string, x: string)
    requires '/' !in a
    ensures Split(a + "/" + x, '/')[0] == a
  {
    var rest := "/" + x;
    SplitPrefix(a, rest, '/');
    assert a + "/" + x == a + rest;
    assert rest[1..] == x;
    assert Split(rest, '/') == [""] + Split(x, '/');
    assert a + "" == a;
  }
}
