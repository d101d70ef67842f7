/**
 * The pieces of Go's `net/http` that the request handlers use: a header map
 * whose names keep their values in the order they were added, a response
 * writer that collects headers and body bytes, and `http.Error`.
 */
module Http {
  import opened Wrappers

  /** `http.Header`: the values of each name, in the order they were added. */
  type Header = map<string, seq<string>>

  /** `h.Values(name)`: none for a name that is not there. */
  function Values(h: Header, name: string): seq<string> {
    if name in h then h[name] else []
  }

  /** The names of `h` that have at least one value. */
  function NonEmpty(h: Header): set<string> {
    set name | name in h && h[name] != []
  }

  /** `h` after every value of every name of `extra` has been added to it. */
  function Merged(h: Header, extra: Header): Header {
    map name | name in h.Keys + NonEmpty(extra) :: Values(h, name) + Values(extra, name)
  }

  /** The entries of `h` whose names occur in `names`. */
  function Restrict(h: Header, names: seq<string>): Header {
    map name | name in h && name in names :: h[name]
  }

  datatype Body = Text(text: string) | Picture(pic: Bytes)

  /** What a handler sends back: the status, the headers and the body. */
  datatype Response = Response(status: int, header: Header, body: Body)

  const StatusOK: int := 200
  const StatusBadRequest: int := 400
  const StatusNotFound: int := 404
  const StatusInternalServerError: int := 500
  const StatusBadGateway: int := 502

  /** `http.Error(w, msg, code)`: a plain-text reply of the message and a line break. */
  function ErrorReply(msg: string, code: int): Response {
    Response(code,
      map["Content-Type" := ["text/plain; charset=utf-8"], "X-Content-Type-Options" := ["nosniff"]],
      Text(msg + "\n"))
  }

  /** A reply of `body` with the status `Write` implies. */
  function PictureReply(header: Header, body: Bytes): Response {
    Response(StatusOK, header, Picture(body))
  }

  // ---------------------------------------------------------------------------
  // Adding headers one value at a time
  // ---------------------------------------------------------------------------

  /** Merging nothing changes nothing. */
  lemma MergedNothing(h: Header)
    ensures Merged(h, map[]) == h
  {
    var m := Merged(h, map[]);
    assert NonEmpty(map[]) == {};
    forall name | name in h
      ensures m[name] == h[name]
    {
      assert h[name] + [] == h[name];
    }
  }

  /** A name with no values adds nothing. */
  lemma MergedNoValues(h: Header, extra: Header, name: string)
    requires name !in extra
    ensures Merged(h, extra[name := []]) == Merged(h, extra)
  {
    assert NonEmpty(extra[name := []]) == NonEmpty(extra);
  }

  /** One more value of a name that `extra` does not otherwise hold is one `Add`. */
  lemma MergedAdd(h: Header, extra: Header, name: string, vs: seq<string>, v: string)
    requires name !in extra
    ensures var m := Merged(h, extra[name := vs]);
      Merged(h, extra[name := vs + [v]]) == m[name := Values(m, name) + [v]]
  {
    var m := Merged(h, extra[name := vs]);
    var m' := Merged(h, extra[name := vs + [v]]);
    MergedAddKeys(h, extra, name, vs, v);
    MergedAddValue(h, extra, name, vs, v);
    forall other | other in m && other != name
      ensures m'[other] == m[other]
    {
    }
  }

  lemma MergedAddKeys(h: Header, extra: Header, name: string, vs: seq<string>, v: string)
    requires name !in extra
    ensures Merged(h, extra[name := vs + [v]]).Keys == Merged(h, extra[name := vs]).Keys + {name}
  {
    assert NonEmpty(extra[name := vs + [v]]) == NonEmpty(extra[name := vs]) + {name};
  }

  lemma MergedAddValue(h: Header, extra: Header, name: string, vs: seq<string>, v: string)
    requires name !in extra
    ensures Merged(h, extra[name := vs + [v]])[name] == Values(Merged(h, extra[name := vs]), name) + [v]
  {
    MergedAddKeys(h, extra, name, vs, v);
    var m := Merged(h, extra[name := vs]);
    assert Values(m, name) == Values(h, name) + vs;
  }

  /** Taking the names one position further takes one more entry. */
  lemma RestrictStep(h: Header, names: seq<string>, i: nat)
    requires i < |names| && names[i] in h
    ensures Restrict(h, names[..i + 1]) == Restrict(h, names[..i])[names[i] := h[names[i]]]
  {
    assert names[..i + 1] == names[..i] + [names[i]];
  }

  /** Every name of `h` taken: all of `h`. */
  lemma RestrictAll(h: Header, names: seq<string>)
    requires forall name :: name in h <==> name in names
    ensures Restrict(h, names) == h
  {
  }

  /** With no name repeated, the name at position `i` is not among those before it. */
  lemma RestrictMisses(h: Header, names: seq<string>, i: nat)
    requires i < |names|
    requires forall a, b :: 0 <= a < b < |names| ==> names[a] != names[b]
    ensures names[i] !in Restrict(h, names[..i])
  {
  }

  /** `h` after `Add(name, v)` for each `v` of `vs`, in order. */
  function AddAll(h: Header, name: string, vs: seq<string>): Header
    decreases |vs|
  {
    if vs == [] then h
    else
      var before := AddAll(h, name, vs[..|vs| - 1]);
      before[name := Values(before, name) + [vs[|vs| - 1]]]
  }

  /** `h` after `AddAll` of every name of `names`, in order, with its values in `extra`. */
  function AddEach(h: Header, extra: Header, names: seq<string>): Header
    decreases |names|
  {
    if names == [] then h
    else
      var last := names[|names| - 1];
      AddAll(AddEach(h, extra, names[..|names| - 1]), last, Values(extra, last))
  }

  /** Adding the values of a name not yet merged merges that name too. */
  lemma {:induction false} AddAllMerged(h: Header, done: Header, name: string, vs: seq<string>)
    requires name !in done
    ensures AddAll(Merged(h, done), name, vs) == Merged(h, done[name := vs])
    decreases |vs|
  {
    if vs == [] {
      MergedNoValues(h, done, name);
    } else {
      var init, last := vs[..|vs| - 1], vs[|vs| - 1];
      assert init + [last] == vs;
      AddAllMerged(h, done, name, init);
      var m := Merged(h, done[name := init]);
      assert AddAll(Merged(h, done), name, vs) == m[name := Values(m, name) + [last]];
      MergedAdd(h, done, name, init, last);
    }
  }

  /**
   * Adding the names one after another, none of them twice, merges every
   * entry of `extra` that they name, whatever their order.
   */
  lemma {:induction false} AddEachMerged(h: Header, extra: Header, names: seq<string>)
    requires forall k :: 0 <= k < |names| ==> names[k] in extra
    requires forall a, b :: 0 <= a < b < |names| ==> names[a] != names[b]
    ensures AddEach(h, extra, names) == Merged(h, Restrict(extra, names))
    decreases |names|
  {
    if names == [] {
      assert Restrict(extra, names) == map[];
      MergedNothing(h);
    } else {
      var i := |names| - 1;
      var init, last := names[..i], names[i];
      assert names[..i + 1] == names;
      assert AddEach(h, extra, names) == AddAll(AddEach(h, extra, init), last, extra[last]);
      AddEachMerged(h, extra, init);
      var done := Restrict(extra, init);
      RestrictMisses(extra, names, i);
      AddAllMerged(h, done, last, extra[last]);
      RestrictStep(extra, names, i);
    }
  }

  // ---------------------------------------------------------------------------
  // The response writer
  // ---------------------------------------------------------------------------

  /** `http.ResponseWriter`: the headers set so far and the body written so far. */
  class ResponseWriter {
    var header: Header
    var body: Bytes

    constructor ()
      ensures header == map[] && body == []
    {
      header := map[];
      body := [];
    }

    /** `w.Header().Add(name, value)`. */
    method Add(name: string, value: string)
      modifies this`header
      ensures header == old(header)[name := Values(old(header), name) + [value]]
    {
      header := header[name := Values(header, name) + [value]];
    }

    /** `w.Write(b)`. */
    method Write(b: Bytes)
      modifies this`body
      ensures body == old(body) + b
    {
      body := body + b;
    }
  }
}
