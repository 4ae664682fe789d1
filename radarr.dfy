/** The request-building part of the Radarr client: the stored host URL,
    `run_command`, the `get_history` query string, `request_get`'s query
    string, the space escaping of `movie_lookup_by_name` and the body of
    `delete_movie`. */
module RadarrClient {
  import opened Wrappers
  import opened Text
  import opened JsonText
  import opened Clients

  // ---------------------------------------------------------------------------
  // Query strings

  /** `key=value` for every parameter, in order. */
  function Pairs(params: seq<(string, string)>): (r: seq<string>)
    ensures |r| == |params|
  {
    seq(|params|, k requires 0 <= k < |params| => params[k].0 + "=" + params[k].1)
  }

  /** The query string `request_get` appends: none without params, otherwise `?` then `&key=value` per entry. */
  function QueryString(params: Option<seq<(string, string)>>): (r: string)
    ensures params.Some? && |params.value| > 0 ==>
      var last := params.value[|params.value| - 1];
      EndsWith(r, last.0 + "=" + last.1)
  {
    match params
    case None => ""
    case Some(ps) =>
      if |ps| == 0 then "?"
      else
        JoinLast(Pairs(ps), "&");
        EndsWithFront("?&", Join(Pairs(ps), "&"), Pairs(ps)[|ps| - 1]);
        "?&" + Join(Pairs(ps), "&")
  }

  /** Given params always produce a `?`, and a non-empty one is followed at once by a stray `&`. */
  lemma QueryStringShape(params: Option<seq<(string, string)>>)
    ensures QueryString(params) == "" <==> params.None?
    ensures params.Some? ==> QueryString(params)[0] == '?'
    ensures params.Some? && |params.value| > 0 ==> QueryString(params)[..2] == "?&"
  {
  }

  /** `parts` with `key` + the value appended when the value is not None, as each `if … is not None` of `get_history` does. */
  function WithParam(parts: seq<string>, key: string, value: Option<string>): (r: seq<string>)
    ensures |r| == |parts| + (if value.Some? then 1 else 0)
  {
    match value
    case None => parts
    case Some(v) => parts + [key + v]
  }

  function IntParam(i: Option<int>): (r: Option<string>)
    ensures r.Some? <==> i.Some?
  {
    match i
    case None => None
    case Some(n) => Some(IntToString(n))
  }

  /** The parameters `get_history` sends: `page` always, then each optional one that is not None, in a fixed order. */
  function HistoryParams(page: int, pageSize: Option<int>, sortKey: Option<string>, sortDir: Option<string>): seq<string> {
    WithParam(WithParam(WithParam(["page=" + IntToString(page)], "pageSize=", IntParam(pageSize)), "sortKey=", sortKey), "sortDir=", sortDir)
  }

  /** The query string of `get_history`. */
  function HistoryQuery(page: int, pageSize: Option<int>, sortKey: Option<string>, sortDir: Option<string>): (r: string)
    ensures |r| >= 1 && r[0] == '?' && Named(r[1..], "page=" + IntToString(page))
    ensures sortDir.Some? ==> EndsWith(r, "sortDir=" + sortDir.value)
  {
    var ps := HistoryParams(page, pageSize, sortKey, sortDir);
    JoinFirst(ps, "&");
    JoinLast(ps, "&");
    EndsWithFront("?", Join(ps, "&"), ps[|ps| - 1]);
    assert ("?" + Join(ps, "&"))[1..] == Join(ps, "&");
    "?" + Join(ps, "&")
  }

  /** `p` starts with `key`. */
  predicate Named(p: string, key: string) {
    |key| <= |p| && p[..|key|] == key
  }

  /** Some parameter of `ps` starts with `key`. */
  predicate HasParam(ps: seq<string>, key: string) {
    exists i :: 0 <= i < |ps| && Named(ps[i], key)
  }

  /** Appending one optional parameter adds that key and no other. */
  lemma WithParamHas(parts: seq<string>, key: string, value: Option<string>, other: string)
    ensures HasParam(WithParam(parts, key, value), other) <==> HasParam(parts, other) || (value.Some? && Named(key + value.value, other))
  {
    var ps := WithParam(parts, key, value);
    if value.Some? {
      assert ps[|parts|] == key + value.value;
      assert forall i :: 0 <= i < |parts| ==> ps[i] == parts[i];
    }
  }

  /** Two keys that differ at some position name different parameters. */
  lemma NamedDiffers(key: string, v: string, other: string, k: nat)
    requires k < |key| && k < |other| && key[k] != other[k]
    ensures !Named(key + v, other)
  {
    if |other| <= |key + v| {
      assert (key + v)[..|other|][k] == key[k];
    }
  }

  lemma NamedKey(key: string, v: string)
    ensures Named(key + v, key)
  {
    assert (key + v)[..|key|] == key;
  }

  /** `page` is always sent, and each optional parameter is sent exactly when it is not None. */
  lemma HistoryParamsNamed(page: int, pageSize: Option<int>, sortKey: Option<string>, sortDir: Option<string>)
    ensures var ps := HistoryParams(page, pageSize, sortKey, sortDir);
      && ps[0] == "page=" + IntToString(page)
      && (HasParam(ps, "pageSize=") <==> pageSize.Some?)
      && (HasParam(ps, "sortKey=") <==> sortKey.Some?)
      && (HasParam(ps, "sortDir=") <==> sortDir.Some?)
  {
    var p0 := "page=" + IntToString(page);
    var ps0 := [p0];
    var ps1 := WithParam(ps0, "pageSize=", IntParam(pageSize));
    var ps2 := WithParam(ps1, "sortKey=", sortKey);
    var ps3 := WithParam(ps2, "sortDir=", sortDir);
    assert ps1[0] == p0 && ps2[0] == p0 && ps3[0] == p0;
    // the page parameter carries none of the optional keys
    NamedDiffers("page=", IntToString(page), "pageSize=", 4);
    NamedDiffers("page=", IntToString(page), "sortKey=", 0);
    NamedDiffers("page=", IntToString(page), "sortDir=", 0);
    assert !HasParam(ps0, "pageSize=") && !HasParam(ps0, "sortKey=") && !HasParam(ps0, "sortDir=");
    // pageSize
    WithParamHas(ps0, "pageSize=", IntParam(pageSize), "pageSize=");
    WithParamHas(ps1, "sortKey=", sortKey, "pageSize=");
    WithParamHas(ps2, "sortDir=", sortDir, "pageSize=");
    if pageSize.Some? { NamedKey("pageSize=", IntParam(pageSize).value); }
    if sortKey.Some? { NamedDiffers("sortKey=", sortKey.value, "pageSize=", 0); }
    if sortDir.Some? { NamedDiffers("sortDir=", sortDir.value, "pageSize=", 0); }
    // sortKey
    WithParamHas(ps0, "pageSize=", IntParam(pageSize), "sortKey=");
    WithParamHas(ps1, "sortKey=", sortKey, "sortKey=");
    WithParamHas(ps2, "sortDir=", sortDir, "sortKey=");
    if pageSize.Some? { NamedDiffers("pageSize=", IntParam(pageSize).value, "sortKey=", 0); }
    if sortKey.Some? { NamedKey("sortKey=", sortKey.value); }
    if sortDir.Some? { NamedDiffers("sortDir=", sortDir.value, "sortKey=", 4); }
    // sortDir
    WithParamHas(ps0, "pageSize=", IntParam(pageSize), "sortDir=");
    WithParamHas(ps1, "sortKey=", sortKey, "sortDir=");
    WithParamHas(ps2, "sortDir=", sortDir, "sortDir=");
    if pageSize.Some? { NamedDiffers("pageSize=", IntParam(pageSize).value, "sortDir=", 0); }
    if sortKey.Some? { NamedDiffers("sortKey=", sortKey.value, "sortDir=", 4); }
    if sortDir.Some? { NamedKey("sortDir=", sortDir.value); }
  }

  /** With the defaults (page 0, page size 10) the history query is `?page=0&pageSize=10`. */
  lemma HistoryDefaults()
    ensures HistoryQuery(0, Some(10), None, None) == "?" + "page=0" + "&" + "pageSize=10"
  {
    assert IntToString(0) == "0";
    assert IntToString(10) == "10" by {
      assert NatToString(10) == NatToString(1) + [DigitChar(0)];
    }
    assert "page=" + IntToString(0) == "page=0";
    assert "pageSize=" + IntToString(10) == "pageSize=10";
    var ps := HistoryParams(0, Some(10), None, None);
    assert ps == ["page=0"] + ["pageSize=10"];
    JoinSnoc(["page=0"], "pageSize=10", "&");
  }

  /** One `if value is not None: query_string += f'&key={value}'` of `get_history`: the query string stays
      the joined parameters. */
  method AppendParam(query: string, ghost parts: seq<string>, key: string, value: Option<string>) returns (q: string)
    requires |parts| > 0 && query == "?" + Join(parts, "&")
    ensures q == "?" + Join(WithParam(parts, key, value), "&")
  {
    q := query;
    if value.Some? {
      JoinSnoc(parts, key + value.value, "&");
      q := q + "&" + (key + value.value);
    }
  }

  // ---------------------------------------------------------------------------
  // Space escaping

  /** `term.replace(' ', '%20')`. */
  function EscapeSpaces(term: string): (r: string)
    ensures ' ' !in r
    ensures forall k :: 0 <= k < |r| && r[k] != '%' && r[k] != '2' && r[k] != '0' ==> r[k] in term
  {
    if |term| == 0 then ""
    else (if term[0] == ' ' then "%20" else [term[0]]) + EscapeSpaces(term[1..])
  }

  /** The inverse: every `%20` read back as a space. */
  function UnescapeSpaces(r: string): string {
    if |r| == 0 then ""
    else if |r| >= 3 && r[..3] == "%20" then " " + UnescapeSpaces(r[3..])
    else [r[0]] + UnescapeSpaces(r[1..])
  }

  /** Escaping loses nothing when the term holds no `%` of its own. */
  lemma {:induction false} EscapeSpacesRoundTrip(term: string)
    requires '%' !in term
    ensures UnescapeSpaces(EscapeSpaces(term)) == term
  {
    if |term| > 0 {
      var rest := EscapeSpaces(term[1..]);
      assert '%' !in term[1..];
      EscapeSpacesRoundTrip(term[1..]);
      if term[0] == ' ' {
        var r := "%20" + rest;
        assert r[..3] == "%20" && r[3..] == rest;
      } else {
        var r := [term[0]] + rest;
        assert r[0] == term[0] && r[1..] == rest;
        assert |r| >= 3 ==> r[..3][0] != '%';
      }
      assert term == [term[0]] + term[1..];
    }
  }

  /** A term with no space is sent unchanged. */
  lemma {:induction false} EscapeSpacesIdentity(term: string)
    requires ' ' !in term
    ensures EscapeSpaces(term) == term
  {
    if |term| > 0 {
      assert ' ' !in term[1..];
      EscapeSpacesIdentity(term[1..]);
      assert term == [term[0]] + term[1..];
    }
  }

  /** Escaping works character by character, so it distributes over concatenation. */
  lemma {:induction false} EscapeSpacesAppend(a: string, b: string)
    ensures EscapeSpaces(a + b) == EscapeSpaces(a) + EscapeSpaces(b)
  {
    if |a| == 0 {
      assert a + b == b;
    } else {
      assert (a + b)[0] == a[0] && (a + b)[1..] == a[1..] + b;
      EscapeSpacesAppend(a[1..], b);
    }
  }

  // ---------------------------------------------------------------------------
  // delete_movie

  /** A flag as a keyword value: None stays None. */
  function FlagArg(flag: Option<bool>): Option<Field> {
    match flag
    case None => None
    case Some(b) => Some(One(Bool(b)))
  }

  /** The body `delete_movie` is meant to send: nothing when neither flag is given, otherwise the given flags. */
  function DeleteBody(deleteFiles: Option<bool>, addExclusion: Option<bool>): (r: Option<Args>)
    ensures r.Some? ==> |r.value| == (if deleteFiles.Some? then 1 else 0) + (if addExclusion.Some? then 1 else 0)
  {
    if deleteFiles.None? && addExclusion.None? then None
    else
      var a, b := Kwarg("deleteFiles", FlagArg(deleteFiles)), Kwarg("addExclusion", FlagArg(addExclusion));
      PresentTwo(a, b);
      Some(Present([a, b]))
  }

  /** The body is absent exactly when both flags are None; otherwise it holds exactly the given flags, `deleteFiles` first. */
  lemma DeleteBodyFlags(deleteFiles: Option<bool>, addExclusion: Option<bool>)
    ensures DeleteBody(deleteFiles, addExclusion).None? <==> deleteFiles.None? && addExclusion.None?
    ensures DeleteBody(deleteFiles, addExclusion).Some? ==>
      var body := DeleteBody(deleteFiles, addExclusion).value;
      && Lookup(body, "deleteFiles") == FlagArg(deleteFiles)
      && Lookup(body, "addExclusion") == FlagArg(addExclusion)
      && DistinctKeys(body)
      && (deleteFiles.Some? ==> body[0].0 == "deleteFiles")
  {
    var kw := [Kwarg("deleteFiles", FlagArg(deleteFiles)), Kwarg("addExclusion", FlagArg(addExclusion))];
    PresentTwo(kw[0], kw[1]);
    assert [kw[0], kw[1]] == kw;
    PresentKeysDistinct(kw);
  }

  /** `delete_movie` as written: with neither flag, `data` is never assigned and the call raises. */
  function DeleteMovieAsWritten(hostUrl: string, movieId: int, deleteFiles: Option<bool>, addExclusion: Option<bool>): (r: Result<Request, Raised>)
    ensures r.Success? ==> r.value.Delete? && r.value.data.Some?
  {
    if deleteFiles.None? && addExclusion.None? then Failure(UnboundLocalError)
    else Success(Delete(hostUrl + "/movie/" + IntToString(movieId),
                        Some(Present([Kwarg("deleteFiles", FlagArg(deleteFiles)), Kwarg("addExclusion", FlagArg(addExclusion))]))))
  }

  /** As written, the call without flags raises; with a flag it sends what the corrected body says. */
  lemma DeleteMovieUnbound(hostUrl: string, movieId: int, deleteFiles: Option<bool>, addExclusion: Option<bool>)
    ensures DeleteMovieAsWritten(hostUrl, movieId, None, None) == Failure(UnboundLocalError)
    ensures deleteFiles.Some? || addExclusion.Some? ==>
      DeleteMovieAsWritten(hostUrl, movieId, deleteFiles, addExclusion)
        == Success(Delete(hostUrl + "/movie/" + IntToString(movieId), DeleteBody(deleteFiles, addExclusion)))
  {
  }

  // ---------------------------------------------------------------------------
  // The client

  class Radarr {
    var hostUrl: string
    var apiKey: string

    /** The stored URL is the normalised host, which never ends in `/` and always ends in `api`. */
    constructor(host: string, key: string)
      ensures hostUrl == NormaliseHostUrl(host) && apiKey == key
    {
      var stripped := RStrip(host, {'/'});
      if EndsWith(stripped, "api") {
        hostUrl := stripped;
      } else {
        hostUrl := stripped + "/api";
      }
      apiKey := key;
    }

    /** `request_get`: the URL with the query string built from `params` (the key goes in a header, not modelled). */
    method RequestGet(url: string, params: Option<seq<(string, string)>>) returns (r: Request)
      ensures r == Get(url + QueryString(params))
    {
      var query := "";
      if params.Some? {
        var ps := params.value;
        query := query + "?";
        var k := 0;
        while k < |ps|
          invariant 0 <= k <= |ps|
          invariant k == 0 ==> query == "?"
          invariant k > 0 ==> query == "?&" + Join(Pairs(ps[..k]), "&")
        {
          var piece := ps[k].0 + "=" + ps[k].1;
          assert Pairs(ps[..k + 1]) == Pairs(ps[..k]) + [piece];
          if k > 0 {
            JoinSnoc(Pairs(ps[..k]), piece, "&");
          } else {
            assert Pairs(ps[..1]) == [piece];
          }
          query := query + "&" + piece;
          k := k + 1;
        }
        assert ps[..k] == ps;
      }
      r := Get(url + query);
    }

    /** `run_command`: the present arguments are posted to `command?name=…`; KeyError without a `name`. */
    method RunCommand(kwargs: seq<Kwarg>) returns (r: Result<Request, Raised>)
      ensures Lookup(Present(kwargs), "name").None? <==> r == Failure(KeyError)
      ensures r.Success? ==>
        r.value == Post(hostUrl + "/command?name=" + FieldStr(Lookup(Present(kwargs), "name").value), Some(Present(kwargs)))
    {
      var ags := FilterArgs(kwargs);
      var data: Option<Args> := None;
      if |ags| > 0 {
        data := Some(ags);
      }
      match Lookup(ags, "name")
      case None =>
        r := Failure(KeyError);
      case Some(name) =>
        r := Success(Post(hostUrl + "/command?name=" + FieldStr(name), data));
    }

    /** `get_history`: the history URL with `page` and the optional parameters as a query string. */
    method GetHistory(page: int, pageSize: Option<int>, sortKey: Option<string>, sortDir: Option<string>) returns (r: Request)
      ensures r == Get(hostUrl + "/history" + HistoryQuery(page, pageSize, sortKey, sortDir))
    {
      var query := "?";
      query := query + ("page=" + IntToString(page));
      ghost var parts := ["page=" + IntToString(page)];
      query := AppendParam(query, parts, "pageSize=", IntParam(pageSize));
      parts := WithParam(parts, "pageSize=", IntParam(pageSize));
      query := AppendParam(query, parts, "sortKey=", sortKey);
      parts := WithParam(parts, "sortKey=", sortKey);
      query := AppendParam(query, parts, "sortDir=", sortDir);
      parts := WithParam(parts, "sortDir=", sortDir);
      r := RequestGet(hostUrl + "/history" + query, None);
    }

    /** `movie_lookup_by_name`: the lookup URL with the term, its spaces escaped. */
    method MovieLookupByName(term: string) returns (r: Request)
      ensures r == Get(hostUrl + "/movie/lookup" + "?term=" + EscapeSpaces(term))
    {
      var query := "?term=" + EscapeSpaces(term);
      r := RequestGet(hostUrl + "/movie/lookup" + query, None);
      ConcatAssoc(hostUrl + "/movie/lookup", "?term=", EscapeSpaces(term));
    }

    /** `delete_movie` with the unbound `data` corrected: no body when neither flag is given. */
    method DeleteMovie(movieId: int, deleteFiles: Option<bool>, addExclusion: Option<bool>) returns (r: Request)
      ensures r == Delete(hostUrl + "/movie/" + IntToString(movieId), DeleteBody(deleteFiles, addExclusion))
    {
      var data: Option<Args>;
      if deleteFiles.None? && addExclusion.None? {
        data := None;
      } else {
        var body: Args := [];
        if deleteFiles.Some? {
          body := body + [("deleteFiles", One(Bool(deleteFiles.value)))];
        }
        if addExclusion.Some? {
          body := body + [("addExclusion", One(Bool(addExclusion.value)))];
        }
        PresentTwo(Kwarg("deleteFiles", FlagArg(deleteFiles)), Kwarg("addExclusion", FlagArg(addExclusion)));
        assert body == (if deleteFiles.Some? then [("deleteFiles", One(Bool(deleteFiles.value)))] else [])
                     + (if addExclusion.Some? then [("addExclusion", One(Bool(addExclusion.value)))] else []);
        data := Some(body);
      }
      r := Delete(hostUrl + "/movie/" + IntToString(movieId), data);
    }
  }
}
