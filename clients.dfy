/** What the Radarr and Sonarr clients share: the host-URL rule of both
    constructors, the `None`-filtering of keyword arguments in both
    `run_command` methods, and the requests both hand to the HTTP layer
    (the `requests` calls themselves are not part of this model). */
module Clients {
  import opened Wrappers
  import opened Text
  import opened JsonText

  // ---------------------------------------------------------------------------
  // Host URL

  /** The constructors' rule: `host_url.rstrip('/')`, with `/api` appended unless that already ends in `api`. */
  function NormaliseHostUrl(url: string): (r: string)
    ensures EndsWith(r, "api") && r[|r| - 1] != '/'
    ensures |RStrip(url, {'/'})| <= |r| && r[..|RStrip(url, {'/'})|] == RStrip(url, {'/'})
    ensures r == RStrip(url, {'/'}) <==> EndsWith(RStrip(url, {'/'}), "api")
  {
    var s := RStrip(url, {'/'});
    if EndsWith(s, "api") then s
    else
      var r := s + "/api";
      assert r[|r| - 3..] == "api";
      assert r[..|s|] == s;
      r
  }

  /** Normalising a normalised URL changes nothing. */
  lemma NormaliseHostUrlIdempotent(url: string)
    ensures NormaliseHostUrl(NormaliseHostUrl(url)) == NormaliseHostUrl(url)
  {
    var r := NormaliseHostUrl(url);
    RStripSuffix(r, "", {'/'});
    assert r + "" == r;
  }

  /** Trailing slashes on the given URL make no difference. */
  lemma NormaliseHostUrlIgnoresSlashes(url: string, slashes: string)
    requires forall k :: 0 <= k < |slashes| ==> slashes[k] == '/'
    ensures NormaliseHostUrl(url + slashes) == NormaliseHostUrl(url)
  {
    RStripAppendStripped(url, slashes, {'/'});
  }

  // ---------------------------------------------------------------------------
  // Keyword arguments

  /** One keyword argument as the caller passed it; None stands for Python's None (also the default). */
  datatype Kwarg = Kwarg(name: string, value: Option<Field>)

  /** A dict built from keyword arguments: its items in insertion order. */
  type Args = seq<(string, Field)>

  predicate DistinctNames(kwargs: seq<Kwarg>) {
    forall i, j :: 0 <= i < j < |kwargs| ==> kwargs[i].name != kwargs[j].name
  }

  predicate DistinctKeys(ags: Args) {
    forall i, j :: 0 <= i < j < |ags| ==> ags[i].0 != ags[j].0
  }

  /** The arguments whose value is not None, in the order given, values unchanged. */
  function Present(kwargs: seq<Kwarg>): (ags: Args)
    ensures |ags| <= |kwargs|
  {
    if |kwargs| == 0 then []
    else
      var last := kwargs[|kwargs| - 1];
      Present(kwargs[..|kwargs| - 1]) + (if last.value.Some? then [(last.name, last.value.value)] else [])
  }

  /** The loop both `run_command` methods open with: `ags[key] = value` for every value that is not None. */
  method FilterArgs(kwargs: seq<Kwarg>) returns (ags: Args)
    ensures ags == Present(kwargs)
  {
    ags := [];
    var k := 0;
    while k < |kwargs|
      invariant 0 <= k <= |kwargs|
      invariant ags == Present(kwargs[..k])
    {
      assert kwargs[..k + 1][..k] == kwargs[..k];
      if kwargs[k].value.Some? {
        ags := ags + [(kwargs[k].name, kwargs[k].value.value)];
      }
      k := k + 1;
    }
    assert kwargs[..k] == kwargs;
  }

  /** Filtering a two-argument call, argument by argument. */
  lemma PresentTwo(a: Kwarg, b: Kwarg)
    ensures Present([a, b]) == (if a.value.Some? then [(a.name, a.value.value)] else []) + (if b.value.Some? then [(b.name, b.value.value)] else [])
  {
    assert [a, b][..1] == [a];
    assert [a][..0] == [];
  }

  /** Filtering distributes over concatenation, so the relative order of the kept arguments is the given order. */
  lemma {:induction false} PresentAppend(a: seq<Kwarg>, b: seq<Kwarg>)
    ensures Present(a + b) == Present(a) + Present(b)
  {
    if |b| == 0 {
      assert a + b == a;
    } else {
      assert (a + b)[..|a + b| - 1] == a + b[..|b| - 1];
      PresentAppend(a, b[..|b| - 1]);
    }
  }

  /** An item is kept exactly when some argument carries that name and a value that is not None. */
  lemma {:induction false} PresentMembers(kwargs: seq<Kwarg>, key: string, v: Field)
    ensures (key, v) in Present(kwargs) <==> exists i :: 0 <= i < |kwargs| && kwargs[i] == Kwarg(key, Some(v))
  {
    if |kwargs| > 0 {
      var p := kwargs[..|kwargs| - 1];
      PresentMembers(p, key, v);
      if (key, v) in Present(p) {
        var i :| 0 <= i < |p| && p[i] == Kwarg(key, Some(v));
        assert kwargs[i] == p[i];
      }
      if exists i :: 0 <= i < |kwargs| && kwargs[i] == Kwarg(key, Some(v)) {
        var i :| 0 <= i < |kwargs| && kwargs[i] == Kwarg(key, Some(v));
        if i < |p| {
          assert p[i] == kwargs[i];
        }
      }
    }
  }

  /** The keys kept are a subset of distinct names, so the filtered sequence is a well-formed dict. */
  lemma {:induction false} PresentKeysDistinct(kwargs: seq<Kwarg>)
    requires DistinctNames(kwargs)
    ensures DistinctKeys(Present(kwargs))
    ensures forall i :: 0 <= i < |Present(kwargs)| ==> exists j :: 0 <= j < |kwargs| && kwargs[j].name == Present(kwargs)[i].0
  {
    if |kwargs| > 0 {
      var p := kwargs[..|kwargs| - 1];
      var last := kwargs[|kwargs| - 1];
      assert DistinctNames(p);
      PresentKeysDistinct(p);
      var ps := Present(p);
      forall i | 0 <= i < |ps| ensures ps[i].0 != last.name {
        var j :| 0 <= j < |p| && p[j].name == ps[i].0;
        assert kwargs[j] == p[j];
      }
      forall i | 0 <= i < |ps| ensures exists j :: 0 <= j < |kwargs| && kwargs[j].name == ps[i].0 {
        var j :| 0 <= j < |p| && p[j].name == ps[i].0;
        assert kwargs[j] == p[j];
      }
    }
  }

  /** Nothing is kept exactly when every argument is None. */
  lemma {:induction false} PresentEmpty(kwargs: seq<Kwarg>)
    ensures Present(kwargs) == [] <==> forall i :: 0 <= i < |kwargs| ==> kwargs[i].value.None?
  {
    if |kwargs| > 0 {
      var p := kwargs[..|kwargs| - 1];
      PresentEmpty(p);
      assert forall i :: 0 <= i < |p| ==> p[i] == kwargs[i];
    }
  }

  /** `ags[key]`: the value stored under `key`, None where Python raises KeyError. */
  function Lookup(ags: Args, key: string): (r: Option<Field>)
    ensures r.Some? ==> (key, r.value) in ags
    ensures r.None? <==> forall i :: 0 <= i < |ags| ==> ags[i].0 != key
  {
    if |ags| == 0 then None
    else if ags[0].0 == key then Some(ags[0].1)
    else
      var r := Lookup(ags[1..], key);
      assert forall i :: 1 <= i < |ags| ==> ags[i] == ags[1..][i - 1];
      r
  }

  /** The name is found after filtering exactly when some argument of that name is not None. */
  lemma PresentLookup(kwargs: seq<Kwarg>, key: string)
    ensures Lookup(Present(kwargs), key).None? <==> forall i :: 0 <= i < |kwargs| && kwargs[i].name == key ==> kwargs[i].value.None?
  {
    var ags := Present(kwargs);
    if Lookup(ags, key).None? {
      forall i | 0 <= i < |kwargs| && kwargs[i].name == key ensures kwargs[i].value.None? {
        if kwargs[i].value.Some? {
          PresentMembers(kwargs, key, kwargs[i].value.value);
          assert false;
        }
      }
    } else {
      var v := Lookup(ags, key).value;
      PresentMembers(kwargs, key, v);
    }
  }

  // ---------------------------------------------------------------------------
  // Rendering values inside URLs

  /** `repr()` of a scalar, as Python writes a list element inside `str()` of a list. */
  function Repr(x: Scalar): string {
    match x
    case Str(s) => "'" + s + "'"
    case _ => ScalarStr(x)
  }

  /** `str()` of a keyword value, as an f-string writes it. */
  function FieldStr(f: Field): (r: string)
    ensures f.Many? ==> |r| >= 2 && r[0] == '[' && r[|r| - 1] == ']'
  {
    match f
    case One(x) => ScalarStr(x)
    case Many(xs) => "[" + Join(seq(|xs|, k requires 0 <= k < |xs| => Repr(xs[k])), ", ") + "]"
  }

  // ---------------------------------------------------------------------------
  // Requests

  /** What a client method hands to the HTTP layer: the URL and, where there is one, the body. */
  datatype Request =
    | Get(url: string)
    | Post(url: string, data: Option<Args>)
    | Delete(url: string, data: Option<Args>)

  /** `sep.join(parts + [p])` is `sep.join(parts) + sep + p` once `parts` is not empty. */
  lemma JoinSnoc(parts: seq<string>, p: string, sep: string)
    requires |parts| > 0
    ensures Join(parts + [p], sep) == Join(parts, sep) + sep + p
  {
    assert (parts + [p])[..|parts|] == parts;
  }
}
