/** The request-building part of the Sonarr client: the stored host URL,
    `run_command`, and the `_Commands` helpers, each of which calls
    `run_command` with a fixed command name and its own arguments. */
module SonarrClient {
  import opened Wrappers
  import opened Text
  import opened JsonText
  import opened Clients

  /** One call of a `_Commands` helper with its arguments; None stands for an argument left at its default. */
  datatype SonarrCommand =
    | RefreshSeries(refreshId: Option<int>)
    | RescanSeries(rescanId: Option<int>)
    | EpisodeSearch(episodeIds: Option<seq<int>>)
    | SeasonSearch(seasonSeriesId: int, seasonNumber: int)
    | SeriesSearch(searchSeriesId: int)
    | DownloadedEpisodesScan(path: Option<string>, downloadClientId: Option<string>, importMode: Option<string>)
    | RssSync
    | RenameFiles(files: Option<seq<int>>)
    | RenameSeries(seriesIds: seq<int>)
    | Backup
    | MissingEpisodeSearch

  /** The `name` argument each helper passes. `rename_series` passes `RenameMovie`, the name Radarr uses. */
  function WireName(c: SonarrCommand): string {
    match c
    case RefreshSeries(_) => "RefreshSeries"
    case RescanSeries(_) => "RescanSeries"
    case EpisodeSearch(_) => "EpisodeSearch"
    case SeasonSearch(_, _) => "SeasonSearch"
    case SeriesSearch(_) => "SeriesSearch"
    case DownloadedEpisodesScan(_, _, _) => "DownloadedEpisodesScan"
    case RssSync => "RssSync"
    case RenameFiles(_) => "RenameFiles"
    case RenameSeries(_) => "RenameMovie"
    case Backup => "Backup"
    case MissingEpisodeSearch => "missingEpisodeSearch"
  }

  /** Which helper a command comes from, as a position in the helper list. */
  function Helper(c: SonarrCommand): nat {
    match c
    case RefreshSeries(_) => 0
    case RescanSeries(_) => 1
    case EpisodeSearch(_) => 2
    case SeasonSearch(_, _) => 3
    case SeriesSearch(_) => 4
    case DownloadedEpisodesScan(_, _, _) => 5
    case RssSync => 6
    case RenameFiles(_) => 7
    case RenameSeries(_) => 8
    case Backup => 9
    case MissingEpisodeSearch => 10
  }

  /** Different helpers send different command names, so the server can tell every helper apart. */
  lemma WireNamesDistinct(c1: SonarrCommand, c2: SonarrCommand)
    ensures WireName(c1) == WireName(c2) <==> Helper(c1) == Helper(c2)
  {
  }

  function IntArg(i: Option<int>): Option<Field> {
    match i
    case None => None
    case Some(n) => Some(One(Int(n)))
  }

  function StrArg(s: Option<string>): Option<Field> {
    match s
    case None => None
    case Some(t) => Some(One(Str(t)))
  }

  function IdList(ids: seq<int>): Field {
    Many(seq(|ids|, k requires 0 <= k < |ids| => Int(ids[k])))
  }

  function ListArg(ids: Option<seq<int>>): Option<Field> {
    match ids
    case None => None
    case Some(xs) => Some(IdList(xs))
  }

  /** The keyword arguments each helper hands to `run_command`, `name` first. */
  function CommandKwargs(c: SonarrCommand): (kw: seq<Kwarg>)
    ensures |kw| >= 1 && kw[0] == Kwarg("name", Some(One(Str(WireName(c)))))
  {
    [Kwarg("name", Some(One(Str(WireName(c)))))]
    + match c
      case RefreshSeries(id) => [Kwarg("seriesId", IntArg(id))]
      case RescanSeries(id) => [Kwarg("seriesId", IntArg(id))]
      case EpisodeSearch(ids) => [Kwarg("episodeIds", ListArg(ids))]
      case SeasonSearch(id, n) => [Kwarg("seriesId", Some(One(Int(id)))), Kwarg("seasonNumber", Some(One(Int(n))))]
      case SeriesSearch(id) => [Kwarg("seriesId", Some(One(Int(id))))]
      case DownloadedEpisodesScan(p, d, m) =>
        [Kwarg("path", StrArg(p)), Kwarg("downloadClientId", StrArg(d)), Kwarg("importMode", StrArg(m))]
      case RssSync => []
      case RenameFiles(fs) => [Kwarg("files", ListArg(fs))]
      case RenameSeries(ids) => [Kwarg("seriesIds", Some(IdList(ids)))]
      case Backup => []
      case MissingEpisodeSearch => []
  }

  /** Every helper's argument names are distinct. */
  lemma CommandKwargsDistinct(c: SonarrCommand)
    ensures DistinctNames(CommandKwargs(c))
  {
  }

  /** The body a helper sends starts with its command name, holds no key twice, and `name` is what a lookup finds. */
  lemma CommandBodyName(c: SonarrCommand)
    ensures var body := Present(CommandKwargs(c));
      && |body| >= 1 && body[0] == ("name", One(Str(WireName(c))))
      && Lookup(body, "name") == Some(One(Str(WireName(c))))
      && DistinctKeys(body)
  {
    var kw := CommandKwargs(c);
    PresentAppend([kw[0]], kw[1..]);
    assert [kw[0]] + kw[1..] == kw;
    assert [kw[0]][..0] == [];
    CommandKwargsDistinct(c);
    PresentKeysDistinct(kw);
  }

  /** `season_search` sends `SeasonSearch` with `seriesId` and `seasonNumber`, in that order. */
  lemma SeasonSearchBody(seriesId: int, seasonNumber: int)
    ensures Present(CommandKwargs(SeasonSearch(seriesId, seasonNumber)))
      == [("name", One(Str("SeasonSearch"))), ("seriesId", One(Int(seriesId))), ("seasonNumber", One(Int(seasonNumber)))]
  {
    var kw := CommandKwargs(SeasonSearch(seriesId, seasonNumber));
    PresentAppend([kw[0]], kw[1..]);
    assert [kw[0]] + kw[1..] == kw;
    assert [kw[0]][..0] == [];
    PresentTwo(kw[1], kw[2]);
    assert kw[1..] == [kw[1], kw[2]];
  }

  /** `rename_series` sends `RenameMovie` with the id list under `seriesIds`. */
  lemma RenameSeriesBody(seriesIds: seq<int>)
    ensures Present(CommandKwargs(RenameSeries(seriesIds)))
      == [("name", One(Str("RenameMovie"))), ("seriesIds", IdList(seriesIds))]
  {
    var kw := CommandKwargs(RenameSeries(seriesIds));
    PresentTwo(kw[0], kw[1]);
    assert [kw[0], kw[1]] == kw;
  }

  /** An optional argument left as None is dropped: such a call sends its command name alone. */
  lemma DefaultsSendNameOnly(c: SonarrCommand)
    requires c == RefreshSeries(None) || c == RescanSeries(None) || c == EpisodeSearch(None)
          || c == DownloadedEpisodesScan(None, None, None) || c == RenameFiles(None)
          || c == RssSync || c == Backup || c == MissingEpisodeSearch
    ensures Present(CommandKwargs(c)) == [("name", One(Str(WireName(c))))]
  {
    var kw := CommandKwargs(c);
    PresentAppend([kw[0]], kw[1..]);
    assert [kw[0]] + kw[1..] == kw;
    assert [kw[0]][..0] == [];
    PresentEmpty(kw[1..]);
  }

  /** An optional argument that is given is sent under its own name. */
  lemma GivenArgumentSent(c: SonarrCommand, i: nat)
    requires 1 <= i < |CommandKwargs(c)| && CommandKwargs(c)[i].value.Some?
    ensures Lookup(Present(CommandKwargs(c)), CommandKwargs(c)[i].name) == CommandKwargs(c)[i].value
  {
    var kw := CommandKwargs(c);
    var key := kw[i].name;
    var v := kw[i].value.value;
    CommandKwargsDistinct(c);
    PresentKeysDistinct(kw);
    PresentMembers(kw, key, v);
    PresentLookup(kw, key);
    var body := Present(kw);
    var found := Lookup(body, key).value;
    PresentMembers(kw, key, found);
    var j :| 0 <= j < |kw| && kw[j] == Kwarg(key, Some(found));
    assert j == i;
  }

  class Sonarr {
    var hostUrl: string
    var apiKey: string

    /** The stored URL is the normalised host, which never ends in `/` and always ends in `api`. */
    constructor(host: string, key: string)
      ensures hostUrl == NormaliseHostUrl(host) && apiKey == key
    {
      var stripped := RStrip(host, {'/'});
      if EndsWith(stripped, "api") {
        hostUrl := stripped;
      } else {
        hostUrl := stripped + "/api";
      }
      apiKey := key;
    }

    /** `run_command`: the arguments that are not None, posted to `command` as the body, even when none is left. */
    method RunCommand(kwargs: seq<Kwarg>) returns (r: Request)
      ensures r == Post(hostUrl + "/command", Some(Present(kwargs)))
    {
      var ags := FilterArgs(kwargs);
      r := Post(hostUrl + "/command", Some(ags));
    }

    /** A `_Commands` helper: `run_command` with the helper's name and arguments. */
    method SendCommand(c: SonarrCommand) returns (r: Request)
      ensures r.Post? && r.url == hostUrl + "/command" && r.data.Some?
      ensures r.data.value == Present(CommandKwargs(c))
      ensures Lookup(r.data.value, "name") == Some(One(Str(WireName(c))))
    {
      r := RunCommand(CommandKwargs(c));
      CommandBodyName(c);
    }
  }
}
