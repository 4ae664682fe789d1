# hm_wrapper in Dafny

A model of the logic inside hm_wrapper, a Python client for the Radarr and
Sonarr HTTP APIs. It covers the request-building logic listed below:

- **Date normaliser.** `parse_date_input` accepts a `datetime`, a `date` or a
  text token such as `1/2/19`. It tries twelve `strptime` formats: three
  field orders, two separators and two year widths. The first format that
  reads the token wins, and the result is rendered in ISO 8601 form.
- **JSON writers.** `dict_to_json`, `parse_json_item` and `parse_json_list`
  build text by hand with string concatenation and `rstrip(', ')`.
- **Host URL rule.** Both client constructors share one rule: strip trailing
  `/`, then add `/api` unless the URL already ends in `api`.
- **Radarr requests.** These are `run_command` (which filters out `None`
  arguments), the `get_history` and `request_get` query strings, the space
  escaping of `movie_lookup_by_name`, and the body of `delete_movie`.
- **Sonarr requests.** These are `run_command` and the `_Commands` table. The
  table gives each helper a fixed command name and its arguments.

## Layout

- `wrappers.dfy` (`Wrappers`): `Option`, `Result`, and the Python exceptions
  the code lets escape.
- `text.dfy` (`Text`): decimal digits, `str()` of an integer, `rstrip`,
  `endswith`, `join` and `find`.
- `dates.dfy` (`Dates`): `parse_date_input`.
  - Python iterates the two sets of orders and separators in an order fixed
    by string hashing. Both orders are therefore parameters (`orders`,
    `seps`), and the properties are proved for every permutation.
  - `strptime` is modelled for exactly the directives used: `%m`, `%d`, `%y`
    and `%Y`, with ASCII digits.
- `json_text.dfy` (`JsonText`): the three JSON writers.
- `clients.dfy` (`Clients`): the host-URL rule, keyword-argument filtering,
  `ags[key]`, and the `Request` value each client method produces.
- `radarr.dfy` (`RadarrClient`): class `Radarr`, with `hostUrl` and `apiKey`
  fields.
- `sonarr.dfy` (`SonarrClient`): class `Sonarr`, plus `SonarrCommand`, one
  constructor per `_Commands` helper.

Loops in the source are methods with loop invariants. Each method is proved
equal to a function, and the properties are lemmas about that function:

- `ParseDateInput` with `SearchOrder`;
- `DictToJson` with `AppendElements`;
- `ParseJsonList`;
- `FilterArgs`;
- `Radarr.RequestGet`.

Paths in the table are relative to the repository root.

## Model

| member | source | states |
|---|---|---|
| Dates.DaysInMonth | build/lib/hm_wrapper/_utils.py:30 | a month has 28 to 31 days (February 29 only in leap years), as `datetime` checks |
| Dates.MonthField | build/lib/hm_wrapper/_utils.py:29 | `%m` accepts only numbers 1 to 12 |
| Dates.DayField | build/lib/hm_wrapper/_utils.py:29 | `%d` accepts only numbers 1 to 31 |
| Dates.YearField | build/lib/hm_wrapper/_utils.py:29-33 | `%y` accepts exactly 2 digits and `%Y` exactly 4 |
| Dates.FieldsHaveNoSeparator | build/lib/hm_wrapper/_utils.py:29-33 | the text a directive accepts never contains `-` or `/`, so splitting at the separators is the same as matching the format |
| Dates.SplitThreeOf | build/lib/hm_wrapper/_utils.py:30 | a token written as field, separator, field, separator, field splits back into those three fields |
| Dates.SplitThreeJoins | build/lib/hm_wrapper/_utils.py:30 | a successful split reassembles to the original token, so no characters are left over |
| Dates.ReadFields | build/lib/hm_wrapper/_utils.py:29-34 | any date the fields name is a real calendar date, at midnight |
| Dates.TryParseExact | build/lib/hm_wrapper/_utils.py:30-34 | `strptime` with one format succeeds with `dt` exactly when the whole token is three fields joined by one separator and names `dt` (no leftover characters, no mixed separators) |
| Dates.TryParse | build/lib/hm_wrapper/_utils.py:29-36 | one `strptime` call: a successful reading needs the format's separator in the token and gives a real calendar date at midnight; None stands for ValueError |
| Dates.TryParseSound | build/lib/hm_wrapper/_utils.py:30-34 | every successful parse matches the format |
| Dates.TryParseComplete | build/lib/hm_wrapper/_utils.py:30-34 | every token written in the format parses |
| Dates.WidthsExclusive | build/lib/hm_wrapper/_utils.py:28-37 | within one (order, separator) pair, `%y` and `%Y` never both succeed |
| Dates.CandidatesMembers | build/lib/hm_wrapper/_utils.py:19-25 | the search tries exactly the formats built from the given orders and separators, with both widths |
| Dates.FirstMatchFailsExactly | build/lib/hm_wrapper/_utils.py:36-45 | the search finds nothing exactly when every format fails |
| Dates.FirstMatchIsFirstSuccess | build/lib/hm_wrapper/_utils.py:21-41 | the result is the parse of some format, and every format tried before it failed |
| Dates.AgreeingSuccess | build/lib/hm_wrapper/_utils.py:21-41 | if every format that reads the token names the same date, and one is tried, that date is found |
| Dates.FirstMatchIsMidnight | build/lib/hm_wrapper/_utils.py:29-33 | a found date is a valid calendar date at midnight |
| Dates.OrderIndependent | build/lib/hm_wrapper/_utils.py:19-41 | when all successful formats agree, the set iteration order does not change the result |
| Dates.PairStep | build/lib/hm_wrapper/_utils.py:25-41 | one pass of the inner loop extends the search by that separator's `%y` then `%Y` format, and a success stops the loop |
| Dates.OrderStep | build/lib/hm_wrapper/_utils.py:21-25 | one pass of the outer loop extends the search by that order's formats |
| Dates.PrefixDecides | build/lib/hm_wrapper/_utils.py:22-23 | once a match is found, the remaining orders cannot change it |
| Dates.SearchOrder | build/lib/hm_wrapper/_utils.py:25-41 | the inner loop returns the first match among one order's formats |
| Dates.Normalise | build/lib/hm_wrapper/_utils.py:4-46 | the corrected function: only a text token can fail, and then with TypeError; a date gives 10 characters and a datetime 19 |
| Dates.NormaliseAsWritten | build/lib/hm_wrapper/_utils.py:12-15 | the function as written: only a text token can succeed, and every failure is TypeError |
| Dates.ParseDateInput | build/lib/hm_wrapper/_utils.py:4-46 | the whole function, type dispatch and search loops, returns what `Normalise` defines |
| Dates.IsoDate | build/lib/hm_wrapper/_utils.py:15 | `date.isoformat()` is 10 characters with `-` at positions 4 and 7 |
| Dates.IsoSeconds | build/lib/hm_wrapper/_utils.py:13 | `isoformat(timespec='seconds')` is 19 characters: the date text, `T`, then two-digit hour, minute and second separated by `:` |
| Dates.IsoFormat | build/lib/hm_wrapper/_utils.py:43 | `isoformat()` is the seconds form, followed by `.` and six digits exactly when the microseconds are not zero |
| Dates.IsoSecondsFields | build/lib/hm_wrapper/_utils.py:13 | the hour, minute and second digits read back as the datetime's own fields |
| Dates.IsoDateFields | build/lib/hm_wrapper/_utils.py:43 | the date text is 10 characters: year, month and day digits that read back as the date, with `-` at positions 4 and 7 |
| Dates.IsoMidnight | build/lib/hm_wrapper/_utils.py:43 | a parsed date renders as the date followed by `T00:00:00` |
| Dates.TextResultIsMidnight | build/lib/hm_wrapper/_utils.py:42-43 | every successful text result is a real date followed by `T00:00:00` |
| Dates.TextFailsWhenNoneReads | build/lib/hm_wrapper/_utils.py:19-45 | when no format reads the token, the search over all formats finds nothing |
| Dates.TextReadWhenOneReads | build/lib/hm_wrapper/_utils.py:19-43 | when one format reads the token, the search over all formats finds a date |
| Dates.TextFailsExactly | build/lib/hm_wrapper/_utils.py:42-45 | text raises TypeError exactly when no format from the given orders and separators reads it |
| Dates.IsoDateCandidate | build/lib/hm_wrapper/_utils.py:19-34 | the text of `date.isoformat()` is read only by year-month-day with `-` and `%Y`, and as that date |
| Dates.IsoDateSearch | build/lib/hm_wrapper/_utils.py:19-41 | the search reads a rendered date back as the same date, in every iteration order |
| Dates.IsoDateReparses | build/lib/hm_wrapper/_utils.py:4-46 | round trip: a rendered date fed back in as text gives that date at midnight |
| Dates.DateObjectsRaiseAsWritten | build/lib/hm_wrapper/_utils.py:12-15 | as written, both `datetime` and `date` inputs raise TypeError, where the corrected branches succeed |
| Dates.DateObjectsRendered | build/lib/hm_wrapper/_utils.py:12-15 | corrected, a date renders as 10 characters and a datetime to the second as 19; text input is unaffected by the correction |
| Dates.SlashToken | build/lib/hm_wrapper/_utils.py:29-34 | a slash-separated token of digits is read only by the slash formats |
| Dates.FormatsAgree | build/lib/hm_wrapper/_utils.py:19-41 | a token that all twelve formats read, if at all, as one date is found as that date |
| Dates.SlashFound | build/lib/hm_wrapper/_utils.py:19-43 | a slash token that one slash format reads as a date, and every other slash format reads as that date or not at all, is found as that date in every iteration order |
| Dates.SlashFails | build/lib/hm_wrapper/_utils.py:19-41 | a slash token that no slash format reads is not found |
| Dates.UnitTestTokens | hm_wrapper/tests/test__utils.py:7-12 | `"01/27/2020"` and `"1/27/20"` both give `datetime(2020, 1, 27, 0).isoformat()`, in every iteration order |
| Dates.RejectedTokens | build/lib/hm_wrapper/_utils.py:42-45 | `""`, `"02/30/2020"` and `"13/13/2020"` raise TypeError in every iteration order |
| Dates.FirstFormatWins | build/lib/hm_wrapper/_utils.py:21-41 | when the first format tried reads the token, it decides the result |
| Dates.AmbiguousToken | build/lib/hm_wrapper/_utils.py:19-41 | `"01/02/19"` gives January 2 2019, February 1 2019 or February 19 2001, depending on iteration order |
| JsonText.ScalarStr | build/lib/hm_wrapper/_utils.py:74 | `str()` of a bool is `True`/`False`, and `str()` of a string is the string |
| JsonText.ElementText | build/lib/hm_wrapper/_utils.py:62-70 | a list element is never empty and never ends in `,` or space; a string element is quoted without escaping |
| JsonText.ElementsJoined | build/lib/hm_wrapper/_utils.py:61-71 | the joined elements are empty exactly when the list is, and never end in `,` or space |
| JsonText.ElementsWithCommasJoined | build/lib/hm_wrapper/_utils.py:61-70 | the loop leaves the elements joined by `, ` plus one trailing `, ` |
| JsonText.StripAppended | build/lib/hm_wrapper/_utils.py:71-75 | `rstrip(', ')` removes exactly the appended `, ` and nothing of the text before it |
| JsonText.ListStrip | build/lib/hm_wrapper/_utils.py:60-72 | after a list's elements, `rstrip(', ')` leaves `[` followed by the elements joined by `, ` |
| JsonText.EntryText | build/lib/hm_wrapper/_utils.py:59-74 | an entry is never empty and never ends in `,` or space |
| JsonText.DictJson | build/lib/hm_wrapper/_utils.py:54-77 | the result is None exactly for a missing or empty dict; otherwise it is enclosed in braces |
| JsonText.AppendElements | build/lib/hm_wrapper/_utils.py:61-70 | the inner loop appends each element followed by `, ` |
| JsonText.DictToJson | build/lib/hm_wrapper/_utils.py:49-77 | the loop, with its per-list and final `rstrip`, returns what `DictJson` defines |
| JsonText.ScalarDictIsObject | build/lib/hm_wrapper/_utils.py:57-76 | a dict of scalars gives `{` + its `"key":"value"` pairs in insertion order joined by `, ` + `}` |
| JsonText.ListEntryRunsOn | build/lib/hm_wrapper/_utils.py:59-74 | no separator is written after a list entry: `{"a": [1]"b":"x"}` |
| JsonText.ListBoolsArePython | build/lib/hm_wrapper/_utils.py:62-68 | booleans take the int branch and come out as `True, False` |
| JsonText.ItemsFailurePersists | build/lib/hm_wrapper/_utils.py:96-97 | once an item raises, the whole list raises the same error |
| JsonText.ItemText | build/lib/hm_wrapper/_utils.py:80-91 | only a list item can raise; a scalar item gives text exactly when it is not a string (a string falls off the end and gives None) |
| JsonText.ItemsText | build/lib/hm_wrapper/_utils.py:96-97 | the written items are empty exactly when the list is empty |
| JsonText.ListText | build/lib/hm_wrapper/_utils.py:94-99 | a written list starts with `[` and ends with `]` |
| JsonText.ItemsTextStep | build/lib/hm_wrapper/_utils.py:96-97 | one more pass of the loop extends the items written so far by the next item and `, `, or raises |
| JsonText.ItemsTextEndsInComma | build/lib/hm_wrapper/_utils.py:96-97 | the items of a non-empty list, once written, end in `, `, so the list text ends in `, ]` |
| JsonText.ParseJsonList | build/lib/hm_wrapper/_utils.py:94-99 | the loop returns what `ListText` defines |
| JsonText.ItemTextNeverJsonBool | build/lib/hm_wrapper/_utils.py:81-87 | no item is ever written as the JSON literal `true` or `false` |
| JsonText.ListTextSucceedsExactly | build/lib/hm_wrapper/_utils.py:80-99 | a list is written exactly when every item has text; one string, one empty dict or one failing sub-list makes it raise |
| JsonText.ItemTextRaisesTypeError | build/lib/hm_wrapper/_utils.py:80-99 | the only exception an item or list raises is TypeError |
| JsonText.ListTextShape | build/lib/hm_wrapper/_utils.py:95-98 | an empty list gives `[]`, and a non-empty one always ends in `, ]` |
| JsonText.ListExamples | build/lib/hm_wrapper/_utils.py:80-99 | `[1, 2]` gives `[1, 2, ]`, `[]` gives `[]`, `[True]` gives `[True, ]`, and `[1, "a"]` raises TypeError |
| Clients.NormaliseHostUrl | hm_wrapper/radarr.py:16-19 | the stored URL ends in `api` and never in `/`, begins with the stripped input, and equals it exactly when that already ends in `api` |
| Clients.NormaliseHostUrlIdempotent | hm_wrapper/sonarr.py:15-18 | normalising a normalised URL changes nothing |
| Clients.NormaliseHostUrlIgnoresSlashes | hm_wrapper/sonarr.py:15-18 | trailing slashes on the input make no difference |
| Clients.Present | hm_wrapper/radarr.py:40-43 | the dict keeps at most one item per argument; `PresentMembers` and `PresentAppend` say which ones and in what order |
| Clients.FilterArgs | hm_wrapper/sonarr.py:33-36 | the loop keeps exactly the arguments that are not None |
| Clients.PresentAppend | hm_wrapper/radarr.py:40-43 | filtering keeps the given order |
| Clients.PresentMembers | hm_wrapper/radarr.py:40-43 | an item is kept exactly when some argument has that name and that value, and the value is not None |
| Clients.PresentKeysDistinct | hm_wrapper/radarr.py:40-43 | filtering distinct names gives a dict with distinct keys, each one an argument name |
| Clients.PresentEmpty | hm_wrapper/radarr.py:44-48 | nothing is kept, so there is no request body, exactly when every argument is None |
| Clients.Lookup | hm_wrapper/radarr.py:54 | `ags[key]` finds a stored value, and fails exactly when no item has that key |
| Clients.PresentLookup | hm_wrapper/radarr.py:54 | `ags["name"]` fails exactly when every `name` argument is None |
| Clients.FieldStr | hm_wrapper/radarr.py:54 | a list value is written between `[` and `]` |
| RadarrClient.QueryString | hm_wrapper/radarr.py:269-273 | a non-empty params dict puts its last `key=value` at the very end of the query |
| RadarrClient.QueryStringShape | hm_wrapper/radarr.py:269-273 | there is no query without params; given params (even empty) start with `?`, and non-empty ones with `?&` |
| RadarrClient.Radarr.RequestGet | hm_wrapper/radarr.py:261-275 | the loop's URL is the given URL plus `?` and `&key=value` for each param, in order: `?&` joined by `&` |
| RadarrClient.HistoryParamsNamed | hm_wrapper/radarr.py:80-87 | `page` always comes first, and each of `pageSize`, `sortKey` and `sortDir` is sent exactly when it is not None |
| RadarrClient.HistoryQuery | hm_wrapper/radarr.py:80-87 | the query starts with `?page=<page>`, and ends with `sortDir=<value>` whenever a sort direction is given |
| RadarrClient.HistoryDefaults | hm_wrapper/radarr.py:73-87 | with the defaults, the query is `?page=0&pageSize=10` |
| RadarrClient.AppendParam | hm_wrapper/radarr.py:82-87 | one optional parameter step keeps the query equal to `?` followed by the parameters so far joined by `&` |
| RadarrClient.Radarr.GetHistory | hm_wrapper/radarr.py:73-90 | the built query string is `?` followed by the present parameters, in fixed order, joined by `&` |
| RadarrClient.EscapeSpaces | hm_wrapper/radarr.py:174 | the escaped term contains no space, and every character other than `%20` text comes from the term |
| RadarrClient.EscapeSpacesRoundTrip | hm_wrapper/radarr.py:174 | escaping loses nothing: reading `%20` back as a space restores any term that contains no `%` |
| RadarrClient.EscapeSpacesIdentity | hm_wrapper/radarr.py:174 | a term without spaces is sent unchanged |
| RadarrClient.EscapeSpacesAppend | hm_wrapper/radarr.py:174 | escaping works one character at a time |
| RadarrClient.Radarr.MovieLookupByName | hm_wrapper/radarr.py:169-176 | the lookup URL is the host, `/movie/lookup?term=`, then the escaped term |
| RadarrClient.Radarr.constructor | hm_wrapper/radarr.py:16-20 | the stored host URL is the normalised one, so it ends in `api` and never in `/`; the key is stored as given |
| RadarrClient.Radarr.RunCommand | hm_wrapper/radarr.py:39-55 | KeyError exactly when no `name` is left after filtering; otherwise the filtered arguments are posted to `command?name=<name>` |
| RadarrClient.DeleteBody | hm_wrapper/radarr.py:154-163 | a body holds one item per flag that is given |
| RadarrClient.DeleteBodyFlags | hm_wrapper/radarr.py:154-163 | there is no body exactly when both flags are None; otherwise the body holds exactly the given flags, `deleteFiles` first, with distinct keys |
| RadarrClient.DeleteMovieAsWritten | hm_wrapper/radarr.py:154-165 | as written, a call that returns sends a DELETE with a body |
| RadarrClient.DeleteMovieUnbound | hm_wrapper/radarr.py:154-165 | as written, a call with neither flag raises UnboundLocalError; with a flag it sends the corrected body |
| RadarrClient.Radarr.DeleteMovie | hm_wrapper/radarr.py:147-166 | the corrected method sends to `movie/<id>` the body `DeleteBody` defines |
| SonarrClient.WireNamesDistinct | hm_wrapper/sonarr.py:258-344 | different helpers send different command names |
| SonarrClient.CommandKwargs | hm_wrapper/sonarr.py:258-344 | every helper passes `name` first, with its fixed command name |
| SonarrClient.CommandKwargsDistinct | hm_wrapper/sonarr.py:258-344 | no helper passes the same argument name twice |
| SonarrClient.CommandBodyName | hm_wrapper/sonarr.py:258-344 | every body starts with the command name, `body["name"]` finds it, and keys are distinct |
| SonarrClient.SeasonSearchBody | hm_wrapper/sonarr.py:279-285 | `season_search` sends `SeasonSearch`, `seriesId` and `seasonNumber`, in that order |
| SonarrClient.RenameSeriesBody | hm_wrapper/sonarr.py:327-332 | `rename_series` sends `RenameMovie` with the id list under `seriesIds` |
| SonarrClient.DefaultsSendNameOnly | hm_wrapper/sonarr.py:258-344 | a helper called with every optional argument None sends its command name alone |
| SonarrClient.GivenArgumentSent | hm_wrapper/sonarr.py:258-344 | an argument that is given is sent under its own name, unchanged |
| SonarrClient.Sonarr.constructor | hm_wrapper/sonarr.py:15-21 | the stored host URL is the normalised one, so it ends in `api` and never in `/`; the key is stored as given |
| SonarrClient.Sonarr.RunCommand | hm_wrapper/sonarr.py:32-38 | the filtered arguments are posted to `command` as the body, even when none is left |
| SonarrClient.Sonarr.SendCommand | hm_wrapper/sonarr.py:258-344 | a helper posts to `command` a body whose `name` is its command name |
| Text.PadDigitsValue | build/lib/hm_wrapper/_utils.py:43 | zero-padded digits read back as the number |
| Text.NatToStringValue | build/lib/hm_wrapper/_utils.py:82 | `str(n)` reads back as `n` |
| Text.IntToString | hm_wrapper/radarr.py:81 | `str(i)` begins with `-` exactly for negative numbers, and ends in a digit |
| Text.RStrip | hm_wrapper/radarr.py:16 | `rstrip` leaves a prefix that does not end in a stripped character, and removes only stripped characters |
| Text.RStripIdempotent | hm_wrapper/radarr.py:16-17 | stripping twice is stripping once |

## Left out

- Networking. The `requests` calls, their headers (the API key) and `res.json()` are left out. Each client method instead returns a `Request` value: the method, the URL, and the body where there is one.
- `json.dumps`/`json.loads` are not modelled. `RadarrClient.Radarr.RunCommand` and `RadarrClient.Radarr.DeleteMovie` carry the dict (`Args`) as the body, not its JSON text.
- Endpoints outside the modelled core are not part of this model. This covers:
  - `get_calendar`, `get_command`, `get_movie` and the other request methods;
  - `construct_series_json`, which depends on live responses;
  - Radarr's `_Commands` helpers, which only forward to `run_command`.
- Set iteration order is not modelled. Python's string hashing fixes it, so it is a parameter; every order-dependent property is proved for all permutations.
- Inputs to `parse_date_input` that are neither text nor `date`/`datetime` are not modelled. They reach the unbound local `result` in the `finally` block.
- Non-ASCII digits, which Python's `\d` accepts, are not modelled.
- `Dates.Normalise`: the `datetime` branch is modelled by its intended `isoformat(timespec='seconds')`, with no time zone.
- `JsonText.DictJson`: values are limited to integers, booleans, strings and lists of these. `str()` of other objects, including nested containers, is Python `repr` and is left out.
- `Clients.FieldStr`: a string inside a list is always written in single quotes, and there is no escaping. Python's `repr` switches quotes and escapes some characters.
- `RadarrClient.Radarr.GetHistory`: `page` is an integer. `page=None` (which Python writes as `None`) is not modelled.
- `SonarrClient.SonarrCommand`: required helper arguments are plain integers or lists. Passing None where the signature has no default is not modelled.
- The `bool` branches at build/lib/hm_wrapper/_utils.py:64-68 and :83-87 are not modelled. `isinstance(x, int)` is true for booleans, so neither branch can be reached; the model takes the `int` branch for booleans, as Python does.

## Findings

| source | as written | input that shows it | evidently intended | confidence | as-written member | corrected member |
|---|---|---|---|---|---|---|
| build/lib/hm_wrapper/_utils.py:12-15 | `datetime.datetime(date_object)` and `datetime.date(date_object)` pass the object as the year argument, so both raise TypeError | any `datetime` or `date`, e.g. `date(2020, 1, 27)` | `date_object.isoformat(timespec='seconds')` for a datetime and `date_object.isoformat()` for a date, as the docstring says | not executed; high | Dates.DateObjectsRaiseAsWritten | Dates.DateObjectsRendered |
| hm_wrapper/radarr.py:154-165 | `data` is assigned only when a flag is given, so line 165 reads an unbound local | `delete_movie(5)` with both flags left as None | send the request with no body | not executed; high | RadarrClient.DeleteMovieUnbound | RadarrClient.Radarr.DeleteMovie |
