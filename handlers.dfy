/**
 * The URL shortener's request handlers: the path table built from the
 * decoded configuration, and the decision each handler takes for a request
 * path. Decoding YAML or JSON and querying SQLite are outside the model;
 * they enter as their results.
 */
module Handlers {
  import opened Wrappers

  /** One configured short path and the URL it redirects to. */
  datatype PathUrl = PathUrl(path: string, url: string)

  const StatusFound := 302
  const StatusInternalServerError := 500

  /** What a handler does with a request. */
  datatype Response =
    | Redirect(location: string, status: int)   // `http.Redirect`
    | ServerError(status: int, body: string)    // `http.Error`
    | Fallback                                  // the fallback handler serves the request

  // ---------------------------------------------------------------------
  // buildMap
  // ---------------------------------------------------------------------

  /** The table `buildMap` produces: entries are written in order, so a later entry for a path replaces an earlier one. */
  function PathTable(data: seq<PathUrl>): map<string, string>
    decreases |data|
  {
    if data == [] then map[]
    else PathTable(data[..|data| - 1])[data[|data| - 1].path := data[|data| - 1].url]
  }

  /** The configured paths. */
  ghost function Paths(data: seq<PathUrl>): set<string> {
    set i | 0 <= i < |data| :: data[i].path
  }

  /** Entry `i` is the last entry for `path`. */
  predicate LastFor(data: seq<PathUrl>, i: int, path: string) {
    0 <= i < |data| && data[i].path == path && forall j :: i < j < |data| ==> data[j].path != path
  }

  method BuildMap(data: seq<PathUrl>) returns (mapUrls: map<string, string>)
    ensures mapUrls == PathTable(data)
  {
    mapUrls := map[];
    for i := 0 to |data|
      invariant mapUrls == PathTable(data[..i])
    {
      assert data[..i + 1][..i] == data[..i];
      mapUrls := mapUrls[data[i].path := data[i].url];
    }
    assert data[..|data|] == data;
  }

  /** The table has exactly the configured paths as keys. */
  lemma {:induction false} PathTableKeys(data: seq<PathUrl>)
    ensures PathTable(data).Keys == Paths(data)
    decreases |data|
  {
    if data != [] {
      var init := data[..|data| - 1];
      PathTableKeys(init);
      forall p ensures p in Paths(data) <==> p in Paths(init) || p == data[|data| - 1].path {
        if p in Paths(data) {
          var i :| 0 <= i < |data| && data[i].path == p;
          if i < |data| - 1 {
            assert init[i] == data[i];
          }
        }
        if p in Paths(init) {
          var i :| 0 <= i < |init| && init[i].path == p;
          assert data[i] == init[i];
        }
      }
    }
  }

  /** The last entry for a path decides where it redirects. */
  lemma {:induction false} LastEntryWins(data: seq<PathUrl>, i: int, path: string)
    requires LastFor(data, i, path)
    ensures path in PathTable(data) && PathTable(data)[path] == data[i].url
    decreases |data|
  {
    if i < |data| - 1 {
      var init := data[..|data| - 1];
      assert init[i] == data[i];
      LastEntryWins(init, i, path);
    }
  }

  /** Every path in the table maps to the URL of the last entry with that path. */
  lemma {:induction false} PathTableValue(data: seq<PathUrl>, p: string)
    requires p in PathTable(data)
    ensures exists i :: LastFor(data, i, p) && PathTable(data)[p] == data[i].url
    decreases |data|
  {
    var last := |data| - 1;
    if data[last].path != p {
      var init := data[..last];
      PathTableValue(init, p);
      var i :| LastFor(init, i, p) && PathTable(init)[p] == init[i].url;
      assert data[i] == init[i];
      assert forall j :: i < j < last ==> data[j] == init[j];
    }
  }

  // ---------------------------------------------------------------------
  // MapHandler
  // ---------------------------------------------------------------------

  /** The `MapHandler` decision for a request path. */
  function MapRoute(urlPaths: map<string, string>, path: string): (r: Response)
  {
    if path in urlPaths then Redirect(urlPaths[path], StatusFound) else Fallback
  }

  /**
   * A handler built from a configuration redirects a path exactly when the
   * path is configured, with status 302 to the URL of the last entry for
   * that path; every other path goes to the fallback.
   */
  lemma MapRouteOfConfig(data: seq<PathUrl>, path: string)
    ensures MapRoute(PathTable(data), path).Redirect? <==> path in Paths(data)
    ensures MapRoute(PathTable(data), path) == Fallback <==> path !in Paths(data)
    ensures forall i :: LastFor(data, i, path) ==> MapRoute(PathTable(data), path) == Redirect(data[i].url, StatusFound)
  {
    PathTableKeys(data);
    forall i | LastFor(data, i, path)
      ensures MapRoute(PathTable(data), path) == Redirect(data[i].url, StatusFound)
    {
      LastEntryWins(data, i, path);
    }
  }

  /** The two-entry table of the handler example. */
  lemma MapHandlerExample()
    ensures var urlPaths := map["/raz-backend" := "https://github.com/Raz-y/backend-development-roadmap",
                                "/raz-go" := "https://github.com/Raz-y/Go-backOps-journey"];
      && MapRoute(urlPaths, "/raz-go") == Redirect("https://github.com/Raz-y/Go-backOps-journey", 302)
      && MapRoute(urlPaths, "/non-existent") == Fallback
  {
    var urlPaths := map["/raz-backend" := "https://github.com/Raz-y/backend-development-roadmap",
                        "/raz-go" := "https://github.com/Raz-y/Go-backOps-journey"];
    assert "/non-existent" != "/raz-backend" by { assert "/non-existent"[2] != "/raz-backend"[2]; }
    assert "/non-existent" != "/raz-go" by { assert "/non-existent"[1] != "/raz-go"[1]; }
  }

  // ---------------------------------------------------------------------
  // YAMLHandler, JSONHandler
  // ---------------------------------------------------------------------

  /** The configuration file's bytes, and a decoder giving the entries or the decoder's error text. */
  type Bytes = seq<bv8>
  type Decoder = Bytes -> Result<seq<PathUrl>, string>

  /**
   * What `YAMLHandler` and `JSONHandler` share, for the format named
   * `format`: the path table the returned handler routes with, or the error.
   * An empty file is refused before decoding.
   */
  function ConfigHandler(data: Bytes, decode: Decoder, format: string): (r: Result<map<string, string>, string>)
    ensures r.Success? <==> |data| > 0 && decode(data).Success?
    ensures |data| == 0 ==> r == Failure("empty " + format + " file provided")
    ensures |data| > 0 && decode(data).Failure? ==>
      r == Failure("error unmarshaling " + format + ": " + decode(data).error)
    ensures r.Success? ==> r.value == PathTable(decode(data).value)
  {
    if |data| == 0 then Failure("empty " + format + " file provided")
    else
      match decode(data)
      case Failure(e) => Failure("error unmarshaling " + format + ": " + e)
      case Success(entries) => Success(PathTable(entries))
  }

  /** `YAMLHandler`; the `error unmarshaling YAML: ` prefix is the one `parseYAML` adds. */
  function YamlHandler(yamlData: Bytes, decode: Decoder): Result<map<string, string>, string> {
    ConfigHandler(yamlData, decode, "YAML")
  }

  /** `JSONHandler`. */
  function JsonHandler(jsonData: Bytes, decode: Decoder): Result<map<string, string>, string> {
    ConfigHandler(jsonData, decode, "JSON")
  }

  /** An empty configuration is refused whatever the decoder would have said about it. */
  lemma EmptyConfigRefused(yamlDecode: Decoder, jsonDecode: Decoder)
    ensures YamlHandler([], yamlDecode) == Failure("empty YAML file provided")
    ensures JsonHandler([], jsonDecode) == Failure("empty JSON file provided")
  {
    assert "empty " + "YAML" + " file provided" == "empty YAML file provided";
    assert "empty " + "JSON" + " file provided" == "empty JSON file provided";
  }

  /** A decoder's error comes back behind the format's own prefix. */
  lemma DecodeErrorsNamed(data: Bytes, yamlDecode: Decoder, jsonDecode: Decoder)
    requires |data| > 0
    ensures yamlDecode(data).Failure? ==>
      YamlHandler(data, yamlDecode) == Failure("error unmarshaling YAML: " + yamlDecode(data).error)
    ensures jsonDecode(data).Failure? ==>
      JsonHandler(data, jsonDecode) == Failure("error unmarshaling JSON: " + jsonDecode(data).error)
  {
    assert "error unmarshaling " + "YAML" + ": " == "error unmarshaling YAML: ";
    assert "error unmarshaling " + "JSON" + ": " == "error unmarshaling JSON: ";
  }

  /**
   * A handler built from a file that decodes to `entries` takes the same
   * decision as `MapHandler` over `buildMap(entries)`, and whether YAML or
   * JSON was read makes no difference.
   */
  lemma ConfigHandlersRoute(data: Bytes, yamlDecode: Decoder, jsonDecode: Decoder, path: string)
    requires |data| > 0 && yamlDecode(data).Success? && jsonDecode(data) == yamlDecode(data)
    ensures YamlHandler(data, yamlDecode) == JsonHandler(data, jsonDecode)
    ensures MapRoute(YamlHandler(data, yamlDecode).value, path).Redirect? <==> path in Paths(yamlDecode(data).value)
  {
    MapRouteOfConfig(yamlDecode(data).value, path);
  }

  // ---------------------------------------------------------------------
  // SQLiteHandler
  // ---------------------------------------------------------------------

  /** The outcome of looking a path up in the `path_urls` table. */
  datatype QueryOutcome = Row(url: string) | NoRows | QueryError(message: string)

  /** The `SQLiteHandler` decision for the outcome of the query. */
  function SqlRoute(q: QueryOutcome): (r: Response)
    ensures r == Fallback <==> q == NoRows
    ensures r.ServerError? <==> q.QueryError?
    ensures r.ServerError? ==> r == ServerError(StatusInternalServerError, "Internal Server Error")
    ensures r.Redirect? <==> q.Row?
    ensures r.Redirect? ==> r == Redirect(q.url, StatusFound)
  {
    match q
    case NoRows => Fallback
    case QueryError(_) => ServerError(StatusInternalServerError, "Internal Server Error")
    case Row(url) => Redirect(url, StatusFound)
  }

  /** The outcome of the query against a database holding `table`. */
  function Lookup(table: map<string, string>, path: string): QueryOutcome {
    if path in table then Row(table[path]) else NoRows
  }

  /** When the query succeeds, the database handler routes as the map handler over the same table. */
  lemma SqlAgreesWithMap(table: map<string, string>, path: string)
    ensures SqlRoute(Lookup(table, path)) == MapRoute(table, path)
  {
  }
}
