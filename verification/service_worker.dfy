/** The offline policy of sw.js: which caches survive activation, which
    requests go to the network only, and when a response is served from or
    written to the cache. The Cache Storage API is a sequence of named caches
    in creation order; the network is an outcome handed in by the caller. */
module ServiceWorker {
  import opened Options

  const CacheName: string := "koshare-v5"
  const ApiHost: string := "script.google.com"

  /** The app shell and the libraries it loads, as listed in sw.js. */
  const StaticAssets: seq<string> := [
    "./",
    "./index.html",
    "./app.js",
    "./styles.css",
    "./manifest.json",
    "https://fonts.googleapis.com/css2?family=Prompt:wght@300;400;500;600;700;800&display=swap",
    "https://unpkg.com/leaflet@1.9.4/dist/leaflet.css",
    "https://unpkg.com/leaflet@1.9.4/dist/leaflet.js",
    "https://cdnjs.cloudflare.com/ajax/libs/qrcodejs/1.0.0/qrcode.min.js",
    "https://cdn.jsdelivr.net/npm/html2canvas@1.4.1/dist/html2canvas.min.js",
    "https://cdn.jsdelivr.net/npm/sweetalert2@11",
    "https://unpkg.com/leaflet.markercluster@1.5.3/dist/leaflet.markercluster.js",
    "https://unpkg.com/leaflet.markercluster@1.5.3/dist/MarkerCluster.css",
    "https://unpkg.com/leaflet.markercluster@1.5.3/dist/MarkerCluster.Default.css"
  ]

  /** "Offline — cannot connect", in Thai. */
  const OfflineMessage: string :=
    "\U{0E2D}\U{0E2D}\U{0E1F}\U{0E44}\U{0E25}\U{0E19}\U{0E4C} \U{2014} \U{0E44}\U{0E21}\U{0E48}\U{0E2A}\U{0E32}\U{0E21}\U{0E32}\U{0E23}\U{0E16}\U{0E40}\U{0E0A}\U{0E37}\U{0E48}\U{0E2D}\U{0E21}\U{0E15}\U{0E48}\U{0E2D}\U{0E44}\U{0E14}\U{0E49}"

  datatype Response = Response(status: int, body: string)

  /** The reply the worker makes up for an API call without network: a plain
      `new Response(...)`, hence status 200. */
  const OfflineResponse: Response :=
    Response(200, "{\"success\":false,\"error\":\"" + OfflineMessage + "\"}")

  datatype NamedCache = NamedCache(name: string, entries: map<string, Response>)

  /** `caches`: every cache, in the order it was created. */
  type Storage = seq<NamedCache>

  /** Cache names are keys: no two caches share one. */
  predicate DistinctNames(s: Storage) {
    forall i, j :: 0 <= i < j < |s| ==> s[i].name != s[j].name
  }

  /** A request as the worker sees it: the URL, its host name and whether the
      method is GET. */
  datatype Request = Request(url: string, host: string, isGet: bool)

  datatype NetOutcome = NetFailed | NetOk(response: Response)

  /** What `respondWith` ends up delivering to the page. */
  datatype Reply = Serve(response: Response) | NetworkError

  datatype Outcome = Outcome(storage: Storage, reply: Reply)

  // ------------------------------------------------------------ storage

  /** The position of the cache called `name`. */
  function FindCache(s: Storage, name: string): (r: Option<nat>)
    ensures r.Some? ==> r.value < |s| && s[r.value].name == name
    ensures r.Some? ==> forall k :: 0 <= k < r.value ==> s[k].name != name
    ensures r.None? <==> forall k :: 0 <= k < |s| ==> s[k].name != name
  {
    if |s| == 0 then None
    else if s[0].name == name then Some(0)
    else match FindCache(s[1..], name)
      case None => None
      case Some(k) => Some(k + 1)
  }

  /** `caches.open(name)`: the cache is created, last, when it is missing. */
  function Open(s: Storage, name: string): (r: Storage)
    ensures |s| <= |r| <= |s| + 1 && r[..|s|] == s
    ensures FindCache(r, name).Some?
    ensures FindCache(s, name).Some? ==> r == s
    ensures FindCache(s, name).None? ==> r[|s|] == NamedCache(name, map[])
    ensures DistinctNames(s) ==> DistinctNames(r)
  {
    if FindCache(s, name).Some? then s
    else
      var r := s + [NamedCache(name, map[])];
      assert r[|s|].name == name;
      r
  }

  /** `cache.put(url, response)` on the cache called `name`. */
  function Put(s: Storage, name: string, url: string, resp: Response): (r: Storage)
    requires FindCache(s, name).Some?
    ensures |r| == |s|
    ensures forall k :: 0 <= k < |r| ==> r[k].name == s[k].name
    ensures forall k :: 0 <= k < |r| && s[k].name != name ==> r[k] == s[k]
    ensures forall k :: 0 <= k < |r| && k != FindCache(s, name).value ==> r[k] == s[k]
    ensures var k := FindCache(s, name).value;
      r[k].entries == s[k].entries[url := resp]
  {
    var k := FindCache(s, name).value;
    s[k := NamedCache(name, s[k].entries[url := resp])]
  }

  /** The first cache, in creation order, holding `url`. */
  function FindEntry(s: Storage, url: string): (r: Option<nat>)
    ensures r.Some? ==> r.value < |s| && url in s[r.value].entries
    ensures r.Some? ==> forall k :: 0 <= k < r.value ==> url !in s[k].entries
    ensures r.None? <==> forall k :: 0 <= k < |s| ==> url !in s[k].entries
  {
    if |s| == 0 then None
    else if url in s[0].entries then Some(0)
    else match FindEntry(s[1..], url)
      case None => None
      case Some(k) => Some(k + 1)
  }

  /** `caches.match(request)`: searches every cache in creation order; a
      request whose method is not GET never matches. */
  function Match(s: Storage, req: Request): (r: Option<Response>)
    ensures r.Some? <==> req.isGet && exists k :: 0 <= k < |s| && req.url in s[k].entries
    ensures r.Some? ==> exists k :: 0 <= k < |s| && req.url in s[k].entries && s[k].entries[req.url] == r.value
    ensures forall k ::
      (0 <= k < |s| && req.isGet && req.url in s[k].entries && forall j :: 0 <= j < k ==> req.url !in s[j].entries)
      ==> r == Some(s[k].entries[req.url])
  {
    if !req.isGet then None
    else match FindEntry(s, req.url)
      case None => None
      case Some(k) => Some(s[k].entries[req.url])
  }

  // ------------------------------------------------------------ events

  /** The activate handler: every cache whose name is not the current one is
      deleted. */
  function Activate(s: Storage): (r: Storage)
    ensures forall c :: c in r <==> c in s && c.name == CacheName
    ensures |r| <= |s|
  {
    if |s| == 0 then []
    else if s[0].name == CacheName then [s[0]] + Activate(s[1..])
    else Activate(s[1..])
  }

  /** The fetch handler. API calls go to the network only and leave the caches
      alone, with a made-up JSON error when the network fails. Anything else
      is stale-while-revalidate: the cached copy, if any, is the reply, while
      the network copy is written to the current cache when its status is 200
      (and the request a GET, since `cache.put` rejects anything else). */
  function Fetch(s: Storage, req: Request, net: NetOutcome): (o: Outcome)
    ensures req.host == ApiHost ==> o.storage == s
    ensures req.host == ApiHost ==> o.reply == (if net.NetOk? then Serve(net.response) else Serve(OfflineResponse))
    ensures req.host != ApiHost && Match(s, req).Some? ==> o.reply == Serve(Match(s, req).value)
    ensures req.host != ApiHost && Match(s, req).None? ==>
      o.reply == (if net.NetOk? then Serve(net.response) else NetworkError)
    ensures !(net.NetOk? && net.response.status == 200) ==> o.storage == s
    ensures DistinctNames(s) ==> DistinctNames(o.storage)
  {
    if req.host == ApiHost then
      Outcome(s, if net.NetOk? then Serve(net.response) else Serve(OfflineResponse))
    else
      var cached := Match(s, req);
      var s' :=
        if net.NetOk? && net.response.status == 200 then
          var withCache := Open(s, CacheName);
          if req.isGet then Put(withCache, CacheName, req.url, net.response) else withCache
        else s;
      var reply := if cached.Some? then Serve(cached.value)
                   else if net.NetOk? then Serve(net.response)
                   else NetworkError;
      assert DistinctNames(s) ==> DistinctNames(s') by {
        if DistinctNames(s) && net.NetOk? && net.response.status == 200 && req.isGet {
          PutKeepsNames(Open(s, CacheName), CacheName, req.url, net.response);
        }
      }
      Outcome(s', reply)
  }

  lemma PutKeepsNames(s: Storage, name: string, url: string, resp: Response)
    requires FindCache(s, name).Some? && DistinctNames(s)
    ensures DistinctNames(Put(s, name, url, resp))
  {
    var r := Put(s, name, url, resp);
    forall i, j | 0 <= i < j < |r| ensures r[i].name != r[j].name {
      assert r[i].name == s[i].name && r[j].name == s[j].name;
    }
  }

  /** What `cache.addAll` demands of every response: `response.ok` (a
      status from 200 to 299) and not a partial response (206). */
  predicate Ok(r: Response) {
    200 <= r.status <= 299 && r.status != 206
  }

  /** `cache.addAll(urls)`: every URL fetched; all stored when every response
      is ok, nothing stored otherwise. */
  function AddAll(entries: map<string, Response>, urls: seq<string>, net: seq<NetOutcome>): (r: Option<map<string, Response>>)
    requires |net| == |urls|
    ensures r.Some? <==> forall k :: 0 <= k < |net| ==> net[k].NetOk? && Ok(net[k].response)
    ensures r.Some? ==> forall k :: 0 <= k < |urls| ==> urls[k] in r.value
    ensures r.Some? ==> forall k :: 0 <= k < |urls| && urls[k] !in urls[k + 1..] ==> r.value[urls[k]] == net[k].response
    ensures r.Some? ==> forall u :: u in entries && u !in urls ==> u in r.value && r.value[u] == entries[u]
    decreases |urls|
  {
    if |urls| == 0 then Some(entries)
    else if !(net[0].NetOk? && Ok(net[0].response)) then None
    else match AddAll(entries[urls[0] := net[0].response], urls[1..], net[1..])
      case None => None
      case Some(m) =>
        assert forall k :: 1 <= k < |urls| ==> urls[k] == urls[1..][k - 1];
        Some(m)
  }

  /** The install handler: the current cache is opened, then filled with
      `urls` (the static assets) all at once; a failed `addAll` is swallowed
      and leaves the opened cache as it was. `net` holds the network outcome
      of each URL. */
  function Install(s: Storage, urls: seq<string>, net: seq<NetOutcome>): (r: Storage)
    requires |net| == |urls|
    ensures FindCache(r, CacheName).Some?
    ensures |r| == |Open(s, CacheName)|
    ensures forall k :: 0 <= k < |r| && r[k].name != CacheName ==> r[k] == Open(s, CacheName)[k]
    ensures !(forall k :: 0 <= k < |net| ==> net[k].NetOk? && Ok(net[k].response)) ==> r == Open(s, CacheName)
    ensures DistinctNames(s) ==> DistinctNames(r)
  {
    var withCache := Open(s, CacheName);
    var k := FindCache(withCache, CacheName).value;
    match AddAll(withCache[k].entries, urls, net)
    case None => withCache
    case Some(m) =>
      var r := withCache[k := NamedCache(CacheName, m)];
      assert forall i :: 0 <= i < |r| ==> r[i].name == withCache[i].name;
      r
  }

  /** One partial (206) response among the static assets makes `addAll`
      reject, and the swallowed rejection leaves only the opened cache, as
      any failed download does. */
  lemma PartialResponseRejected(s: Storage, urls: seq<string>, net: seq<NetOutcome>, k: nat)
    requires |net| == |urls| && k < |net|
    requires net[k].NetOk? && net[k].response.status == 206
    ensures Install(s, urls, net) == Open(s, CacheName)
  {
    assert !Ok(net[k].response);
  }
}
