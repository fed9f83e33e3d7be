/** Properties of the service worker's cache policy across events. */
module CachePolicy {
  import opened Options
  import opened ServiceWorker

  /** After activation at most one cache is left, and it is the current
      cache, untouched, whenever that existed. */
  lemma {:induction false} ActivateKeepsCurrentCache(s: Storage)
    requires DistinctNames(s)
    ensures |Activate(s)| <= 1
    ensures FindCache(s, CacheName).None? ==> Activate(s) == []
    ensures FindCache(s, CacheName).Some? ==> Activate(s) == [s[FindCache(s, CacheName).value]]
  {
    if |s| > 0 {
      assert DistinctNames(s[1..]) by {
        forall i, j | 0 <= i < j < |s[1..]| ensures s[1..][i].name != s[1..][j].name {
          assert s[1..][i] == s[i + 1] && s[1..][j] == s[j + 1];
        }
      }
      ActivateKeepsCurrentCache(s[1..]);
      if s[0].name == CacheName {
        assert FindCache(s[1..], CacheName).None? by {
          forall k | 0 <= k < |s[1..]| ensures s[1..][k].name != CacheName {
            assert s[1..][k] == s[k + 1];
          }
        }
      }
    }
  }

  /** Activating twice is activating once. */
  lemma {:induction false} ActivateIdempotent(s: Storage)
    ensures Activate(Activate(s)) == Activate(s)
  {
    if |s| > 0 {
      ActivateIdempotent(s[1..]);
      if s[0].name == CacheName {
        var r := Activate(s[1..]);
        assert ([s[0]] + r)[1..] == r;
      }
    }
  }

  /** Only the current cache can hold anything once old caches are gone. */
  lemma ActivatedHoldsOnlyCurrent(s: Storage)
    ensures forall k :: 0 <= k < |Activate(s)| ==> Activate(s)[k].name == CacheName
  {
    forall k | 0 <= k < |Activate(s)| ensures Activate(s)[k].name == CacheName {
      assert Activate(s)[k] in Activate(s);
    }
  }

  /** A page fetched with status 200 is served from the cache on the next,
      offline, fetch of the same URL, provided no older cache shadows it. */
  lemma RevalidatedPageServedOffline(s: Storage, req: Request, resp: Response)
    requires req.host != ApiHost && req.isGet && resp.status == 200
    requires DistinctNames(s)
    requires forall k :: 0 <= k < |s| && s[k].name != CacheName ==> req.url !in s[k].entries
    ensures Fetch(Fetch(s, req, NetOk(resp)).storage, req, NetFailed).reply == Serve(resp)
  {
    var withCache := Open(s, CacheName);
    var t := Put(withCache, CacheName, req.url, resp);
    assert Fetch(s, req, NetOk(resp)).storage == t;
    var c := FindCache(withCache, CacheName).value;
    assert t[c].entries[req.url] == resp;
    assert FindEntry(t, req.url) == Some(c) by {
      forall k | 0 <= k < c ensures req.url !in t[k].entries {
        assert t[k] == withCache[k] && withCache[k] == s[k];
      }
    }
  }

  /** The same, right after activation: old caches no longer shadow it. */
  lemma ActivatedPageServedOffline(s: Storage, req: Request, resp: Response)
    requires req.host != ApiHost && req.isGet && resp.status == 200
    requires DistinctNames(s)
    ensures Fetch(Fetch(Activate(s), req, NetOk(resp)).storage, req, NetFailed).reply == Serve(resp)
  {
    ActivateKeepsCurrentCache(s);
    ActivatedHoldsOnlyCurrent(s);
    RevalidatedPageServedOffline(Activate(s), req, resp);
  }

  /** A failed network and a 200 both leave API traffic out of every cache:
      whatever the API answers, storage is as it was. */
  lemma {:induction false} ApiTrafficNeverCached(s: Storage, reqs: seq<Request>, nets: seq<NetOutcome>)
    requires |reqs| == |nets|
    requires forall k :: 0 <= k < |reqs| ==> reqs[k].host == ApiHost
    ensures Replay(s, reqs, nets) == s
  {
    if |reqs| > 0 {
      ApiTrafficNeverCached(s, reqs[1..], nets[1..]);
    }
  }

  /** The storage after a series of fetches, oldest first. */
  function Replay(s: Storage, reqs: seq<Request>, nets: seq<NetOutcome>): Storage
    requires |reqs| == |nets|
    decreases |reqs|
  {
    if |reqs| == 0 then s
    else Replay(Fetch(s, reqs[0], nets[0]).storage, reqs[1..], nets[1..])
  }

  lemma StaticAssetsDistinct()
    ensures forall i, j :: 0 <= i < j < |StaticAssets| ==> StaticAssets[i] != StaticAssets[j]
  {
  }

  /** When every asset downloads, the app shell survives a later activation
      and each asset is served offline exactly as it was downloaded. */
  lemma InstalledAssetServedOffline(s: Storage, net: seq<NetOutcome>, i: nat, host: string)
    requires |net| == |StaticAssets| && i < |StaticAssets|
    requires forall k :: 0 <= k < |net| ==> net[k].NetOk? && Ok(net[k].response)
    requires DistinctNames(s) && host != ApiHost
    ensures var req := Request(StaticAssets[i], host, true);
      Fetch(Activate(Install(s, StaticAssets, net)), req, NetFailed).reply == Serve(net[i].response)
  {
    var installed := Install(s, StaticAssets, net);
    InstallStoresAsset(s, net, i);
    ActivatedEntryServedOffline(installed, FindCache(installed, CacheName).value, StaticAssets[i], host);
  }

  /** A fetch changes at most one entry: the fetched URL in the current
      cache. Every cache keeps its place and name, and every other entry of
      every cache is kept as it was. */
  lemma FetchKeepsOtherEntries(s: Storage, req: Request, net: NetOutcome)
    ensures var t := Fetch(s, req, net).storage;
      && |s| <= |t|
      && (forall k :: 0 <= k < |s| ==> t[k].name == s[k].name)
      && (forall k, u :: 0 <= k < |s| && u in s[k].entries && (s[k].name != CacheName || u != req.url) ==>
            u in t[k].entries && t[k].entries[u] == s[k].entries[u])
  {
    if req.host != ApiHost && net.NetOk? && net.response.status == 200 {
      var withCache := Open(s, CacheName);
      assert forall k :: 0 <= k < |s| ==> withCache[k] == withCache[..|s|][k] == s[k];
    }
  }

  /** A series of fetches of other URLs keeps an entry where it was, and
      keeps the names of the caches that were there. */
  lemma {:induction false} ReplayKeepsEntry(s: Storage, reqs: seq<Request>, nets: seq<NetOutcome>, k: nat, u: string)
    requires |reqs| == |nets| && k < |s| && u in s[k].entries
    requires forall j :: 0 <= j < |reqs| ==> reqs[j].url != u
    ensures var t := Replay(s, reqs, nets);
      k < |t| && t[k].name == s[k].name && u in t[k].entries && t[k].entries[u] == s[k].entries[u]
    decreases |reqs|
  {
    if |reqs| > 0 {
      FetchKeepsOtherEntries(s, reqs[0], nets[0]);
      var s' := Fetch(s, reqs[0], nets[0]).storage;
      assert forall j :: 0 <= j < |reqs[1..]| ==> reqs[1..][j] == reqs[j + 1];
      ReplayKeepsEntry(s', reqs[1..], nets[1..], k, u);
    }
  }

  /** Cache names stay distinct through any series of fetches. */
  lemma {:induction false} ReplayKeepsNamesDistinct(s: Storage, reqs: seq<Request>, nets: seq<NetOutcome>)
    requires |reqs| == |nets| && DistinctNames(s)
    ensures DistinctNames(Replay(s, reqs, nets))
    decreases |reqs|
  {
    if |reqs| > 0 {
      ReplayKeepsNamesDistinct(Fetch(s, reqs[0], nets[0]).storage, reqs[1..], nets[1..]);
    }
  }

  /** After activation, an entry of the current cache answers an offline GET
      of its URL. */
  lemma ActivatedEntryServedOffline(t: Storage, c: nat, u: string, host: string)
    requires DistinctNames(t) && c < |t| && t[c].name == CacheName && u in t[c].entries
    requires host != ApiHost
    ensures Fetch(Activate(t), Request(u, host, true), NetFailed).reply == Serve(t[c].entries[u])
  {
    ActivateKeepsCurrentCache(t);
    var first := FindCache(t, CacheName).value;
    assert first == c;
    var a := Activate(t);
    assert a == [t[c]];
    assert Match(a, Request(u, host, true)) == Some(t[c].entries[u]) by {
      assert FindEntry(a, u) == Some(0);
    }
  }

  /** A full install puts each asset, as downloaded, into the current cache. */
  lemma InstallStoresAsset(s: Storage, net: seq<NetOutcome>, i: nat)
    requires |net| == |StaticAssets| && i < |StaticAssets|
    requires forall k :: 0 <= k < |net| ==> net[k].NetOk? && Ok(net[k].response)
    ensures var installed := Install(s, StaticAssets, net);
      var c := FindCache(installed, CacheName).value;
      StaticAssets[i] in installed[c].entries && installed[c].entries[StaticAssets[i]] == net[i].response
  {
    var installed := Install(s, StaticAssets, net);
    var c := FindCache(installed, CacheName).value;
    var withCache := Open(s, CacheName);
    assert FindCache(withCache, CacheName).value == c;
    var m := AddAll(withCache[c].entries, StaticAssets, net);
    assert m.Some?;
    assert installed[c] == NamedCache(CacheName, m.value);
    StaticAssetsDistinct();
    assert StaticAssets[i] !in StaticAssets[i + 1..] by {
      forall j | i + 1 <= j < |StaticAssets| ensures StaticAssets[j] != StaticAssets[i] {
      }
    }
  }

  /** Browsing does not cost the app shell: after a full install, any series
      of fetches of other URLs, online or not and API or not, and a later
      activation, each asset is still served offline exactly as it was
      downloaded. */
  lemma InstalledAssetSurvivesBrowsing(s: Storage, net: seq<NetOutcome>, i: nat, reqs: seq<Request>,
                                       nets: seq<NetOutcome>, host: string)
    requires |net| == |StaticAssets| && i < |StaticAssets|
    requires forall k :: 0 <= k < |net| ==> net[k].NetOk? && Ok(net[k].response)
    requires DistinctNames(s) && host != ApiHost
    requires |reqs| == |nets| && forall j :: 0 <= j < |reqs| ==> reqs[j].url != StaticAssets[i]
    ensures var browsed := Replay(Install(s, StaticAssets, net), reqs, nets);
      Fetch(Activate(browsed), Request(StaticAssets[i], host, true), NetFailed).reply == Serve(net[i].response)
  {
    var installed := Install(s, StaticAssets, net);
    var c := FindCache(installed, CacheName).value;
    InstallStoresAsset(s, net, i);
    ReplayKeepsEntry(installed, reqs, nets, c, StaticAssets[i]);
    ReplayKeepsNamesDistinct(installed, reqs, nets);
    ActivatedEntryServedOffline(Replay(installed, reqs, nets), c, StaticAssets[i], host);
  }
}
