/**
 * The server's mutable state, the two module-level arrays of server.js
 * (`routerIp` and `awsData`), and the handlers that change it.
 *
 * The environment is passed in: `routerFile` is the content of router.txt
 * (`None` when it cannot be read), `poll` answers each checkConfig URL, and
 * `net` is the stream of rotation outcomes.
 */
module ServerState {
  import opened Wrappers
  import opened RouterHosts
  import opened Catalog
  import opened Rotation
  import opened Summaries

  /** The router list after a `processCommandCheck`: loaded from the file only when empty. */
  function RoutersAfterCheck(routerIp: seq<string>, routerFile: Option<string>): seq<string> {
    if routerIp == [] && routerFile.Some? then HostLines(routerFile.value) else routerIp
  }

  /** The catalog after a `processCommandCheck` with router list `routers`: a sweep, or nothing when there is no router. */
  function CatalogAfterCheck(awsData: seq<Slot>, routers: seq<string>, poll: string -> HostReply): seq<Slot> {
    if routers == [] then awsData else Sweep(awsData, ValidDistinct(routers), poll)
  }

  class Server {
    var awsData: seq<Slot>
    var routerIp: seq<string>

    /** Startup: the router file is read before the server listens; the catalog starts empty. */
    constructor (routerFile: string)
      ensures routerIp == HostLines(routerFile) && awsData == []
    {
      awsData := [];
      routerIp := HostLines(routerFile);
    }

    /** `loadRouterIps`: replace the router list by the file's non-blank trimmed lines; a read error changes nothing. */
    method LoadRouterIps(routerFile: Option<string>) returns (loaded: bool)
      modifies this
      ensures loaded <==> routerFile.Some?
      ensures routerIp == if routerFile.Some? then HostLines(routerFile.value) else old(routerIp)
      ensures awsData == old(awsData)
    {
      if routerFile.None? {
        return false;
      }
      routerIp := HostLines(routerFile.value);
      return true;
    }

    /**
     * `processCommandCheck`: load the routers if there are none, then poll
     * every valid distinct router once, in first-occurrence order, and merge
     * its report into the catalog item by item. A catalog slot is never
     * removed or moved, and only grows.
     */
    method ProcessCommandCheck(routerFile: Option<string>, poll: string -> HostReply)
      modifies this
      ensures routerIp == RoutersAfterCheck(old(routerIp), routerFile)
      ensures awsData == CatalogAfterCheck(old(awsData), routerIp, poll)
      ensures |old(awsData)| <= |awsData|
      ensures forall i :: 0 <= i < |old(awsData)| ==> awsData[i].key == old(awsData)[i].key
    {
      if |routerIp| == 0 {
        var loaded := LoadRouterIps(routerFile);
        if !loaded {
          return;
        }
      }
      if |routerIp| == 0 {
        return;
      }
      var hosts := CollectHosts(routerIp);
      ghost var c0 := awsData;
      ghost var r0 := routerIp;
      for h := 0 to |hosts|
        invariant awsData == Sweep(c0, hosts[..h], poll)
        invariant routerIp == r0
      {
        var ip := hosts[h];
        var reply := poll(CheckConfigUrl(ip));
        SweepStep(c0, hosts, h, poll);
        if reply.Report? {
          MergeReport(ip, reply.items);
        }
      }
      assert hosts[..|hosts|] == hosts;
      SweepShape(c0, hosts, poll);
    }

    /** The inner `awsResult.forEach`: upsert each reported item, annotated with its host, in report order. */
    method MergeReport(ip: string, awsResult: seq<ConfigItem>)
      modifies this
      ensures awsData == MergeItems(old(awsData), ip, awsResult)
      ensures routerIp == old(routerIp)
    {
      for j := 0 to |awsResult|
        invariant awsData == MergeItems(old(awsData), ip, awsResult[..j])
        invariant routerIp == old(routerIp)
      {
        var item := awsResult[j];
        var key := item.configName;
        var itemWithHost := Annotate(item, ip);
        var existingIndex := FindIndex(awsData, key);
        if existingIndex != -1 {
          awsData := awsData[existingIndex := Slot(key, itemWithHost)];
        } else {
          awsData := awsData + [Slot(key, itemWithHost)];
        }
        assert awsResult[..j + 1][..j] == awsResult[..j];
      }
      assert awsResult[..|awsResult|] == awsResult;
    }

    /**
     * `/network/ck`: sweep first only when the catalog is empty, then run
     * the selection on the resulting catalog.
     */
    method Ck(linkSpec: string, routerFile: Option<string>, poll: string -> HostReply, net: seq<Attempt>)
      returns (run: Run)
      modifies this
      ensures old(awsData) != [] ==> awsData == old(awsData) && routerIp == old(routerIp)
      ensures old(awsData) == [] ==>
                && routerIp == RoutersAfterCheck(old(routerIp), routerFile)
                && awsData == CatalogAfterCheck(old(awsData), routerIp, poll)
      ensures run == RunSelection(awsData, linkSpec, net)
    {
      if |awsData| == 0 {
        ProcessCommandCheck(routerFile, poll);
      }
      run := Dispatch(awsData, linkSpec, net);
    }

    /** `/network/list`: sweep first only when the catalog is empty, then list its links. */
    method List(routerFile: Option<string>, poll: string -> HostReply) returns (reply: ListReply)
      modifies this
      ensures old(awsData) != [] ==> awsData == old(awsData) && routerIp == old(routerIp)
      ensures old(awsData) == [] ==>
                && routerIp == RoutersAfterCheck(old(routerIp), routerFile)
                && awsData == CatalogAfterCheck(old(awsData), routerIp, poll)
      ensures reply == ListLinks(awsData)
    {
      if |awsData| == 0 {
        ProcessCommandCheck(routerFile, poll);
      }
      reply := ListLinks(awsData);
    }

    /**
     * `/network/reload`: always sweeps, and always reports success, because
     * `processCommandCheck` catches every error itself.
     */
    method Reload(routerFile: Option<string>, poll: string -> HostReply) returns (message: string)
      modifies this
      ensures routerIp == RoutersAfterCheck(old(routerIp), routerFile)
      ensures awsData == CatalogAfterCheck(old(awsData), routerIp, poll)
      ensures message == "Config reloaded successfully."
    {
      ProcessCommandCheck(routerFile, poll);
      message := "Config reloaded successfully.";
    }

    /** `/network/checkip` on the current catalog; it never sweeps. */
    method CheckIpHandler() returns (r: Result<IpSummary, string>)
      ensures awsData == [] <==> r == Err("No data available.")
      ensures r.Ok? ==> && r.value.validConfig == |WithIp(awsData)|
                        && r.value.invalidCount == |WithoutIp(awsData)|
                        && r.value.configNames == ConfigNames(WithoutIp(awsData))
    {
      r := CheckIp(awsData);
    }
  }

  /** A `processCommandCheck` with a non-empty router list never loses a key the catalog had. */
  lemma {:induction false} CheckKeepsKeys(awsData: seq<Slot>, routers: seq<string>, poll: string -> HostReply, k: string)
    requires Lookup(awsData, k).Some?
    ensures Lookup(CatalogAfterCheck(awsData, routers, poll), k).Some?
  {
    if routers != [] {
      SweepLookup(awsData, ValidDistinct(routers), poll, k);
    }
  }

  /** After a check, a key is present exactly when it was before or a valid router reported it. */
  lemma {:induction false} CheckKeys(awsData: seq<Slot>, routers: seq<string>, poll: string -> HostReply, k: string)
    requires routers != []
    ensures Lookup(CatalogAfterCheck(awsData, routers, poll), k).Some? <==>
            Lookup(awsData, k).Some? || LastReport(ValidDistinct(routers), poll, k).Some?
  {
    SweepLookup(awsData, ValidDistinct(routers), poll, k);
  }
}
