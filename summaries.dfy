/**
 * The read-only summaries server.js computes over the catalog: the
 * `/network/checkip` classification, the `/network/list` links and the
 * `/network/count` offset.
 */
module Summaries {
  import opened Wrappers
  import opened JsStrings
  import opened Catalog

  /** `details.ip && details.ip.trim() !== ''`: the entry carries a non-blank IP. */
  predicate HasIp(e: Entry) {
    e.item.ip.Some? && Trim(e.item.ip.value) != ""
  }

  // ---------------------------------------------------------------- /network/checkip

  /** The entries of the catalog that carry an IP, in catalog order. */
  function WithIp(c: seq<Slot>): (r: seq<Entry>)
    ensures |r| <= |c|
    decreases |c|
  {
    if c == [] then []
    else WithIp(c[..|c| - 1]) + (if HasIp(c[|c| - 1].entry) then [c[|c| - 1].entry] else [])
  }

  /** The entries of the catalog without an IP, in catalog order. */
  function WithoutIp(c: seq<Slot>): (r: seq<Entry>)
    ensures |r| <= |c|
    decreases |c|
  {
    if c == [] then []
    else WithoutIp(c[..|c| - 1]) + (if HasIp(c[|c| - 1].entry) then [] else [c[|c| - 1].entry])
  }

  function ConfigNames(es: seq<Entry>): (r: seq<string>)
    ensures |r| == |es| && forall i :: 0 <= i < |es| ==> r[i] == es[i].item.configName
  {
    seq(|es|, i requires 0 <= i < |es| => es[i].item.configName)
  }

  /** Every slot lands in exactly one of the two classes. */
  lemma {:induction false} CheckIpPartition(c: seq<Slot>)
    ensures |WithIp(c)| + |WithoutIp(c)| == |c|
    decreases |c|
  {
    if c != [] {
      CheckIpPartition(c[..|c| - 1]);
    }
  }

  predicate Holds(c: seq<Slot>, e: Entry) {
    exists i :: 0 <= i < |c| && c[i].entry == e
  }

  lemma {:induction false} HoldsSnoc(c: seq<Slot>, e: Entry)
    requires c != []
    ensures Holds(c, e) <==> Holds(c[..|c| - 1], e) || c[|c| - 1].entry == e
  {
    var init := c[..|c| - 1];
    if Holds(init, e) {
      var i :| 0 <= i < |init| && init[i].entry == e;
      assert c[i].entry == e;
    }
    if Holds(c, e) {
      var i :| 0 <= i < |c| && c[i].entry == e;
      if i < |init| {
        assert init[i].entry == e;
      }
    }
  }

  /** An entry is counted as valid exactly when some slot holds it and it carries an IP. */
  lemma {:induction false} WithIpMembers(c: seq<Slot>, e: Entry)
    ensures e in WithIp(c) <==> HasIp(e) && Holds(c, e)
    decreases |c|
  {
    if c != [] {
      WithIpMembers(c[..|c| - 1], e);
      HoldsSnoc(c, e);
    }
  }

  /** An entry is listed as invalid exactly when some slot holds it and it carries no IP. */
  lemma {:induction false} WithoutIpMembers(c: seq<Slot>, e: Entry)
    ensures e in WithoutIp(c) <==> !HasIp(e) && Holds(c, e)
    decreases |c|
  {
    if c != [] {
      WithoutIpMembers(c[..|c| - 1], e);
      HoldsSnoc(c, e);
    }
  }

  /** The `/network/checkip` reply body. */
  datatype IpSummary = IpSummary(validConfig: nat, invalidCount: nat, configNames: seq<string>)

  /**
   * `/network/checkip`: "No data available." on an empty catalog; otherwise
   * the number of entries with an IP, and the count and configNames of the
   * others, in catalog order.
   */
  method CheckIp(awsData: seq<Slot>) returns (r: Result<IpSummary, string>)
    ensures awsData == [] <==> r == Err("No data available.")
    ensures r.Ok? ==> && r.value.validConfig == |WithIp(awsData)|
                      && r.value.invalidCount == |WithoutIp(awsData)|
                      && r.value.configNames == ConfigNames(WithoutIp(awsData))
                      && r.value.validConfig + r.value.invalidCount == |awsData|
  {
    if |awsData| == 0 {
      return Err("No data available.");
    }
    var entriesWithIp: seq<Entry> := [];
    var entriesWithoutIp: seq<Entry> := [];
    for i := 0 to |awsData|
      invariant entriesWithIp == WithIp(awsData[..i])
      invariant entriesWithoutIp == WithoutIp(awsData[..i])
    {
      assert awsData[..i + 1][..i] == awsData[..i];
      var details := awsData[i].entry;
      if details.item.ip.Some? && Trim(details.item.ip.value) != "" {
        entriesWithIp := entriesWithIp + [details];
      } else {
        entriesWithoutIp := entriesWithoutIp + [details];
      }
    }
    assert awsData[..|awsData|] == awsData;
    CheckIpPartition(awsData);
    r := Ok(IpSummary(|entriesWithIp|, |entriesWithoutIp|, ConfigNames(entriesWithoutIp)));
  }

  // ---------------------------------------------------------------- /network/list

  /**
   * The `validate` field, `link.ip && link.ip.trim() !== ''`, which yields
   * the first falsy operand: the missing IP itself, the empty string, or the
   * boolean comparison.
   */
  datatype Validate = Missing | EmptyText | Flag(b: bool)

  function ValidateOf(ip: Option<string>): Validate {
    match ip
    case None => Missing
    case Some(s) => if s == "" then EmptyText else Flag(Trim(s) != "")
  }

  predicate Truthy(v: Validate) {
    v == Flag(true)
  }

  /** One element of the `/network/list` reply. */
  datatype Link = Link(configName: string, url: string, validate: Validate)

  datatype ListReply = Links(links: seq<Link>) | EmptyMessage

  function LinkOf(s: Slot): Link {
    Link(s.entry.item.configName, s.entry.newip, ValidateOf(s.entry.item.ip))
  }

  /**
   * `/network/list`: one link per slot, in catalog order, naming its
   * rotation URL and whether it carries an IP; the "empty" message when the
   * catalog is empty.
   */
  function ListLinks(awsData: seq<Slot>): (r: ListReply)
    ensures awsData == [] <==> r == EmptyMessage
    ensures r.Links? ==> && |r.links| == |awsData|
                         && forall i :: 0 <= i < |awsData| ==>
                              && r.links[i].configName == awsData[i].entry.item.configName
                              && r.links[i].url == awsData[i].entry.newip
                              && (Truthy(r.links[i].validate) <==> HasIp(awsData[i].entry))
  {
    if awsData == [] then EmptyMessage
    else Links(seq(|awsData|, i requires 0 <= i < |awsData| => LinkOf(awsData[i])))
  }

  function CountTruthy(links: seq<Link>): nat
    decreases |links|
  {
    if links == [] then 0
    else CountTruthy(links[..|links| - 1]) + (if Truthy(links[|links| - 1].validate) then 1 else 0)
  }

  /** Over any prefix, links that are truthy exactly where the slots carry an IP count as many as the entries with an IP. */
  lemma {:induction false} CountTruthyMatches(links: seq<Link>, c: seq<Slot>, n: nat)
    requires |links| == |c| && n <= |c|
    requires forall i :: 0 <= i < |c| ==> (Truthy(links[i].validate) <==> HasIp(c[i].entry))
    ensures CountTruthy(links[..n]) == |WithIp(c[..n])|
  {
    if n > 0 {
      CountTruthyMatches(links, c, n - 1);
      assert links[..n][..n - 1] == links[..n - 1];
      assert c[..n][..n - 1] == c[..n - 1];
    }
  }

  /** The links `/network/list` marks as validated are exactly the entries `/network/checkip` counts as valid. */
  lemma {:induction false} ListAgreesWithCheckIp(awsData: seq<Slot>)
    requires awsData != []
    ensures CountTruthy(ListLinks(awsData).links) == |WithIp(awsData)|
  {
    var links := ListLinks(awsData).links;
    CountTruthyMatches(links, awsData, |awsData|);
    assert links[..|awsData|] == links && awsData[..|awsData|] == awsData;
  }

  // ---------------------------------------------------------------- /network/count

  /** `/network/count`: `parseInt(number) - 1080`, or "Invalid number provided." on NaN. */
  function Count(number: string): (r: Result<int, string>)
    ensures ParseInt(number).None? <==> r == Err("Invalid number provided.")
    ensures r.Ok? ==> ParseInt(number) == Some(r.value + 1080)
  {
    match ParseInt(number)
    case None => Err("Invalid number provided.")
    case Some(n) => Ok(n - 1080)
  }

  /** Counting the decimal form of `n + 1080` gives back `n`. */
  lemma {:induction false} CountOffset(n: int)
    ensures Count(IntToString(n + 1080)) == Ok(n)
  {
    ParseIntToString(n + 1080);
  }
}
