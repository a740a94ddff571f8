/**
 * The aggregated catalog `awsData` of server.js and the merge that a sweep of
 * `processCommandCheck` performs on it. The catalog is a sequence of
 * single-key slots `{ [configName]: entry }`; a report for a key already in
 * the catalog overwrites that slot in place, a new key is appended, and
 * nothing is ever removed.
 */
module Catalog {
  import opened Wrappers

  /** One configuration as a router reports it in `result.aws`; `ip` is `None` when absent or null. */
  datatype ConfigItem = ConfigItem(configName: string, ip: Option<string>, fields: map<string, string>)

  /** The catalog entry `{ ...item, host: ip, newip: url }`. */
  datatype Entry = Entry(item: ConfigItem, host: string, newip: string)

  /** One element of `awsData`: the single-key object `{ [key]: entry }`. */
  datatype Slot = Slot(key: string, entry: Entry)

  /**
   * What one host's checkConfig request yields: `Unreachable` when the request
   * throws or the reply has no `result.aws` array, otherwise the reported items.
   */
  datatype HostReply = Unreachable | Report(items: seq<ConfigItem>)

  /** The checkConfig URL the sweep polls for host `ip`. */
  function CheckConfigUrl(ip: string): string {
    "http://" + ip + ":3000/gt/checkConfig"
  }

  /** The rotation URL stored in an entry's `newip`. */
  function NewIpUrl(ip: string, configName: string): string {
    "http://" + ip + ":3000/gt/newip?configName=" + configName
  }

  /** `itemWithHost`: the reported item annotated with its host and its rotation URL. */
  function Annotate(item: ConfigItem, ip: string): Entry {
    Entry(item, ip, NewIpUrl(ip, item.configName))
  }

  /** The slot a reported item is stored under. */
  function SlotOf(item: ConfigItem, ip: string): Slot {
    Slot(item.configName, Annotate(item, ip))
  }

  // ---------------------------------------------------------------- keyed access

  function Keys(c: seq<Slot>): (ks: seq<string>)
    ensures |ks| == |c| && forall i :: 0 <= i < |c| ==> ks[i] == c[i].key
  {
    seq(|c|, i requires 0 <= i < |c| => c[i].key)
  }

  /** Each configName keys at most one slot. */
  predicate KeysUnique(c: seq<Slot>) {
    forall i, j :: 0 <= i < j < |c| ==> c[i].key != c[j].key
  }

  /** `awsData.findIndex(d => d[key])`: the first slot holding `key`, or -1. */
  function FindIndex(c: seq<Slot>, key: string): (r: int)
    ensures -1 <= r < |c|
    ensures r == -1 <==> forall i :: 0 <= i < |c| ==> c[i].key != key
    ensures r >= 0 ==> c[r].key == key && forall i :: 0 <= i < r ==> c[i].key != key
  {
    if c == [] then -1
    else if c[0].key == key then 0
    else
      var r := FindIndex(c[1..], key);
      if r == -1 then -1 else r + 1
  }

  /** `awsData.find(data => data[key])[key]`: the entry stored under `key`, if any. */
  function Lookup(c: seq<Slot>, key: string): Option<Entry> {
    var i := FindIndex(c, key);
    if i == -1 then None else Some(c[i].entry)
  }

  lemma {:induction false} LookupFound(c: seq<Slot>, i: nat)
    requires KeysUnique(c) && i < |c|
    ensures Lookup(c, c[i].key) == Some(c[i].entry)
  {
    FindIndexIs(c, c[i].key, i);
  }

  /** findIndex is determined by where the key first occurs. */
  lemma {:induction false} FindIndexIs(c: seq<Slot>, k: string, j: int)
    requires -1 <= j < |c|
    requires j == -1 ==> forall m :: 0 <= m < |c| ==> c[m].key != k
    requires j >= 0 ==> c[j].key == k && forall m :: 0 <= m < j ==> c[m].key != k
    ensures FindIndex(c, k) == j
  {
  }

  // ---------------------------------------------------------------- one upsert

  /** One step of the inner `forEach`: overwrite the slot for `s.key` in place, or append `s`. */
  function Upsert(c: seq<Slot>, s: Slot): seq<Slot> {
    var i := FindIndex(c, s.key);
    if i >= 0 then c[i := s] else c + [s]
  }

  /** An upsert stores to its key and leaves every other key's entry alone. */
  lemma {:induction false} UpsertLookup(c: seq<Slot>, s: Slot)
    ensures Lookup(Upsert(c, s), s.key) == Some(s.entry)
    ensures forall k :: k != s.key ==> Lookup(Upsert(c, s), k) == Lookup(c, k)
  {
    var r := Upsert(c, s);
    var i := FindIndex(c, s.key);
    FindIndexIs(r, s.key, if i >= 0 then i else |c|);
    forall k | k != s.key ensures Lookup(r, k) == Lookup(c, k) {
      var j := FindIndex(c, k);
      if j == -1 && i == -1 {
        FindIndexIs(r, k, -1);
      } else {
        FindIndexIs(r, k, j);
      }
    }
  }

  /** An upsert appends exactly when the key is new, and keeps old keys in place. */
  lemma {:induction false} UpsertShape(c: seq<Slot>, s: Slot)
    ensures var r := Upsert(c, s);
            && |c| <= |r| <= |c| + 1
            && (|r| == |c| + 1 <==> Lookup(c, s.key) == None)
            && (|r| == |c| + 1 ==> r[|c|] == s)
            && (forall i :: 0 <= i < |c| ==> r[i].key == c[i].key)
            && (forall i :: 0 <= i < |c| && c[i].key != s.key ==> r[i] == c[i])
  {
  }

  /** An upsert keeps keys unique. */
  lemma {:induction false} UpsertUnique(c: seq<Slot>, s: Slot)
    requires KeysUnique(c)
    ensures KeysUnique(Upsert(c, s))
  {
  }

  /** An upsert stores to its key, leaves every other key's entry alone, and keeps old keys in place. */
  lemma {:induction false} UpsertSpec(c: seq<Slot>, s: Slot)
    ensures var r := Upsert(c, s);
            && Lookup(r, s.key) == Some(s.entry)
            && (forall k :: k != s.key ==> Lookup(r, k) == Lookup(c, k))
            && |c| <= |r| <= |c| + 1
            && (|r| == |c| + 1 <==> Lookup(c, s.key) == None)
            && (|r| == |c| + 1 ==> r[|c|] == s)
            && (forall i :: 0 <= i < |c| ==> r[i].key == c[i].key)
            && (forall i :: 0 <= i < |c| && c[i].key != s.key ==> r[i] == c[i])
            && (KeysUnique(c) ==> KeysUnique(r))
  {
    UpsertLookup(c, s);
    UpsertShape(c, s);
    if KeysUnique(c) {
      UpsertUnique(c, s);
    }
  }

  // ---------------------------------------------------------------- one host, one sweep

  /** `awsResult.forEach(...)` for the items reported by host `ip`, in report order. */
  function MergeItems(c: seq<Slot>, ip: string, items: seq<ConfigItem>): seq<Slot>
    decreases |items|
  {
    if items == [] then c
    else Upsert(MergeItems(c, ip, items[..|items| - 1]), SlotOf(items[|items| - 1], ip))
  }

  /** What visiting one host does to the catalog: an unreachable host changes nothing. */
  function MergeReply(c: seq<Slot>, ip: string, reply: HostReply): seq<Slot> {
    match reply
    case Unreachable => c
    case Report(items) => MergeItems(c, ip, items)
  }

  /**
   * The catalog after visiting `hosts` in order, where `poll(url)` is the reply
   * to the checkConfig request for `url`.
   */
  function Sweep(c: seq<Slot>, hosts: seq<string>, poll: string -> HostReply): seq<Slot>
    decreases |hosts|
  {
    if hosts == [] then c
    else
      var ip := hosts[|hosts| - 1];
      MergeReply(Sweep(c, hosts[..|hosts| - 1], poll), ip, poll(CheckConfigUrl(ip)))
  }

  /** Visiting host `h` after the first `h` hosts. */
  lemma {:induction false} SweepStep(c: seq<Slot>, hosts: seq<string>, h: nat, poll: string -> HostReply)
    requires h < |hosts|
    ensures Sweep(c, hosts[..h + 1], poll) == MergeReply(Sweep(c, hosts[..h], poll), hosts[h], poll(CheckConfigUrl(hosts[h])))
  {
    assert hosts[..h + 1][..h] == hosts[..h];
  }

  // ---------------------------------------------------------------- last write wins: the reference

  /** The entry the last item of `items` named `k` produces, if any. */
  function LastIn(ip: string, items: seq<ConfigItem>, k: string): Option<Entry>
    decreases |items|
  {
    if items == [] then None
    else if items[|items| - 1].configName == k then Some(Annotate(items[|items| - 1], ip))
    else LastIn(ip, items[..|items| - 1], k)
  }

  function LastInReply(ip: string, reply: HostReply, k: string): Option<Entry> {
    match reply
    case Unreachable => None
    case Report(items) => LastIn(ip, items, k)
  }

  /** The entry for `k` written last in host-iteration order, then item order, during a sweep. */
  function LastReport(hosts: seq<string>, poll: string -> HostReply, k: string): Option<Entry>
    decreases |hosts|
  {
    if hosts == [] then None
    else
      var ip := hosts[|hosts| - 1];
      match LastInReply(ip, poll(CheckConfigUrl(ip)), k)
      case Some(e) => Some(e)
      case None => LastReport(hosts[..|hosts| - 1], poll, k)
  }

  /** A last report is the annotated form of an item that a visited, reachable host reported under `k`. */
  lemma {:induction false} LastReportShape(hosts: seq<string>, poll: string -> HostReply, k: string)
    requires LastReport(hosts, poll, k).Some?
    ensures var e := LastReport(hosts, poll, k).value;
            && e.host in hosts && e.item.configName == k
            && e.newip == NewIpUrl(e.host, k)
            && poll(CheckConfigUrl(e.host)).Report?
            && e.item in poll(CheckConfigUrl(e.host)).items
    decreases |hosts|
  {
    var ip := hosts[|hosts| - 1];
    var reply := poll(CheckConfigUrl(ip));
    if LastInReply(ip, reply, k).Some? {
      LastInShape(ip, reply.items, k);
    } else {
      LastReportShape(hosts[..|hosts| - 1], poll, k);
    }
  }

  lemma {:induction false} LastInShape(ip: string, items: seq<ConfigItem>, k: string)
    requires LastIn(ip, items, k).Some?
    ensures LastIn(ip, items, k).value.host == ip
    ensures LastIn(ip, items, k).value.item in items
    ensures LastIn(ip, items, k).value.item.configName == k
    ensures LastIn(ip, items, k).value.newip == NewIpUrl(ip, k)
    decreases |items|
  {
    if items[|items| - 1].configName != k {
      LastInShape(ip, items[..|items| - 1], k);
    }
  }

  // ---------------------------------------------------------------- what a sweep does

  lemma {:induction false} MergeItemsLookup(c: seq<Slot>, ip: string, items: seq<ConfigItem>, k: string)
    ensures Lookup(MergeItems(c, ip, items), k) ==
            if LastIn(ip, items, k).Some? then LastIn(ip, items, k) else Lookup(c, k)
    decreases |items|
  {
    if items != [] {
      var init := items[..|items| - 1];
      MergeItemsLookup(c, ip, init, k);
      UpsertSpec(MergeItems(c, ip, init), SlotOf(items[|items| - 1], ip));
    }
  }

  /**
   * Last write wins, no pruning: after a sweep, the entry for a key is the
   * last one reported for it in host-iteration order; a key nobody reported
   * keeps the entry it had before the sweep.
   */
  lemma {:induction false} SweepLookup(c: seq<Slot>, hosts: seq<string>, poll: string -> HostReply, k: string)
    ensures Lookup(Sweep(c, hosts, poll), k) ==
            if LastReport(hosts, poll, k).Some? then LastReport(hosts, poll, k) else Lookup(c, k)
    decreases |hosts|
  {
    if hosts != [] {
      var init := hosts[..|hosts| - 1];
      var ip := hosts[|hosts| - 1];
      SweepLookup(c, init, poll, k);
      match poll(CheckConfigUrl(ip))
      case Unreachable =>
      case Report(items) =>
        MergeItemsLookup(Sweep(c, init, poll), ip, items, k);
    }
  }

  lemma {:induction false} MergeItemsShape(c: seq<Slot>, ip: string, items: seq<ConfigItem>)
    ensures var r := MergeItems(c, ip, items);
            && |c| <= |r|
            && (forall i :: 0 <= i < |c| ==> r[i].key == c[i].key)
            && (KeysUnique(c) ==> KeysUnique(r))
    decreases |items|
  {
    if items != [] {
      var init := items[..|items| - 1];
      MergeItemsShape(c, ip, init);
      UpsertSpec(MergeItems(c, ip, init), SlotOf(items[|items| - 1], ip));
    }
  }

  /**
   * A sweep never removes or moves a slot: the old slots keep their keys at
   * their positions, new keys are appended after them, and keys stay unique.
   */
  lemma {:induction false} SweepShape(c: seq<Slot>, hosts: seq<string>, poll: string -> HostReply)
    ensures var r := Sweep(c, hosts, poll);
            && |c| <= |r|
            && (forall i :: 0 <= i < |c| ==> r[i].key == c[i].key)
            && (KeysUnique(c) ==> KeysUnique(r))
    decreases |hosts|
  {
    if hosts != [] {
      var init := hosts[..|hosts| - 1];
      var ip := hosts[|hosts| - 1];
      SweepShape(c, init, poll);
      match poll(CheckConfigUrl(ip))
      case Unreachable =>
      case Report(items) =>
        MergeItemsShape(Sweep(c, init, poll), ip, items);
    }
  }

  /**
   * Every slot after a sweep holds the last report for its key, or, if no
   * host reported that key, is an unchanged slot from before the sweep.
   * The appended slots are exactly the keys that were new.
   */
  lemma {:induction false} SweepSlots(c: seq<Slot>, hosts: seq<string>, poll: string -> HostReply)
    requires KeysUnique(c)
    ensures var r := Sweep(c, hosts, poll);
            && KeysUnique(r)
            && (forall i :: 0 <= i < |r| && LastReport(hosts, poll, r[i].key).Some? ==>
                  r[i].entry == LastReport(hosts, poll, r[i].key).value)
            && (forall i :: 0 <= i < |r| && LastReport(hosts, poll, r[i].key).None? ==>
                  i < |c| && r[i] == c[i])
            && (forall i :: |c| <= i < |r| ==> r[i].key !in Keys(c))
  {
    var r := Sweep(c, hosts, poll);
    SweepShape(c, hosts, poll);
    forall i | 0 <= i < |r|
      ensures LastReport(hosts, poll, r[i].key).Some? ==> r[i].entry == LastReport(hosts, poll, r[i].key).value
      ensures LastReport(hosts, poll, r[i].key).None? ==> i < |c| && r[i] == c[i]
    {
      var k := r[i].key;
      SweepLookup(c, hosts, poll, k);
      LookupFound(r, i);
      if LastReport(hosts, poll, k).None? {
        var j := FindIndex(c, k);
        assert j >= 0;
        LookupFound(c, j);
        assert r[j].key == k;
        assert j == i;
      }
    }
    forall i | |c| <= i < |r| ensures r[i].key !in Keys(c) {
      assert forall j :: 0 <= j < |c| ==> r[j].key != r[i].key;
    }
  }

  // ---------------------------------------------------------------- the order of the keys

  /** A key list after seeing `k`: unchanged if `k` is already listed, otherwise `k` goes last. */
  function AddKey(ks: seq<string>, k: string): seq<string> {
    if k in ks then ks else ks + [k]
  }

  /** The key list after seeing the names of `items` in report order. */
  function AddNames(ks: seq<string>, items: seq<ConfigItem>): seq<string>
    decreases |items|
  {
    if items == [] then ks
    else AddKey(AddNames(ks, items[..|items| - 1]), items[|items| - 1].configName)
  }

  /** The key list after the names every reachable host reports, in host order. */
  function SweepKeys(ks: seq<string>, hosts: seq<string>, poll: string -> HostReply): seq<string>
    decreases |hosts|
  {
    if hosts == [] then ks
    else
      var prev := SweepKeys(ks, hosts[..|hosts| - 1], poll);
      match poll(CheckConfigUrl(hosts[|hosts| - 1]))
      case Unreachable => prev
      case Report(items) => AddNames(prev, items)
  }

  /** An upsert lists its key last exactly when the key was not yet in the catalog. */
  lemma {:induction false} UpsertKeys(c: seq<Slot>, s: Slot)
    ensures Keys(Upsert(c, s)) == AddKey(Keys(c), s.key)
  {
    var i := FindIndex(c, s.key);
    assert s.key in Keys(c) <==> i >= 0 by {
      if s.key in Keys(c) {
        var j :| 0 <= j < |c| && Keys(c)[j] == s.key;
        assert c[j].key == s.key;
      }
    }
  }

  lemma {:induction false} MergeItemsKeys(c: seq<Slot>, ip: string, items: seq<ConfigItem>)
    ensures Keys(MergeItems(c, ip, items)) == AddNames(Keys(c), items)
    decreases |items|
  {
    if items != [] {
      var init := items[..|items| - 1];
      MergeItemsKeys(c, ip, init);
      UpsertKeys(MergeItems(c, ip, init), SlotOf(items[|items| - 1], ip));
    }
  }

  /**
   * The keys after a sweep, in order: the old keys where they were, then each
   * key no slot held yet, in the order the sweep first meets it.
   */
  lemma {:induction false} SweepKeyOrder(c: seq<Slot>, hosts: seq<string>, poll: string -> HostReply)
    ensures Keys(Sweep(c, hosts, poll)) == SweepKeys(Keys(c), hosts, poll)
    decreases |hosts|
  {
    if hosts != [] {
      var init := hosts[..|hosts| - 1];
      SweepKeyOrder(c, init, poll);
      match poll(CheckConfigUrl(hosts[|hosts| - 1]))
      case Unreachable =>
      case Report(items) =>
        MergeItemsKeys(Sweep(c, init, poll), hosts[|hosts| - 1], items);
    }
  }

  /** `r` is `ks` followed by distinct keys that `ks` does not hold. */
  predicate Extends(ks: seq<string>, r: seq<string>) {
    && |ks| <= |r| && r[..|ks|] == ks
    && (forall i :: |ks| <= i < |r| ==> r[i] !in ks)
    && (forall i, j :: |ks| <= i < j < |r| ==> r[i] != r[j])
  }

  /** The reference key list only ever appends, each key at most once. */
  lemma {:induction false} SweepKeysAppends(ks: seq<string>, hosts: seq<string>, poll: string -> HostReply)
    ensures Extends(ks, SweepKeys(ks, hosts, poll))
    decreases |hosts|
  {
    if hosts != [] {
      var init := hosts[..|hosts| - 1];
      SweepKeysAppends(ks, init, poll);
      match poll(CheckConfigUrl(hosts[|hosts| - 1]))
      case Unreachable =>
      case Report(items) =>
        AddNamesAppends(ks, SweepKeys(ks, init, poll), items);
    }
  }

  lemma {:induction false} AddNamesAppends(ks: seq<string>, p: seq<string>, items: seq<ConfigItem>)
    requires Extends(ks, p)
    ensures Extends(ks, AddNames(p, items))
    decreases |items|
  {
    if items != [] {
      var init := items[..|items| - 1];
      AddNamesAppends(ks, p, init);
    }
  }

  /** A sweep whose every host is unreachable leaves the catalog as it was. */
  lemma {:induction false} SweepUnreachable(c: seq<Slot>, hosts: seq<string>, poll: string -> HostReply)
    requires forall h :: h in hosts ==> poll(CheckConfigUrl(h)) == Unreachable
    ensures Sweep(c, hosts, poll) == c
    decreases |hosts|
  {
    if hosts != [] {
      SweepUnreachable(c, hosts[..|hosts| - 1], poll);
    }
  }
}
