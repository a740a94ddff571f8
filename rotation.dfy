/**
 * IP rotation in server.js: the acceptance loop `fetchAndEditJson`, the
 * selection parser `parseLinkSpec`, the three selection modes and the
 * `/network/ck` dispatch.
 *
 * The rotation endpoint is an oracle: `net` is the sequence of outcomes that
 * the successive rotation requests receive, in order, whichever URL each is
 * sent to. The source retries forever; here a run that exhausts `net` without
 * an accepted answer ends in `StillRetrying`, which stands for "the source is
 * still looping".
 */
module Rotation {
  import opened Wrappers
  import opened Seqs
  import opened JsStrings
  import opened Catalog

  // ---------------------------------------------------------------- the acceptance loop

  /** The body of a rotation reply: `success`, `result.newIp` (`None` when missing) and `executionTime`. */
  datatype RotationReply = RotationReply(success: bool, newIp: Option<string>, executionTime: string)

  /** What one rotation request yields: a thrown request, or a reply body. */
  datatype Attempt = RequestError | Answer(data: RotationReply)

  /** The address prefixes a new IP must start with. */
  predicate Whitelisted(ip: string) {
    || StartsWith(ip, "13.") || StartsWith(ip, "18.") || StartsWith(ip, "35.")
    || StartsWith(ip, "99.") || StartsWith(ip, "100.")
  }

  /** The reply is returned: `success` holds and the new IP has a whitelisted prefix. */
  predicate Accepted(a: Attempt) {
    a.Answer? && a.data.success && a.data.newIp.Some? && Whitelisted(a.data.newIp.value)
  }

  /**
   * The attempt lands in the `catch` block (and so waits 2000 ms before the
   * next try): the request threw, or `success` holds but there is no `newIp`
   * to call `startsWith` on. A reply with `success` false, or with an IP
   * outside the whitelist, is retried at once.
   */
  predicate Throws(a: Attempt) {
    a.RequestError? || (a.data.success && a.data.newIp.None?)
  }

  /** The number of attempts in `s` that wait before the next try. */
  function CountThrows(s: seq<Attempt>): nat
    decreases |s|
  {
    if s == [] then 0 else CountThrows(s[..|s| - 1]) + (if Throws(s[|s| - 1]) then 1 else 0)
  }

  /** The reply returned (if any) and how many attempts were consumed. */
  datatype Fetched = Fetched(reply: Option<RotationReply>, used: nat)

  /**
   * The outcome of the retry loop on the attempts `net`: the first accepted
   * reply, after every earlier attempt was rejected; `None` after consuming
   * all of `net` when none is accepted.
   */
  function Fetch(net: seq<Attempt>): (f: Fetched)
    ensures f.used <= |net|
    ensures f.reply.Some? ==> 0 < f.used && Accepted(net[f.used - 1]) && f.reply.value == net[f.used - 1].data
    ensures f.reply.None? ==> f.used == |net|
    ensures forall i :: 0 <= i < f.used && (f.reply.Some? ==> i < f.used - 1) ==> !Accepted(net[i])
  {
    if net == [] then Fetched(None, 0)
    else if Accepted(net[0]) then Fetched(Some(net[0].data), 1)
    else
      var f := Fetch(net[1..]);
      Fetched(f.reply, f.used + 1)
  }

  /**
   * `fetchAndEditJson`: request until an attempt is accepted. Returns the
   * accepted reply, the attempts consumed, and how many 2000 ms waits were
   * taken (one per thrown attempt before the accepted one).
   */
  method FetchAndEditJson(net: seq<Attempt>) returns (reply: Option<RotationReply>, used: nat, waits: nat)
    ensures Fetched(reply, used) == Fetch(net)
    ensures reply.Some? <==> exists i :: 0 <= i < |net| && Accepted(net[i])
    ensures waits == CountThrows(net[..used])
  {
    reply, used, waits := None, 0, 0;
    while used < |net|
      invariant used <= |net|
      invariant forall i :: 0 <= i < used ==> !Accepted(net[i])
      invariant Fetch(net) == Fetched(Fetch(net[used..]).reply, Fetch(net[used..]).used + used)
      invariant waits == CountThrows(net[..used])
    {
      var attempt := net[used];
      FetchStep(net, used);
      CountThrowsStep(net, used);
      if Accepted(attempt) {
        assert Fetch(net) == Fetched(Some(attempt.data), used + 1);
        reply, used := Some(attempt.data), used + 1;
        return;
      }
      if Throws(attempt) {
        waits := waits + 1;
      }
      used := used + 1;
    }
    assert net[used..] == [];
  }

  /** What one attempt contributes to `Fetch`, seen from the attempts that follow it. */
  lemma {:induction false} FetchStep(net: seq<Attempt>, k: nat)
    requires k < |net|
    ensures Accepted(net[k]) ==> Fetch(net[k..]) == Fetched(Some(net[k].data), 1)
    ensures !Accepted(net[k]) ==> Fetch(net[k..]) == Fetched(Fetch(net[k + 1..]).reply, Fetch(net[k + 1..]).used + 1)
  {
    ConsAppend(net[k..], []);
    assert net[k..][1..] == net[k + 1..];
  }

  /** Counting the throws one attempt further. */
  lemma {:induction false} CountThrowsStep(net: seq<Attempt>, k: nat)
    requires k < |net|
    ensures CountThrows(net[..k + 1]) == CountThrows(net[..k]) + if Throws(net[k]) then 1 else 0
  {
    assert net[..k + 1][..k] == net[..k];
  }

  /** A reply with success and a whitelisted IP is taken on the first try. */
  lemma {:induction false} AcceptsWhitelistedReply(t: string)
    ensures Accepted(Answer(RotationReply(true, Some("13.10.1.1"), t)))
  {
    assert "13.10.1.1"[..3] == "13.";
  }

  /** An IP outside the whitelist is rejected, and so is a reply without success. */
  lemma {:induction false} RejectsOutsideWhitelist(t: string)
    ensures !Accepted(Answer(RotationReply(true, Some("52.1.1.1"), t)))
    ensures !Accepted(Answer(RotationReply(false, Some("13.10.1.1"), t)))
  {
    var ip := "52.1.1.1";
    assert ip[0] == '5';
  }

  /**
   * The loop retries past rejected replies: a failed reply, then one outside
   * the whitelist, then a good one consume three requests and return the third.
   */
  lemma {:induction false} RetriesUntilAccepted(t: string)
    ensures var bad1 := Answer(RotationReply(false, Some("13.10.1.1"), t));
            var bad2 := Answer(RotationReply(true, Some("52.1.1.1"), t));
            var good := Answer(RotationReply(true, Some("13.10.1.1"), t));
            Fetch([bad1, bad2, good]) == Fetched(Some(good.data), 3)
  {
    var bad1 := Answer(RotationReply(false, Some("13.10.1.1"), t));
    var bad2 := Answer(RotationReply(true, Some("52.1.1.1"), t));
    var good := Answer(RotationReply(true, Some("13.10.1.1"), t));
    RejectsOutsideWhitelist(t);
    AcceptsWhitelistedReply(t);
    assert [bad1, bad2, good][1..] == [bad2, good];
    assert [bad2, good][1..] == [good];
    assert Fetch([good]) == Fetched(Some(good.data), 1);
    assert Fetch([bad2, good]) == Fetched(Some(good.data), 2);
  }

  // ---------------------------------------------------------------- parseLinkSpec

  /** `Array.from({ length: b - a + 1 }, (_, i) => a + i)`: the integers a..b, empty when b < a. */
  function Span(a: int, b: int): (r: seq<int>)
    ensures |r| == if b >= a then b - a + 1 else 0
    ensures forall i :: 0 <= i < |r| ==> r[i] == a + i
    decreases b - a
  {
    if b < a then [] else [a] + Span(a + 1, b)
  }

  /** The two bounds parseLinkSpec reads: `parseInt(parts[0])` and `parseInt(parts[1])` (NaN when missing). */
  function RangeBounds(linkSpec: string): (Option<int>, Option<int>) {
    var parts := Split(linkSpec, '-');
    (ParseInt(parts[0]), if |parts| > 1 then ParseInt(parts[1]) else None)
  }

  /** The largest length `new Array(len)` accepts; `Array.from` throws a RangeError beyond it. */
  const MaxArrayLength: int := 0xFFFF_FFFF

  /**
   * `parseLinkSpec`: the integers from the first to the second bound,
   * inclusive and ascending; a NaN bound or an end below the start gives `[]`
   * (the length converts to 0), and a range of more than `MaxArrayLength`
   * numbers throws "Invalid array length".
   */
  function ParseLinkSpec(linkSpec: string): (r: Result<seq<int>, CkError>)
    ensures var (start, end) := RangeBounds(linkSpec);
            && (start.None? || end.None? ==> r == Ok([]))
            && (start.Some? && end.Some? ==>
                  && (r.Err? <==> end.value - start.value + 1 > MaxArrayLength)
                  && (r.Err? ==> r.error == InvalidArrayLength)
                  && (r.Ok? ==>
                        && |r.value| == (if end.value >= start.value then end.value - start.value + 1 else 0)
                        && forall i :: 0 <= i < |r.value| ==> r.value[i] == start.value + i))
  {
    var (start, end) := RangeBounds(linkSpec);
    if start.None? || end.None? then Ok([])
    else if end.value - start.value + 1 > MaxArrayLength then Err(InvalidArrayLength)
    else Ok(Span(start.value, end.value))
  }

  lemma {:induction false} SplitTwo(a: string, b: string, sep: char)
    requires sep !in a && sep !in b
    ensures Split(a + [sep] + b, sep) == [a, b]
  {
    assert [a, b][1..] == [b];
    assert Join([a, b], sep) == a + [sep] + b;
    SplitJoin([a, b], sep);
  }

  /**
   * A spec made of two digit runs around a dash selects the range between
   * their values; whatever follows the second run is ignored by parseInt.
   */
  lemma {:induction false} ParseLinkSpecDigits(spec: string, a: string, b: string, rest: string)
    requires spec == a + "-" + b + rest
    requires a != [] && AllDigits(a) && b != [] && AllDigits(b)
    requires '-' !in rest && (rest == [] || !IsDigit(rest[0]))
    ensures '-' in spec
    ensures ParseLinkSpec(spec) ==
            if DigitsValue(b) - DigitsValue(a) + 1 > MaxArrayLength then Err(InvalidArrayLength)
            else Ok(Span(DigitsValue(a), DigitsValue(b)))
  {
    assert spec[|a|] == '-';
    assert '-' !in a && '-' !in b + rest by {
      assert forall i :: 0 <= i < |b + rest| ==> (b + rest)[i] != '-' by {
        forall i | 0 <= i < |b + rest| ensures (b + rest)[i] != '-' {
          if i < |b| { assert (b + rest)[i] == b[i]; } else { assert (b + rest)[i] == rest[i - |b|]; }
        }
      }
    }
    SplitTwo(a, b + rest, '-');
    assert a + "-" + b + rest == a + ['-'] + (b + rest);
    assert a == a + "";
    ParseIntDigitsThen(a, a, "");
    ParseIntDigitsThen(b + rest, b, rest);
  }

  /** A one-digit spec `x-y` whose end is below its start, such as `"8-5"`, selects nothing: an empty range, not an error. */
  lemma {:induction false} ParseLinkSpecDescending(x: char, y: char)
    requires IsDigit(x) && IsDigit(y) && DigitValue(x) > DigitValue(y)
    ensures ParseLinkSpec([x] + "-" + [y]) == Ok([])
  {
    DigitsValueOne([x]);
    DigitsValueOne([y]);
    assert [x] + "-" + [y] == [x] + "-" + [y] + "";
    ParseLinkSpecDigits([x] + "-" + [y], [x], [y], "");
  }

  /**
   * In `x-y/z`, such as `"3-5/9"`, the second bound is `parseInt("y/z")`,
   * which is `y`: the slash and what follows are dropped.
   */
  lemma {:induction false} ParseLinkSpecStopsAtSlash(x: char, y: char, z: char)
    requires IsDigit(x) && IsDigit(y) && IsDigit(z)
    ensures ParseLinkSpec([x] + "-" + [y] + ['/', z]) == Ok(Span(DigitValue(x), DigitValue(y)))
  {
    DigitsValueOne([x]);
    DigitsValueOne([y]);
    ParseLinkSpecDigits([x] + "-" + [y] + ['/', z], [x], [y], ['/', z]);
  }

  // ---------------------------------------------------------------- the selection

  /** The catalog key a single-mode spec names. */
  function RotationKey(linkSpec: string): string {
    "AC-" + linkSpec
  }

  /**
   * The strings range mode hands to single mode: `number.toString()` for each
   * number of the range (none when `parseLinkSpec` throws).
   */
  function RangeSpecs(linkSpec: string): (r: seq<string>)
    ensures ParseLinkSpec(linkSpec).Err? ==> r == []
    ensures ParseLinkSpec(linkSpec).Ok? ==>
              && |r| == |ParseLinkSpec(linkSpec).value|
              && forall i :: 0 <= i < |r| ==> r[i] == IntToString(ParseLinkSpec(linkSpec).value[i])
  {
    match ParseLinkSpec(linkSpec)
    case Err(_) => []
    case Ok(numbers) => seq(|numbers|, i requires 0 <= i < |numbers| => IntToString(numbers[i]))
  }

  /** The single-mode strings one part of a mixed spec expands to. */
  function PartSpecs(part: string): seq<string> {
    if '-' in part then RangeSpecs(part) else [part]
  }

  function FlattenParts(parts: seq<string>): seq<string>
    decreases |parts|
  {
    if parts == [] then [] else FlattenParts(parts[..|parts| - 1]) + PartSpecs(parts[|parts| - 1])
  }

  /** The strings mixed mode hands to single mode, part by part, left to right. */
  function MixedSpecs(linkSpec: string): seq<string> {
    FlattenParts(Split(linkSpec, '/'))
  }

  /**
   * The strings `/network/ck` hands to single mode, in order. The dispatch
   * tests for `-` before `/`, so any spec with a dash is a range.
   */
  function SelectionSpecs(linkSpec: string): seq<string> {
    if '-' in linkSpec then RangeSpecs(linkSpec)
    else if '/' in linkSpec then MixedSpecs(linkSpec)
    else [linkSpec]
  }

  lemma {:induction false} FlattenDashFree(parts: seq<string>)
    requires forall i :: 0 <= i < |parts| ==> '-' !in parts[i]
    ensures FlattenParts(parts) == parts
    decreases |parts|
  {
    if parts != [] {
      FlattenDashFree(parts[..|parts| - 1]);
      assert parts == parts[..|parts| - 1] + [parts[|parts| - 1]];
    }
  }

  /**
   * Mixed mode is only reached by dash-free specs, so each slash-separated
   * part goes to single mode as it is; its range branch is never taken.
   */
  lemma {:induction false} MixedPartsAreSingles(linkSpec: string)
    requires '-' !in linkSpec
    ensures SelectionSpecs(linkSpec) == Split(linkSpec, '/')
  {
    SplitKeepsAbsent(linkSpec, '/', '-');
    FlattenDashFree(Split(linkSpec, '/'));
    if '/' !in linkSpec {
      assert Split(linkSpec, '/') == [linkSpec];
    }
  }

  /**
   * A range selection hands single mode the decimal form of each number, in
   * ascending order, unless the range is too long for an array.
   */
  lemma {:induction false} RangeSelection(linkSpec: string)
    requires '-' in linkSpec
    requires RangeBounds(linkSpec).0.Some? && RangeBounds(linkSpec).1.Some?
    ensures var (start, end) := RangeBounds(linkSpec);
            && (end.value - start.value + 1 > MaxArrayLength ==> ParseLinkSpec(linkSpec) == Err(InvalidArrayLength))
            && (end.value - start.value + 1 <= MaxArrayLength ==>
                  && |SelectionSpecs(linkSpec)| == (if end.value >= start.value then end.value - start.value + 1 else 0)
                  && forall i :: 0 <= i < |SelectionSpecs(linkSpec)| ==>
                       SelectionSpecs(linkSpec)[i] == IntToString(start.value + i))
  {
  }

  /**
   * A spec with a dash is a range even when it also holds slashes: `"3-5/9"`
   * rotates AC-3, AC-4, AC-5, since anything after the second digit run,
   * slashes included, is ignored.
   */
  lemma {:induction false} DashWinsOverSlash(spec: string, a: string, b: string, rest: string)
    requires spec == a + "-" + b + rest
    requires a != [] && AllDigits(a) && b != [] && AllDigits(b)
    requires '-' !in rest && (rest == [] || !IsDigit(rest[0]))
    ensures SelectionSpecs(spec) == RangeSpecs(spec)
    ensures ParseLinkSpec(spec) ==
            if DigitsValue(b) - DigitsValue(a) + 1 > MaxArrayLength then Err(InvalidArrayLength)
            else Ok(Span(DigitsValue(a), DigitsValue(b)))
  {
    ParseLinkSpecDigits(spec, a, b, rest);
    DashMeansRange(spec);
  }

  lemma {:induction false} DashMeansRange(spec: string)
    requires '-' in spec
    ensures SelectionSpecs(spec) == RangeSpecs(spec)
  {
  }

  // ---------------------------------------------------------------- running a selection

  /** How a `/network/ck` command ends: results, or the error a mode threw. */
  datatype CkError = NoDataFound(index: Option<int>) | StillRetrying | InvalidArrayLength

  /**
   * A run of rotations: the outcome, the rotation URLs requested (one per key,
   * in order), and how many attempts of the oracle were consumed.
   */
  datatype Run = Run(outcome: Result<seq<RotationReply>, CkError>, requested: seq<string>, used: nat)

  /** Running `r2` on what `r1` left of the oracle, unless `r1` already threw. */
  function Then(r1: Run, r2: Run): Run {
    if r1.outcome.Err? then r1
    else
      Run(if r2.outcome.Ok? then Ok(r1.outcome.value + r2.outcome.value) else r2.outcome,
          r1.requested + r2.requested, r1.used + r2.used)
  }

  lemma {:induction false} ThenAssoc(a: Run, b: Run, c: Run)
    ensures Then(Then(a, b), c) == Then(a, Then(b, c))
  {
    if a.outcome.Ok? && b.outcome.Ok? && c.outcome.Ok? {
      assert a.outcome.value + b.outcome.value + c.outcome.value
          == a.outcome.value + (b.outcome.value + c.outcome.value);
    }
  }

  /**
   * Rotating the keys of `specs` one after another; the first key missing
   * from the catalog throws "No data found" before any request for it.
   */
  function RunSpecs(awsData: seq<Slot>, specs: seq<string>, net: seq<Attempt>): (r: Run)
    ensures r.used <= |net|
    decreases |specs|
  {
    if specs == [] then Run(Ok([]), [], 0)
    else
      match Lookup(awsData, RotationKey(specs[0]))
      case None => Run(Err(NoDataFound(ParseInt(specs[0]))), [], 0)
      case Some(entry) =>
        var f := Fetch(net);
        if f.reply.None? then Run(Err(StillRetrying), [entry.newip], f.used)
        else Then(Run(Ok([f.reply.value]), [entry.newip], f.used), RunSpecs(awsData, specs[1..], net[f.used..]))
  }

  /** Rotating `s1 + s2` is rotating `s1`, then `s2` on the rest of the oracle. */
  lemma {:induction false} RunSpecsAppend(awsData: seq<Slot>, s1: seq<string>, s2: seq<string>, net: seq<Attempt>)
    ensures RunSpecs(awsData, s1 + s2, net) ==
            Then(RunSpecs(awsData, s1, net), RunSpecs(awsData, s2, net[RunSpecs(awsData, s1, net).used..]))
    decreases |s1|
  {
    if s1 == [] {
      assert s1 + s2 == s2;
      assert net[0..] == net;
      var r2 := RunSpecs(awsData, s2, net);
      assert r2.outcome.Ok? ==> [] + r2.outcome.value == r2.outcome.value;
      assert [] + r2.requested == r2.requested;
    } else {
      var f := Fetch(net);
      if Lookup(awsData, RotationKey(s1[0])).Some? && f.reply.Some? {
        RunSpecsAppend(awsData, s1[1..], s2, net[f.used..]);
        RunSpecsAppendGo(awsData, s1, s2, net);
      } else {
        RunSpecsAppendStop(awsData, s1, s2, net);
      }
    }
  }

  /** The first key of `s1` throws (missing, or never accepted): `s1 + s2` throws the same way. */
  lemma {:induction false} RunSpecsAppendStop(awsData: seq<Slot>, s1: seq<string>, s2: seq<string>, net: seq<Attempt>)
    requires s1 != []
    requires Lookup(awsData, RotationKey(s1[0])).None? || Fetch(net).reply.None?
    ensures RunSpecs(awsData, s1 + s2, net) == RunSpecs(awsData, s1, net)
    ensures RunSpecs(awsData, s1, net).outcome.Err?
  {
    ConsAppend(s1, s2);
  }

  /** The first key of `s1` is rotated: the rest of `s1 + s2` runs on what it left of the oracle. */
  lemma {:induction false} RunSpecsAppendGo(awsData: seq<Slot>, s1: seq<string>, s2: seq<string>, net: seq<Attempt>)
    requires s1 != []
    requires Lookup(awsData, RotationKey(s1[0])).Some? && Fetch(net).reply.Some?
    requires var tail := net[Fetch(net).used..];
             RunSpecs(awsData, s1[1..] + s2, tail) ==
             Then(RunSpecs(awsData, s1[1..], tail), RunSpecs(awsData, s2, tail[RunSpecs(awsData, s1[1..], tail).used..]))
    ensures RunSpecs(awsData, s1 + s2, net) ==
            Then(RunSpecs(awsData, s1, net), RunSpecs(awsData, s2, net[RunSpecs(awsData, s1, net).used..]))
  {
    var f := Fetch(net);
    var entry := Lookup(awsData, RotationKey(s1[0])).value;
    var head := Run(Ok([f.reply.value]), [entry.newip], f.used);
    var tail := net[f.used..];
    var r1 := RunSpecs(awsData, s1[1..], tail);
    var r2 := RunSpecs(awsData, s2, tail[r1.used..]);
    var l := RunSpecs(awsData, s1, net);
    ConsAppend(s1, s2);
    RunSpecsHead(awsData, s1 + s2, net);
    RunSpecsHead(awsData, s1, net);
    assert RunSpecs(awsData, s1 + s2, net) == Then(head, RunSpecs(awsData, s1[1..] + s2, tail));
    assert RunSpecs(awsData, s1[1..] + s2, tail) == Then(r1, r2);
    assert l == Then(head, r1);
    assert l.used == f.used + r1.used;
    assert net[l.used..] == tail[r1.used..];
    ThenAssoc(head, r1, r2);
  }

  /** Unfolding one rotated key. */
  lemma {:induction false} RunSpecsHead(awsData: seq<Slot>, specs: seq<string>, net: seq<Attempt>)
    requires specs != []
    requires Lookup(awsData, RotationKey(specs[0])).Some? && Fetch(net).reply.Some?
    ensures RunSpecs(awsData, specs, net) ==
            Then(Run(Ok([Fetch(net).reply.value]), [Lookup(awsData, RotationKey(specs[0])).value.newip], Fetch(net).used),
                 RunSpecs(awsData, specs[1..], net[Fetch(net).used..]))
  {
  }

  /** Once a run has thrown, later keys change nothing. */
  lemma {:induction false} RunSpecsStops(awsData: seq<Slot>, s1: seq<string>, s2: seq<string>, net: seq<Attempt>)
    requires RunSpecs(awsData, s1, net).outcome.Err?
    ensures RunSpecs(awsData, s1 + s2, net) == RunSpecs(awsData, s1, net)
  {
    RunSpecsAppend(awsData, s1, s2, net);
  }

  /**
   * A completed run rotated every key, in order: each key was in the catalog,
   * its entry's rotation URL was requested, and its result is an accepted reply.
   */
  lemma {:induction false} RunSpecsDone(awsData: seq<Slot>, specs: seq<string>, net: seq<Attempt>)
    requires RunSpecs(awsData, specs, net).outcome.Ok?
    ensures var r := RunSpecs(awsData, specs, net);
            && |r.outcome.value| == |specs| && |r.requested| == |specs|
            && forall i :: 0 <= i < |specs| ==>
                 && Lookup(awsData, RotationKey(specs[i])).Some?
                 && r.requested[i] == Lookup(awsData, RotationKey(specs[i])).value.newip
                 && r.outcome.value[i].success
                 && r.outcome.value[i].newIp.Some?
                 && Whitelisted(r.outcome.value[i].newIp.value)
    decreases |specs|
  {
    if specs != [] {
      var e := Lookup(awsData, RotationKey(specs[0]));
      var f := Fetch(net);
      var r := RunSpecs(awsData, specs, net);
      var rest := RunSpecs(awsData, specs[1..], net[f.used..]);
      assert e.Some? && f.reply.Some?;
      assert r == Then(Run(Ok([f.reply.value]), [e.value.newip], f.used), rest);
      assert r.outcome.value == [f.reply.value] + rest.outcome.value;
      assert r.requested == [e.value.newip] + rest.requested;
      RunSpecsDone(awsData, specs[1..], net[f.used..]);
      forall i | 0 <= i < |specs|
        ensures Lookup(awsData, RotationKey(specs[i])).Some?
        ensures r.requested[i] == Lookup(awsData, RotationKey(specs[i])).value.newip
        ensures r.outcome.value[i].success && r.outcome.value[i].newIp.Some?
        ensures Whitelisted(r.outcome.value[i].newIp.value)
      {
        if i > 0 {
          assert specs[i] == specs[1..][i - 1];
          assert r.requested[i] == rest.requested[i - 1] && r.outcome.value[i] == rest.outcome.value[i - 1];
        }
      }
    }
  }

  /**
   * A run that threw "No data found" rotated a prefix of the keys, all present,
   * and stopped at the first key missing from the catalog, making no request for it.
   */
  lemma {:induction false} RunSpecsNoData(awsData: seq<Slot>, specs: seq<string>, net: seq<Attempt>)
    requires RunSpecs(awsData, specs, net).outcome.Err?
    requires RunSpecs(awsData, specs, net).outcome.error.NoDataFound?
    ensures var r := RunSpecs(awsData, specs, net);
            var k := |r.requested|;
            && k < |specs|
            && Lookup(awsData, RotationKey(specs[k])) == None
            && r.outcome.error.index == ParseInt(specs[k])
            && forall i :: 0 <= i < k ==>
                 Lookup(awsData, RotationKey(specs[i])).Some? &&
                 r.requested[i] == Lookup(awsData, RotationKey(specs[i])).value.newip
    decreases |specs|
  {
    assert specs != [];
    var e := Lookup(awsData, RotationKey(specs[0]));
    if e.Some? {
      var f := Fetch(net);
      var r := RunSpecs(awsData, specs, net);
      var rest := RunSpecs(awsData, specs[1..], net[f.used..]);
      assert f.reply.Some?;
      assert r == Then(Run(Ok([f.reply.value]), [e.value.newip], f.used), rest);
      assert r.outcome == rest.outcome && r.requested == [e.value.newip] + rest.requested;
      RunSpecsNoData(awsData, specs[1..], net[f.used..]);
      var k := |r.requested|;
      assert specs[k] == specs[1..][k - 1];
      forall i | 0 <= i < k
        ensures Lookup(awsData, RotationKey(specs[i])).Some?
        ensures r.requested[i] == Lookup(awsData, RotationKey(specs[i])).value.newip
      {
        if i == 0 {
          assert r.requested[0] == e.value.newip;
        } else {
          var j := i - 1;
          assert specs[1..][j] == specs[i] && r.requested[i] == rest.requested[j];
          assert Lookup(awsData, RotationKey(specs[1..][j])).Some?;
        }
      }
    }
  }

  // ---------------------------------------------------------------- runs of the three modes

  /** Range mode: `parseLinkSpec` throws before any request, or each number of the range is a key. */
  function RangeRun(awsData: seq<Slot>, linkSpec: string, net: seq<Attempt>): (r: Run)
    ensures r.used <= |net|
  {
    match ParseLinkSpec(linkSpec)
    case Err(e) => Run(Err(e), [], 0)
    case Ok(_) => RunSpecs(awsData, RangeSpecs(linkSpec), net)
  }

  /** One part of a mixed spec: a range if it has a dash, else a single key. */
  function PartRun(awsData: seq<Slot>, part: string, net: seq<Attempt>): (r: Run)
    ensures r.used <= |net|
  {
    if '-' in part then RangeRun(awsData, part, net) else RunSpecs(awsData, [part], net)
  }

  /** Mixed mode: the parts one after another on the shared oracle, stopping at the first throw. */
  function RunParts(awsData: seq<Slot>, parts: seq<string>, net: seq<Attempt>): (r: Run)
    ensures r.used <= |net|
    decreases |parts|
  {
    if parts == [] then Run(Ok([]), [], 0)
    else
      var r := RunParts(awsData, parts[..|parts| - 1], net);
      Then(r, PartRun(awsData, parts[|parts| - 1], net[r.used..]))
  }

  /** `/network/ck` on a loaded catalog: a dash means range mode, else a slash mixed mode, else single mode. */
  function RunSelection(awsData: seq<Slot>, linkSpec: string, net: seq<Attempt>): Run {
    if '-' in linkSpec then RangeRun(awsData, linkSpec, net)
    else if '/' in linkSpec then RunParts(awsData, Split(linkSpec, '/'), net)
    else RunSpecs(awsData, [linkSpec], net)
  }

  /** When no part is a range too long for an array, mixed mode rotates the flattened keys of its parts. */
  lemma {:induction false} RunPartsFlatten(awsData: seq<Slot>, parts: seq<string>, net: seq<Attempt>)
    requires forall i :: 0 <= i < |parts| ==> '-' in parts[i] ==> ParseLinkSpec(parts[i]).Ok?
    ensures RunParts(awsData, parts, net) == RunSpecs(awsData, FlattenParts(parts), net)
    decreases |parts|
  {
    if parts != [] {
      var init, last := parts[..|parts| - 1], parts[|parts| - 1];
      assert forall i :: 0 <= i < |init| ==> init[i] == parts[i];
      RunPartsFlatten(awsData, init, net);
      var r := RunParts(awsData, init, net);
      assert RunParts(awsData, parts, net) == Then(r, PartRun(awsData, last, net[r.used..]));
      assert FlattenParts(parts) == FlattenParts(init) + PartSpecs(last);
      PartRunSpecs(awsData, last, net[r.used..]);
      RunSpecsAppend(awsData, FlattenParts(init), PartSpecs(last), net);
    }
  }

  lemma {:induction false} PartRunSpecs(awsData: seq<Slot>, part: string, net: seq<Attempt>)
    requires '-' in part ==> ParseLinkSpec(part).Ok?
    ensures PartRun(awsData, part, net) == RunSpecs(awsData, PartSpecs(part), net)
  {
  }

  /** A dash-free spec split on `/` runs as its flattened keys. */
  lemma {:induction false} MixedRunsSpecs(awsData: seq<Slot>, linkSpec: string, net: seq<Attempt>)
    requires '-' !in linkSpec
    ensures RunParts(awsData, Split(linkSpec, '/'), net) == RunSpecs(awsData, MixedSpecs(linkSpec), net)
  {
    SplitKeepsAbsent(linkSpec, '/', '-');
    RunPartsFlatten(awsData, Split(linkSpec, '/'), net);
  }

  /**
   * Unless it is a range too long for an array, a selection runs exactly the
   * keys `SelectionSpecs` lists, in order.
   */
  lemma {:induction false} RunSelectionSpecs(awsData: seq<Slot>, linkSpec: string, net: seq<Attempt>)
    requires '-' in linkSpec ==> ParseLinkSpec(linkSpec).Ok?
    ensures RunSelection(awsData, linkSpec, net) == RunSpecs(awsData, SelectionSpecs(linkSpec), net)
  {
    if '-' !in linkSpec && '/' in linkSpec {
      MixedRunsSpecs(awsData, linkSpec, net);
    }
  }

  /**
   * A range of more than `MaxArrayLength` numbers, such as `"1-5000000000"`,
   * throws before any request: nothing is rotated.
   */
  lemma {:induction false} HugeRangeThrows(awsData: seq<Slot>, spec: string, a: string, b: string, rest: string, net: seq<Attempt>)
    requires spec == a + "-" + b + rest
    requires a != [] && AllDigits(a) && b != [] && AllDigits(b)
    requires '-' !in rest && (rest == [] || !IsDigit(rest[0]))
    requires DigitsValue(b) - DigitsValue(a) + 1 > MaxArrayLength
    ensures RunSelection(awsData, spec, net) == Run(Err(InvalidArrayLength), [], 0)
  {
    ParseLinkSpecDigits(spec, a, b, rest);
  }

  /** Once the first `k` parts have thrown, later parts change nothing. */
  lemma {:induction false} RunPartsStops(awsData: seq<Slot>, parts: seq<string>, k: nat, j: nat, net: seq<Attempt>)
    requires k <= j <= |parts|
    requires RunParts(awsData, parts[..k], net).outcome.Err?
    ensures RunParts(awsData, parts[..j], net) == RunParts(awsData, parts[..k], net)
    decreases j
  {
    if j > k {
      RunPartsStops(awsData, parts, k, j - 1, net);
      PrefixDropLast(parts, j);
      var before := RunParts(awsData, parts[..j - 1], net);
      assert before.outcome.Err?;
      assert RunParts(awsData, parts[..j], net) == Then(before, PartRun(awsData, parts[j - 1], net[before.used..]));
    }
  }

  // ---------------------------------------------------------------- the three modes

  function AsList(r: Result<RotationReply, CkError>): Result<seq<RotationReply>, CkError> {
    match r
    case Ok(reply) => Ok([reply])
    case Err(e) => Err(e)
  }

  /**
   * `processSingleMode`: look up `"AC-" + linkSpec`; throw "No data found"
   * (before any request) when absent, otherwise rotate its entry's URL.
   */
  method ProcessSingleMode(awsData: seq<Slot>, linkSpec: string, net: seq<Attempt>)
    returns (r: Result<RotationReply, CkError>, requested: seq<string>, used: nat)
    ensures Run(AsList(r), requested, used) == RunSpecs(awsData, [linkSpec], net)
    ensures Lookup(awsData, RotationKey(linkSpec)) == None ==>
              r == Err(NoDataFound(ParseInt(linkSpec))) && requested == [] && used == 0
  {
    var number := ParseInt(linkSpec);
    var item := Lookup(awsData, RotationKey(linkSpec));
    if item.None? {
      return Err(NoDataFound(number)), [], 0;
    }
    var reply, u, waits := FetchAndEditJson(net);
    requested, used := [item.value.newip], u;
    assert [linkSpec][1..] == [];
    if reply.None? {
      r := Err(StillRetrying);
    } else {
      r := Ok(reply.value);
      assert RunSpecs(awsData, [linkSpec][1..], net[u..]) == Run(Ok([]), [], 0);
      assert [reply.value] + [] == [reply.value] && requested + [] == requested;
    }
  }

  /** One step of a range: the run of the first `k + 1` keys, and of all keys once step `k` throws. */
  lemma {:induction false} RangeStep(awsData: seq<Slot>, specs: seq<string>, k: nat, net: seq<Attempt>, acc: Run, step: Run)
    requires k < |specs|
    requires acc == RunSpecs(awsData, specs[..k], net) && acc.outcome.Ok?
    requires step == RunSpecs(awsData, [specs[k]], net[acc.used..])
    ensures RunSpecs(awsData, specs[..k + 1], net) == Then(acc, step)
    ensures step.outcome.Err? ==> RunSpecs(awsData, specs, net) == Then(acc, step)
  {
    TakeSnoc(specs, k);
    RunSpecsAppend(awsData, specs[..k], [specs[k]], net);
    if step.outcome.Err? {
      RunSpecsStops(awsData, specs[..k + 1], specs[k + 1..], net);
      CutGlue(specs, k + 1);
    }
  }

  /** `processRangeMode`: single mode for each number of `parseLinkSpec`, ascending, stopping at a throw. */
  method ProcessRangeMode(awsData: seq<Slot>, linkSpec: string, net: seq<Attempt>) returns (run: Run)
    ensures run == RangeRun(awsData, linkSpec, net)
  {
    var parsed := ParseLinkSpec(linkSpec);
    if parsed.Err? {
      return Run(Err(parsed.error), [], 0);
    }
    var numbers := parsed.value;
    ghost var specs := RangeSpecs(linkSpec);
    var resultData: seq<RotationReply> := [];
    var requested: seq<string> := [];
    var used: nat := 0;
    for k := 0 to |numbers|
      invariant Run(Ok(resultData), requested, used) == RunSpecs(awsData, specs[..k], net)
    {
      var single, req, u := ProcessSingleMode(awsData, IntToString(numbers[k]), net[used..]);
      var step := Run(AsList(single), req, u);
      RangeStep(awsData, specs, k, net, Run(Ok(resultData), requested, used), step);
      if single.Err? {
        run := Then(Run(Ok(resultData), requested, used), step);
        return;
      }
      resultData, requested, used := resultData + [single.value], requested + req, used + u;
    }
    assert specs[..|numbers|] == specs;
    run := Run(Ok(resultData), requested, used);
  }

  /** One step of mixed mode: the run of the first `k + 1` parts, and of all parts once part `k` throws. */
  lemma {:induction false} MixedStep(awsData: seq<Slot>, parts: seq<string>, k: nat, net: seq<Attempt>, acc: Run, step: Run)
    requires k < |parts|
    requires acc == RunParts(awsData, parts[..k], net) && acc.outcome.Ok?
    requires step == PartRun(awsData, parts[k], net[acc.used..])
    ensures RunParts(awsData, parts[..k + 1], net) == Then(acc, step)
    ensures step.outcome.Err? ==> RunParts(awsData, parts, net) == Then(acc, step)
  {
    PrefixDropLast(parts, k + 1);
    if step.outcome.Err? {
      RunPartsStops(awsData, parts, k + 1, |parts|, net);
      assert parts[..|parts|] == parts;
    }
  }

  /** One part of a mixed spec, run as a range if it has a dash, else as a single. */
  method MixedPart(awsData: seq<Slot>, part: string, net: seq<Attempt>) returns (step: Run)
    ensures step == PartRun(awsData, part, net)
  {
    if '-' in part {
      step := ProcessRangeMode(awsData, part, net);
    } else {
      var single, req, u := ProcessSingleMode(awsData, part, net);
      step := Run(AsList(single), req, u);
    }
  }

  /** `processMixedMode`: split on `/`; each part is a range if it has a dash, else a single. */
  method ProcessMixedMode(awsData: seq<Slot>, linkSpec: string, net: seq<Attempt>) returns (run: Run)
    ensures run == RunParts(awsData, Split(linkSpec, '/'), net)
  {
    var parts := Split(linkSpec, '/');
    var resultData: seq<RotationReply> := [];
    var requested: seq<string> := [];
    var used: nat := 0;
    for k := 0 to |parts|
      invariant Run(Ok(resultData), requested, used) == RunParts(awsData, parts[..k], net)
    {
      var step := MixedPart(awsData, parts[k], net[used..]);
      MixedStep(awsData, parts, k, net, Run(Ok(resultData), requested, used), step);
      if step.outcome.Err? {
        run := Then(Run(Ok(resultData), requested, used), step);
        return;
      }
      resultData, requested, used := resultData + step.outcome.value, requested + step.requested, used + step.used;
    }
    assert parts[..|parts|] == parts;
    run := Run(Ok(resultData), requested, used);
  }

  /**
   * The `/network/ck` dispatch on a catalog that is already loaded: `-`
   * means range mode, else `/` means mixed mode, else single mode, whose
   * one result is returned as a list.
   */
  method Dispatch(awsData: seq<Slot>, linkSpec: string, net: seq<Attempt>) returns (run: Run)
    ensures run == RunSelection(awsData, linkSpec, net)
    ensures ('-' in linkSpec ==> ParseLinkSpec(linkSpec).Ok?) ==> run == RunSpecs(awsData, SelectionSpecs(linkSpec), net)
    ensures '-' in linkSpec && ParseLinkSpec(linkSpec).Err? ==> run == Run(Err(InvalidArrayLength), [], 0)
  {
    if '-' in linkSpec ==> ParseLinkSpec(linkSpec).Ok? {
      RunSelectionSpecs(awsData, linkSpec, net);
    }
    if '-' in linkSpec {
      run := ProcessRangeMode(awsData, linkSpec, net);
    } else if '/' in linkSpec {
      run := ProcessMixedMode(awsData, linkSpec, net);
    } else {
      var single, req, u := ProcessSingleMode(awsData, linkSpec, net);
      run := Run(AsList(single), req, u);
    }
  }
}
