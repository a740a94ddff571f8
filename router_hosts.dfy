/**
 * The router registry of server.js: the address validator `isValidIp`, the
 * line-splitting step of `loadRouterIps`, and the deduplication of valid hosts
 * (the `ipSet` of `processCommandCheck`) that fixes which hosts a sweep visits
 * and in which order.
 */
module RouterHosts {
  import opened JsStrings
  import opened Seqs

  // ---------------------------------------------------------------- isValidIp

  /** The alternative `[01]?[0-9][0-9]?`, matched against a whole string. */
  predicate LowOctet(s: string) {
    || (|s| == 1 && IsDigit(s[0]))
    || (|s| == 2 && IsDigit(s[0]) && IsDigit(s[1]))
    || (|s| == 2 && (s[0] == '0' || s[0] == '1') && IsDigit(s[1]))
    || (|s| == 3 && (s[0] == '0' || s[0] == '1') && IsDigit(s[1]) && IsDigit(s[2]))
  }

  /** The octet group `25[0-5]|2[0-4][0-9]|[01]?[0-9][0-9]?`, matched against a whole string. */
  predicate OctetPattern(s: string) {
    || (|s| == 3 && s[0] == '2' && s[1] == '5' && '0' <= s[2] <= '5')
    || (|s| == 3 && s[0] == '2' && '0' <= s[1] <= '4' && IsDigit(s[2]))
    || LowOctet(s)
  }

  /**
   * isValidIp: the anchored pattern is four octet groups joined by three
   * literal dots. No octet alternative matches a dot, so a string matches
   * exactly when splitting it at its dots gives four pieces that each match
   * the octet group.
   */
  predicate IsValidIp(s: string) {
    var parts := Split(s, '.');
    |parts| == 4 && forall i :: 0 <= i < 4 ==> OctetPattern(parts[i])
  }

  /** The text of one byte: one to three decimal digits (leading zeros allowed) worth at most 255. */
  predicate ByteText(s: string) {
    1 <= |s| <= 3 && AllDigits(s) && DigitsValue(s) <= 255
  }

  lemma {:induction false} DigitsValueTwo(s: string)
    requires |s| == 2 && AllDigits(s)
    ensures DigitsValue(s) == 10 * DigitValue(s[0]) + DigitValue(s[1])
  {
    DigitsValueOne(s[..1]);
  }

  lemma {:induction false} DigitsValueThree(s: string)
    requires |s| == 3 && AllDigits(s)
    ensures DigitsValue(s) == 100 * DigitValue(s[0]) + 10 * DigitValue(s[1]) + DigitValue(s[2])
  {
    DigitsValueTwo(s[..2]);
  }

  lemma {:induction false} OneDigitByte(x: char)
    requires IsDigit(x)
    ensures ByteText([x])
  {
    DigitsValueOne([x]);
  }

  lemma {:induction false} ThreeDigitByte(x: char, y: char, z: char)
    requires IsDigit(x) && IsDigit(y) && IsDigit(z)
    requires 100 * DigitValue(x) + 10 * DigitValue(y) + DigitValue(z) <= 255
    ensures ByteText([x, y, z])
  {
    DigitsValueThree([x, y, z]);
  }

  /** The octet group matches exactly the one-to-three-digit texts of values 0..255. */
  lemma {:induction false} OctetPatternIsByte(s: string)
    ensures OctetPattern(s) <==> ByteText(s)
  {
    if |s| == 1 && AllDigits(s) {
      DigitsValueOne(s);
    } else if |s| == 2 && AllDigits(s) {
      DigitsValueTwo(s);
    } else if |s| == 3 && AllDigits(s) {
      DigitsValueThree(s);
    }
  }

  lemma {:induction false} JoinFour(a: string, b: string, c: string, d: string, sep: char)
    ensures Join([a, b, c, d], sep) == a + [sep] + b + [sep] + c + [sep] + d
  {
    assert [a, b, c, d][1..] == [b, c, d];
    assert [b, c, d][1..] == [c, d];
    assert [c, d][1..] == [d];
    assert Join([c, d], sep) == c + [sep] + d;
    assert Join([b, c, d], sep) == b + [sep] + (c + [sep] + d);
    assert Join([a, b, c, d], sep) == a + [sep] + (b + [sep] + (c + [sep] + d));
  }

  /** For dot-free pieces, their dotted join is a valid address iff there are four byte texts. */
  lemma {:induction false} IsValidIpQuad(parts: seq<string>)
    requires |parts| >= 1
    requires forall i :: 0 <= i < |parts| ==> '.' !in parts[i]
    ensures IsValidIp(Join(parts, '.')) <==> |parts| == 4 && forall i :: 0 <= i < 4 ==> ByteText(parts[i])
  {
    SplitJoin(parts, '.');
    assert Split(Join(parts, '.'), '.') == parts;
    if |parts| == 4 {
      forall i | 0 <= i < 4 ensures OctetPattern(parts[i]) <==> ByteText(parts[i]) {
        OctetPatternIsByte(parts[i]);
      }
    }
  }

  /** A valid address is the dotted join of its four byte texts. */
  lemma {:induction false} ValidIpIsDottedQuad(s: string)
    requires IsValidIp(s)
    ensures var parts := Split(s, '.');
            && |parts| == 4 && s == parts[0] + "." + parts[1] + "." + parts[2] + "." + parts[3]
            && forall i :: 0 <= i < 4 ==> ByteText(parts[i])
  {
    var parts := Split(s, '.');
    JoinSplit(s, '.');
    JoinFour(parts[0], parts[1], parts[2], parts[3], '.');
    assert parts == [parts[0], parts[1], parts[2], parts[3]];
    forall i | 0 <= i < 4 ensures ByteText(parts[i]) {
      OctetPatternIsByte(parts[i]);
    }
  }

  lemma {:induction false} ShortDecimal(n: nat)
    requires n <= 255
    ensures ByteText(NatToString(n)) && '.' !in NatToString(n)
  {
    var r := NatToString(n);
    if n >= 10 {
      var p := NatToString(n / 10);
      if n / 10 >= 10 {
        assert |NatToString(n / 10 / 10)| == 1;
      }
      assert |p| <= 2;
    }
  }

  /** Every address written in the usual decimal form a.b.c.d with bytes a..d is valid. */
  lemma {:induction false} DecimalAddressValid(a: nat, b: nat, c: nat, d: nat)
    requires a <= 255 && b <= 255 && c <= 255 && d <= 255
    ensures IsValidIp(NatToString(a) + "." + NatToString(b) + "." + NatToString(c) + "." + NatToString(d))
  {
    var parts := [NatToString(a), NatToString(b), NatToString(c), NatToString(d)];
    ShortDecimal(a);
    ShortDecimal(b);
    ShortDecimal(c);
    ShortDecimal(d);
    var text := NatToString(a) + "." + NatToString(b) + "." + NatToString(c) + "." + NatToString(d);
    JoinFour(parts[0], parts[1], parts[2], parts[3], '.');
    assert Join(parts, '.') == text;
    IsValidIpQuad(parts);
    assert IsValidIp(Join(parts, '.'));
  }

  /** `192.168.1.1` is accepted. */
  lemma {:induction false} AcceptsPrivateAddress()
    ensures IsValidIp("192.168.1.1")
  {
    var parts := ["192", "168", "1", "1"];
    JoinFour("192", "168", "1", "1", '.');
    assert Join(parts, '.') == "192.168.1.1";
    IsValidIpQuad(parts);
    ThreeDigitByte('1', '9', '2');
    ThreeDigitByte('1', '6', '8');
    OneDigitByte('1');
    assert forall i :: 0 <= i < 4 ==> ByteText(parts[i]);
    assert IsValidIp(Join(parts, '.'));
  }

  /** `0.0.0.0` is accepted. */
  lemma {:induction false} AcceptsZeroAddress()
    ensures IsValidIp("0.0.0.0")
  {
    var parts := ["0", "0", "0", "0"];
    JoinFour("0", "0", "0", "0", '.');
    assert Join(parts, '.') == "0.0.0.0";
    IsValidIpQuad(parts);
    OneDigitByte('0');
    assert forall i :: 0 <= i < 4 ==> ByteText(parts[i]);
    assert IsValidIp(Join(parts, '.'));
  }

  /** `255.255.255.255` is accepted. */
  lemma {:induction false} AcceptsBroadcastAddress()
    ensures IsValidIp("255.255.255.255")
  {
    var parts := ["255", "255", "255", "255"];
    JoinFour("255", "255", "255", "255", '.');
    assert Join(parts, '.') == "255.255.255.255";
    IsValidIpQuad(parts);
    ThreeDigitByte('2', '5', '5');
    assert forall i :: 0 <= i < 4 ==> ByteText(parts[i]);
    assert IsValidIp(Join(parts, '.'));
  }

  /** `256.1.1.1` is rejected: 256 is not a byte. */
  lemma {:induction false} RejectsOctetAbove255()
    ensures !IsValidIp("256.1.1.1")
  {
    var parts := ["256", "1", "1", "1"];
    JoinFour("256", "1", "1", "1", '.');
    assert Join(parts, '.') == "256.1.1.1";
    IsValidIpQuad(parts);
    DigitsValueThree("256");
    DigitsValueOne("1");
    assert !IsValidIp(Join(parts, '.'));
  }

  /** `1.2.3` is rejected: only three octets. */
  lemma {:induction false} RejectsThreeOctets()
    ensures !IsValidIp("1.2.3")
  {
    var parts := ["1", "2", "3"];
    assert Join(parts[1..], '.') == "2.3";
    assert Join(parts, '.') == "1.2.3";
    IsValidIpQuad(parts);
    DigitsValueOne("1");
    DigitsValueOne("2");
    DigitsValueOne("3");
    assert !IsValidIp(Join(parts, '.'));
  }

  /** `abc.def.1.1` is rejected: letters are not digits. */
  lemma {:induction false} RejectsLetters()
    ensures !IsValidIp("abc.def.1.1")
  {
    var parts := ["abc", "def", "1", "1"];
    JoinFour("abc", "def", "1", "1", '.');
    assert Join(parts, '.') == "abc.def.1.1";
    IsValidIpQuad(parts);
    DigitsValueOne("1");
    assert !IsValidIp(Join(parts, '.'));
  }

  // ---------------------------------------------------------------- loadRouterIps

  /** `lines.map(line => line.trim())`. */
  function TrimAll(lines: seq<string>): (r: seq<string>)
    ensures |r| == |lines| && forall i :: 0 <= i < |lines| ==> r[i] == Trim(lines[i])
  {
    seq(|lines|, i requires 0 <= i < |lines| => Trim(lines[i]))
  }

  /** `.filter(line => line.length > 0)`. */
  function NonBlank(lines: seq<string>): (r: seq<string>)
    ensures |r| <= |lines|
  {
    if lines == [] then []
    else (if lines[0] != "" then [lines[0]] else []) + NonBlank(lines[1..])
  }

  lemma {:induction false} NonBlankMembers(lines: seq<string>, x: string)
    ensures x in NonBlank(lines) <==> x in lines && x != ""
  {
    if lines != [] {
      NonBlankMembers(lines[1..], x);
      assert lines == [lines[0]] + lines[1..];
    }
  }

  lemma {:induction false} NonBlankKeepsNonBlank(lines: seq<string>)
    requires forall i :: 0 <= i < |lines| ==> lines[i] != ""
    ensures NonBlank(lines) == lines
  {
    if lines != [] {
      NonBlankKeepsNonBlank(lines[1..]);
      assert lines == [lines[0]] + lines[1..];
    }
  }

  /** The host list loadRouterIps builds from the contents of the router file. */
  function HostLines(data: string): seq<string> {
    NonBlank(TrimAll(Split(data, '\n')))
  }

  lemma {:induction false} TrimKeepsAbsent(s: string, c: char)
    requires c !in s
    ensures c !in Trim(s)
  {
    var t := TrimStart(s);
    assert t == s[|s| - |t|..];
    assert c !in t;
  }

  lemma {:induction false} TrimmedLinesMembers(lines: seq<string>, x: string)
    ensures x in NonBlank(TrimAll(lines)) <==> x != "" && exists line :: line in lines && Trim(line) == x
  {
    NonBlankMembers(TrimAll(lines), x);
    if x in NonBlank(TrimAll(lines)) {
      var i :| 0 <= i < |lines| && TrimAll(lines)[i] == x;
      assert lines[i] in lines;
    }
    if x != "" && exists line :: line in lines && Trim(line) == x {
      var line :| line in lines && Trim(line) == x;
      var i :| 0 <= i < |lines| && lines[i] == line;
      assert TrimAll(lines)[i] == x;
    }
  }

  /** The loaded hosts are exactly the non-blank trimmed lines of the file. */
  lemma {:induction false} HostLinesMembers(data: string, x: string)
    ensures x in HostLines(data) <==> x != "" && exists line :: line in Split(data, '\n') && Trim(line) == x
  {
    var lines := Split(data, '\n');
    assert HostLines(data) == NonBlank(TrimAll(lines));
    TrimmedLinesMembers(lines, x);
  }

  /** No loaded host is blank, holds a line break, or has surrounding whitespace. */
  lemma {:induction false} HostLinesClean(data: string, x: string)
    requires x in HostLines(data)
    ensures x != "" && '\n' !in x && Trim(x) == x
  {
    var lines := Split(data, '\n');
    NonBlankMembers(TrimAll(lines), x);
    var i :| 0 <= i < |lines| && TrimAll(lines)[i] == x;
    TrimKeepsAbsent(lines[i], '\n');
    TrimIdempotent(lines[i]);
  }

  /** Writing non-blank, whitespace-free hosts one per line and loading the file gives them back. */
  lemma {:induction false} HostFileRoundTrip(hosts: seq<string>)
    requires |hosts| >= 1
    requires forall i :: 0 <= i < |hosts| ==> hosts[i] != "" && SpaceFree(hosts[i])
    ensures HostLines(Join(hosts, '\n')) == hosts
  {
    SplitJoin(hosts, '\n');
    forall i | 0 <= i < |hosts| ensures Trim(hosts[i]) == hosts[i] {
      TrimSpaceFree(hosts[i]);
    }
    assert TrimAll(hosts) == hosts;
    NonBlankKeepsNonBlank(hosts);
  }

  // ---------------------------------------------------------------- the ipSet

  /** Position of the first occurrence of `x` in `s`. */
  function FirstPos(s: seq<string>, x: string): (i: nat)
    requires x in s
    ensures i < |s| && s[i] == x && x !in s[..i]
  {
    if s[0] == x then 0
    else
      var j := FirstPos(s[1..], x);
      assert s[..1 + j] == [s[0]] + s[1..][..j];
      1 + j
  }

  lemma {:induction false} FirstPosPrefix(s: seq<string>, k: nat, x: string)
    requires k <= |s| && x in s[..k]
    ensures FirstPos(s, x) == FirstPos(s[..k], x)
  {
    var i := FirstPos(s, x);
    var j := FirstPos(s[..k], x);
    assert s[..k][..j] == s[..j];
  }

  /**
   * The hosts a sweep visits, in visiting order: each valid address of
   * `routerIp` once, in the order of its first occurrence (JavaScript's Set
   * iterates in insertion order).
   */
  function ValidDistinct(ips: seq<string>): seq<string>
    decreases |ips|
  {
    if ips == [] then []
    else
      var r := ValidDistinct(ips[..|ips| - 1]);
      var x := ips[|ips| - 1];
      if IsValidIp(x) && x !in r then r + [x] else r
  }

  /** The visited hosts are exactly the valid addresses of the list. */
  lemma {:induction false} ValidDistinctMembers(ips: seq<string>, x: string)
    ensures x in ValidDistinct(ips) <==> x in ips && IsValidIp(x)
    decreases |ips|
  {
    if ips != [] {
      var init := ips[..|ips| - 1];
      ValidDistinctMembers(init, x);
      assert ips == init + [ips[|ips| - 1]];
    }
  }

  /** No host is visited twice. */
  lemma {:induction false} ValidDistinctNoDuplicates(ips: seq<string>)
    ensures forall i, j :: 0 <= i < j < |ValidDistinct(ips)| ==> ValidDistinct(ips)[i] != ValidDistinct(ips)[j]
    decreases |ips|
  {
    if ips != [] {
      ValidDistinctNoDuplicates(ips[..|ips| - 1]);
    }
  }

  /** The visited hosts are hosts of the list, visited in increasing order of first occurrence. */
  predicate OrderedByFirstPos(ips: seq<string>, r: seq<string>) {
    && (forall x :: x in r ==> x in ips)
    && forall i, j :: 0 <= i < j < |r| ==> FirstPos(ips, r[i]) < FirstPos(ips, r[j])
  }

  /** Hosts are visited in the order of their first occurrence in the list. */
  lemma {:induction false} ValidDistinctOrder(ips: seq<string>)
    ensures forall x :: x in ValidDistinct(ips) ==> x in ips
    ensures forall i, j :: 0 <= i < j < |ValidDistinct(ips)| ==>
              FirstPos(ips, ValidDistinct(ips)[i]) < FirstPos(ips, ValidDistinct(ips)[j])
    decreases |ips|
  {
    if ips != [] {
      ValidDistinctOrder(ips[..|ips| - 1]);
      ValidDistinctOrderStep(ips);
    }
    assert OrderedByFirstPos(ips, ValidDistinct(ips));
  }

  lemma {:induction false} ValidDistinctOrderStep(ips: seq<string>)
    requires ips != [] && OrderedByFirstPos(ips[..|ips| - 1], ValidDistinct(ips[..|ips| - 1]))
    ensures OrderedByFirstPos(ips, ValidDistinct(ips))
  {
    var init, x := ips[..|ips| - 1], ips[|ips| - 1];
    var r := ValidDistinct(init);
    OrderToWhole(ips, r);
    if IsValidIp(x) && x !in r {
      ValidDistinctMembers(init, x);
      OrderAppendLast(ips, r);
    }
  }

  /** An order by first occurrence in all but the last host is one in the whole list. */
  lemma {:induction false} OrderToWhole(ips: seq<string>, r: seq<string>)
    requires ips != [] && OrderedByFirstPos(ips[..|ips| - 1], r)
    ensures OrderedByFirstPos(ips, r)
    ensures forall y :: y in r ==> FirstPos(ips, y) < |ips| - 1
  {
    var init := ips[..|ips| - 1];
    forall y | y in r ensures y in ips && FirstPos(ips, y) == FirstPos(init, y) {
      InSnoc(ips, y);
      FirstPosPrefix(ips, |ips| - 1, y);
    }
  }

  /** Appending the last host, seen for the first time, keeps the order. */
  lemma {:induction false} OrderAppendLast(ips: seq<string>, r: seq<string>)
    requires ips != [] && ips[|ips| - 1] !in ips[..|ips| - 1]
    requires OrderedByFirstPos(ips, r) && forall y :: y in r ==> FirstPos(ips, y) < |ips| - 1
    ensures OrderedByFirstPos(ips, r + [ips[|ips| - 1]])
  {
    var x := ips[|ips| - 1];
    var r' := r + [x];
    assert FirstPos(ips, x) == |ips| - 1;
    forall i, j | 0 <= i < j < |r'|
      ensures FirstPos(ips, r'[i]) < FirstPos(ips, r'[j])
    {
      assert r'[i] == r[i];
      if j < |r| {
        assert r'[j] == r[j];
      }
    }
  }

  /**
   * The `ipSet` loop of processCommandCheck: add each valid address to a set
   * that remembers insertion order; the result is that order.
   */
  method CollectHosts(routerIp: seq<string>) returns (hosts: seq<string>)
    ensures hosts == ValidDistinct(routerIp)
    ensures forall x :: x in hosts <==> x in routerIp && IsValidIp(x)
    ensures forall i, j :: 0 <= i < j < |hosts| ==> hosts[i] != hosts[j]
  {
    var ipSet: set<string> := {};
    hosts := [];
    for i := 0 to |routerIp|
      invariant hosts == ValidDistinct(routerIp[..i])
      invariant forall x :: x in ipSet <==> x in hosts
    {
      var link := routerIp[i];
      assert routerIp[..i + 1][..i] == routerIp[..i];
      if IsValidIp(link) {
        if link !in ipSet {
          hosts := hosts + [link];
        }
        ipSet := ipSet + {link};
      }
    }
    assert routerIp[..|routerIp|] == routerIp;
    forall x ensures x in hosts <==> x in routerIp && IsValidIp(x) {
      ValidDistinctMembers(routerIp, x);
    }
    ValidDistinctNoDuplicates(routerIp);
  }
}
