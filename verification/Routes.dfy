/** CIDR routes: loading, masks, and longest-prefix matching, for 32-bit and 128-bit
    addresses alike. An address is a string of octets, a machine word a string of bits
    with the highest first. */
module Routes {
  import opened Common
  import opened Text

  // ---------- words as bits ----------

  type Bits = seq<bool>

  function ByteBits(b: byte): (w: Bits)
    ensures |w| == 8
  {
    [b / 128 % 2 == 1, b / 64 % 2 == 1, b / 32 % 2 == 1, b / 16 % 2 == 1,
     b / 8 % 2 == 1, b / 4 % 2 == 1, b / 2 % 2 == 1, b % 2 == 1]
  }

  /** The word that from_be_bytes makes of an address. */
  function FromBigEndian(octets: seq<byte>): (w: Bits)
    ensures |w| == 8 * |octets|
  {
    if octets == [] then [] else ByteBits(octets[0]) + FromBigEndian(octets[1..])
  }

  function Fill(width: nat, bit: bool): Bits {
    seq(width, _ => bit)
  }

  function ShiftLeft(w: Bits, k: nat): (r: Bits)
    requires k <= |w|
    ensures |r| == |w|
  {
    w[k..] + Fill(k, false)
  }

  function And(x: Bits, y: Bits): (r: Bits)
    requires |x| == |y|
    ensures |r| == |x|
  {
    seq(|x|, i requires 0 <= i < |x| => x[i] && y[i])
  }

  function Mask(width: nat, prefix: nat): (m: Bits)
    ensures |m| == width
  {
    if prefix == 0 then Fill(width, false)
    else if prefix >= width then Fill(width, true)
    else ShiftLeft(Fill(width, true), width - prefix)
  }

  /** Equality under the mask is agreement of the first prefix bits, /0 and the full
      length included. */
  lemma MaskedEqualityIsAgreement(x: Bits, y: Bits, prefix: nat)
    requires |x| == |y|
    ensures var m := Mask(|x|, prefix);
            And(x, m) == And(y, m) <==> forall i :: 0 <= i < |x| && i < prefix ==> x[i] == y[i]
  {
    var m := Mask(|x|, prefix);
    assert forall i :: 0 <= i < |x| ==> (m[i] <==> i < prefix);
    assert forall i :: 0 <= i < |x| ==> And(x, m)[i] == (x[i] && i < prefix) && And(y, m)[i] == (y[i] && i < prefix);
    if forall i :: 0 <= i < |x| && i < prefix ==> x[i] == y[i] {
      assert And(x, m) == And(y, m);
    } else {
      var i :| 0 <= i < |x| && i < prefix && x[i] != y[i];
      assert And(x, m)[i] != And(y, m)[i];
    }
  }

  // ---------- routes ----------

  /** A subnet route; the gateway is an IPv4 WolfNet address for both families. */
  datatype Route = Route(net: seq<byte>, prefix: byte, gateway: Ip4)

  /** The test the daemon makes, with masks. */
  predicate Hits(r: Route, dest: seq<byte>) {
    && |r.net| == |dest|
    && var m := Mask(8 * |dest|, r.prefix);
    And(FromBigEndian(dest), m) == And(FromBigEndian(r.net), m)
  }

  /** What it means: the destination lies in the route's network. */
  ghost predicate Contains(r: Route, dest: seq<byte>) {
    && |r.net| == |dest|
    && forall i :: 0 <= i < 8 * |dest| && i < r.prefix ==> FromBigEndian(dest)[i] == FromBigEndian(r.net)[i]
  }

  lemma HitsIsContains(r: Route, dest: seq<byte>)
    ensures Hits(r, dest) <==> Contains(r, dest)
  {
    if |r.net| == |dest| {
      MaskedEqualityIsAgreement(FromBigEndian(dest), FromBigEndian(r.net), r.prefix);
    }
  }

  /** Longest-prefix matching, whatever order the routes come in. */
  ghost predicate IsLongestMatch(routes: multiset<Route>, dest: seq<byte>, answer: Option<Ip4>) {
    match answer
    case None => forall r :: r in routes ==> !Contains(r, dest)
    case Some(gateway) =>
      exists r :: && r in routes && Contains(r, dest) && r.gateway == gateway
                  && forall other :: other in routes && Contains(other, dest) ==> other.prefix <= r.prefix
  }

  predicate LongestFirst(routes: seq<Route>) {
    forall i, j :: 0 <= i < j < |routes| ==> routes[i].prefix >= routes[j].prefix
  }

  /** The first hit in a table sorted by falling prefix is the longest match. */
  method FirstHit(table: seq<Route>, dest: seq<byte>) returns (answer: Option<Ip4>)
    requires LongestFirst(table)
    ensures IsLongestMatch(multiset(table), dest, answer)
  {
    for k := 0 to |table|
      invariant forall i :: 0 <= i < k ==> !Contains(table[i], dest)
    {
      HitsIsContains(table[k], dest);
      if Hits(table[k], dest) {
        assert table[k] in multiset(table);
        return Some(table[k].gateway);
      }
    }
    return None;
  }

  // ---------- sorting ----------

  function Insert(r: Route, sorted: seq<Route>): seq<Route> {
    if sorted == [] || r.prefix >= sorted[0].prefix then [r] + sorted
    else [sorted[0]] + Insert(r, sorted[1..])
  }

  /** A stable sort by falling prefix. */
  function Sorted(routes: seq<Route>): seq<Route> {
    if routes == [] then [] else Insert(routes[0], Sorted(routes[1..]))
  }

  lemma {:induction false} InsertKeepsRoutes(r: Route, sorted: seq<Route>)
    ensures multiset(Insert(r, sorted)) == multiset(sorted) + multiset{r}
  {
    if !(sorted == [] || r.prefix >= sorted[0].prefix) {
      InsertKeepsRoutes(r, sorted[1..]);
      assert sorted == [sorted[0]] + sorted[1..];
    }
  }

  lemma {:induction false} InsertIsSorted(r: Route, sorted: seq<Route>)
    requires LongestFirst(sorted)
    ensures LongestFirst(Insert(r, sorted))
  {
    if !(sorted == [] || r.prefix >= sorted[0].prefix) {
      InsertIsSorted(r, sorted[1..]);
      InsertKeepsRoutes(r, sorted[1..]);
      var rest := Insert(r, sorted[1..]);
      forall i | 0 <= i < |rest|
        ensures rest[i].prefix <= sorted[0].prefix
      {
        assert rest[i] in multiset(rest);
        assert rest[i] == r || rest[i] in sorted[1..];
      }
    }
  }

  lemma {:induction false} SortedIsSorted(routes: seq<Route>)
    ensures LongestFirst(Sorted(routes)) && multiset(Sorted(routes)) == multiset(routes)
  {
    if routes != [] {
      SortedIsSorted(routes[1..]);
      InsertIsSorted(routes[0], Sorted(routes[1..]));
      InsertKeepsRoutes(routes[0], Sorted(routes[1..]));
      assert routes == [routes[0]] + routes[1..];
    }
  }

  // ---------- the route file ----------

  /** The file as read: missing, not valid JSON, or its pairs in hash order. */
  datatype RouteFile = Missing | Malformed | Pairs(pairs: seq<(string, string)>)

  function ParsePrefix(s: string, limit: byte): Option<byte> {
    match ParseUnsigned(s, 256)
    case Some(p) => if p <= limit then Some(p) else None
    case None => None
  }

  datatype Parsed = Skip | Inet(route: Route) | Inet6(route: Route)

  /** One pair of the file; parseIp6 is the library's parser for IPv6 addresses. */
  function ParsePair(parseIp6: string -> Option<Ip6>, pair: (string, string)): Parsed {
    match (SplitOnce(pair.0, '/'), ParseIp4(pair.1))
    case (Some((net, prefix)), Some(gateway)) =>
      (match (ParseIp4(net), parseIp6(net))
       case (Some(ip), _) =>
         var p := ParsePrefix(prefix, 32);
         if p.None? then Skip else Inet(Route(ip.Octets(), p.value, gateway))
       case (None, Some(ip6)) =>
         var p := ParsePrefix(prefix, 128);
         if p.None? then Skip else Inet6(Route(ip6, p.value, gateway))
       case _ => Skip)
    case _ => Skip
  }

  function ParseAll(parseIp6: string -> Option<Ip6>, pairs: seq<(string, string)>): (all: seq<Parsed>)
    ensures |all| == |pairs|
  {
    seq(|pairs|, i requires 0 <= i < |pairs| => ParsePair(parseIp6, pairs[i]))
  }

  /** The routes of one family. */
  function RoutesIn(parsed: seq<Parsed>, v6: bool): seq<Route> {
    if parsed == [] then []
    else
      var init := RoutesIn(parsed[..|parsed| - 1], v6);
      match parsed[|parsed| - 1]
      case Inet(r) => if v6 then init else init + [r]
      case Inet6(r) => if v6 then init + [r] else init
      case Skip => init
  }

  /** They are what the pairs were parsed to, and nothing else. */
  lemma {:induction false} RoutesInAre(parsed: seq<Parsed>, v6: bool, r: Route)
    ensures r in RoutesIn(parsed, v6) <==> (if v6 then Inet6(r) else Inet(r)) in parsed
  {
    if parsed != [] {
      RoutesInAre(parsed[..|parsed| - 1], v6, r);
      assert parsed == parsed[..|parsed| - 1] + [parsed[|parsed| - 1]];
    }
  }

  lemma {:induction false} SplitOnceJoined(before: string, after: string, sep: char)
    requires sep !in before
    ensures SplitOnce(before + [sep] + after, sep) == Some((before, after))
  {
    var s := before + [sep] + after;
    if before == "" {
      assert s[1..] == after;
    } else {
      assert s[1..] == before[1..] + [sep] + after;
      SplitOnceJoined(before[1..], after, sep);
      assert before == [before[0]] + before[1..];
    }
  }

  lemma PrintedIp4HasNoSlash(ip: Ip4)
    ensures '/' !in PrintIp4(ip)
  {
    assert !IsDigit('/');
    JoinHoldsOnly([Decimal(ip.a), Decimal(ip.b), Decimal(ip.c), Decimal(ip.d)], '.', '/');
  }

  lemma ParsePrintedPrefix(prefix: nat, limit: byte)
    ensures ParsePrefix(Decimal(prefix), limit) == if prefix <= limit then Some(prefix) else None
  {
    assert IsDigit(Decimal(prefix)[0]) && !IsDigit('+');
  }

  lemma {:induction false} SplitOnceIs(s: string, sep: char)
    ensures match SplitOnce(s, sep)
            case None => sep !in s
            case Some((before, after)) => s == before + [sep] + after && sep !in before
  {
    if s != "" && s[0] != sep {
      SplitOnceIs(s[1..], sep);
      assert s == [s[0]] + s[1..];
    }
  }

  /** A pair of the file with this gateway, and this prefix up to the family's length. */
  ghost predicate PairsUp(pair: (string, string), net: string, prefix: string, r: Route, length: nat) {
    && pair.0 == net + "/" + prefix && '/' !in net
    && pair.1 == PrintIp4(r.gateway)
    && ParseUnsigned(prefix, 256) == Some(r.prefix) && r.prefix <= length
  }

  lemma PairOfTexts(parseIp6: string -> Option<Ip6>, pair: (string, string), net: string, prefix: string, r: Route)
    requires PairsUp(pair, net, prefix, r, 128)
    ensures var ip := ParseIp4(net);
            ParsePair(parseIp6, pair) ==
            if ip.Some? && r.prefix <= 32 then Inet(r.(net := ip.value.Octets()))
            else if ip.None? && parseIp6(net).Some? then Inet6(r.(net := parseIp6(net).value))
            else Skip
  {
    SplitOnceJoined(net, prefix, '/');
    ParsePrintedIp4(r.gateway);
    PairIsParsed(parseIp6, pair, net, prefix, r);
  }

  lemma PairIsParsed(parseIp6: string -> Option<Ip6>, pair: (string, string), net: string, prefix: string, r: Route)
    requires SplitOnce(pair.0, '/') == Some((net, prefix)) && ParseIp4(pair.1) == Some(r.gateway)
    requires ParseUnsigned(prefix, 256) == Some(r.prefix) && r.prefix <= 128
    ensures var ip := ParseIp4(net);
            ParsePair(parseIp6, pair) ==
            if ip.Some? && r.prefix <= 32 then Inet(r.(net := ip.value.Octets()))
            else if ip.None? && parseIp6(net).Some? then Inet6(r.(net := parseIp6(net).value))
            else Skip
  {
    assert ParsePrefix(prefix, 128) == Some(r.prefix);
    assert ParsePrefix(prefix, 32) == if r.prefix <= 32 then Some(r.prefix) else None;
  }

  lemma TextsOfPair(parseIp6: string -> Option<Ip6>, pair: (string, string), r: Route)
      returns (net: string, prefix: string)
    requires ParsePair(parseIp6, pair) in {Inet(r), Inet6(r)}
    ensures PairsUp(pair, net, prefix, r, 128)
  {
    SplitOnceIs(pair.0, '/');
    net, prefix := SplitOnce(pair.0, '/').value.0, SplitOnce(pair.0, '/').value.1;
    ParseIp4Iff(pair.1, r.gateway);
  }

  lemma InetIsPrinted(parseIp6: string -> Option<Ip6>, pair: (string, string), r: Route)
      returns (ip: Ip4, prefix: string)
    requires ParsePair(parseIp6, pair) == Inet(r)
    ensures r.net == ip.Octets() && PairsUp(pair, PrintIp4(ip), prefix, r, 32)
  {
    var net, p := TextsOfPair(parseIp6, pair, r);
    PairOfTexts(parseIp6, pair, net, p, r);
    ip, prefix := ParseIp4(net).value, p;
    ParseIp4Iff(net, ip);
  }

  lemma PrintedIsInet(parseIp6: string -> Option<Ip6>, pair: (string, string), ip: Ip4, prefix: string, r: Route)
    requires r.net == ip.Octets() && PairsUp(pair, PrintIp4(ip), prefix, r, 32)
    ensures ParsePair(parseIp6, pair) == Inet(r)
  {
    ParsePrintedIp4(ip);
    PairOfTexts(parseIp6, pair, PrintIp4(ip), prefix, r);
  }

  /** A pair is an IPv4 route exactly if it is the network printed, a prefix up to 32 and the
      gateway printed. */
  lemma InetIff(parseIp6: string -> Option<Ip6>, pair: (string, string), r: Route)
    ensures ParsePair(parseIp6, pair) == Inet(r) <==>
            exists ip: Ip4, prefix :: r.net == ip.Octets() && PairsUp(pair, PrintIp4(ip), prefix, r, 32)
  {
    if ParsePair(parseIp6, pair) == Inet(r) {
      var ip, prefix := InetIsPrinted(parseIp6, pair, r);
    }
    if ip: Ip4, prefix :| r.net == ip.Octets() && PairsUp(pair, PrintIp4(ip), prefix, r, 32) {
      PrintedIsInet(parseIp6, pair, ip, prefix, r);
    }
  }

  /** It is an IPv6 route exactly if the network is no IPv4 address, the library reads it as
      an IPv6 one, and the prefix goes up to 128. */
  lemma Inet6Iff(parseIp6: string -> Option<Ip6>, pair: (string, string), r: Route)
    ensures ParsePair(parseIp6, pair) == Inet6(r) <==>
            exists net, prefix ::
              && PairsUp(pair, net, prefix, r, 128)
              && parseIp6(net) == Some(r.net) && forall ip :: net != PrintIp4(ip)
  {
    if ParsePair(parseIp6, pair) == Inet6(r) {
      var net, prefix := TextsOfPair(parseIp6, pair, r);
      PairOfTexts(parseIp6, pair, net, prefix, r);
      forall ip ensures net != PrintIp4(ip) {
        ParsePrintedIp4(ip);
      }
    }
    if net, prefix :| && PairsUp(pair, net, prefix, r, 128)
                      && parseIp6(net) == Some(r.net) && forall ip :: net != PrintIp4(ip) {
      PairOfTexts(parseIp6, pair, net, prefix, r);
      if ParseIp4(net).Some? {
        ParseIp4Iff(net, ParseIp4(net).value);
      }
    }
  }

  /** A route printed as a pair of the file is read back, exactly if its prefix is possible. */
  lemma ParsePrintedPair(parseIp6: string -> Option<Ip6>, ip: Ip4, prefix: nat, gateway: Ip4)
    ensures ParsePair(parseIp6, (PrintIp4(ip) + "/" + Decimal(prefix), PrintIp4(gateway))) ==
            if prefix <= 32 then Inet(Route(ip.Octets(), prefix, gateway)) else Skip
  {
    PrintedIp4HasNoSlash(ip);
    ParsePrintedIp4(ip);
    ParsePrintedIp4(gateway);
    ParsePrintedPrefix(prefix, 32);
    SplitOnceJoined(PrintIp4(ip), Decimal(prefix), '/');
  }

  lemma ParsePrintedPair6(parseIp6: string -> Option<Ip6>, net: string, ip6: Ip6, prefix: nat, gateway: Ip4)
    requires '/' !in net && ParseIp4(net) == None && parseIp6(net) == Some(ip6)
    ensures ParsePair(parseIp6, (net + "/" + Decimal(prefix), PrintIp4(gateway))) ==
            if prefix <= 128 then Inet6(Route(ip6, prefix, gateway)) else Skip
  {
    ParsePrintedIp4(gateway);
    ParsePrintedPrefix(prefix, 128);
    SplitOnceJoined(net, Decimal(prefix), '/');
  }
}
