/** Text as Rust's standard library splits, prints and parses it. */
module Text {
  import opened Common

  // ---------- splitting ----------

  /** The pieces of s between occurrences of sep. */
  function Split(s: string, sep: char): (parts: seq<string>)
    ensures |parts| > 0
    ensures forall i :: 0 <= i < |parts| ==> sep !in parts[i]
  {
    if s == "" then [""]
    else
      var rest := Split(s[1..], sep);
      if s[0] == sep then [""] + rest else [[s[0]] + rest[0]] + rest[1..]
  }

  lemma {:induction false} SplitWhole(s: string, sep: char)
    requires sep !in s
    ensures Split(s, sep) == [s]
  {
    if s != "" {
      SplitWhole(s[1..], sep);
      assert s == [s[0]] + s[1..];
    }
  }

  /** Splitting two texts joined by the separator gives the pieces of both. */
  lemma {:induction false} SplitJoined(x: string, y: string, sep: char)
    ensures Split(x + [sep] + y, sep) == Split(x, sep) + Split(y, sep)
  {
    var s := x + [sep] + y;
    if x == "" {
      assert s[1..] == y;
    } else {
      assert s[1..] == x[1..] + [sep] + y;
      SplitJoined(x[1..], y, sep);
    }
  }

  function Join(parts: seq<string>, sep: char): string
    requires |parts| > 0
  {
    if |parts| == 1 then parts[0] else parts[0] + [sep] + Join(parts[1..], sep)
  }

  /** Splitting a joined text gives its parts back up to the first one that holds the
      separator; that one comes back cut short. */
  lemma {:induction false} SplitJoinedFields(parts: seq<string>, sep: char, clean: nat)
    requires clean <= |parts| && |parts| > 0
    requires forall i :: 0 <= i < clean ==> sep !in parts[i]
    ensures var pieces := Split(Join(parts, sep), sep);
            && |pieces| >= |parts|
            && pieces[..clean] == parts[..clean]
            && (clean < |parts| ==> sep !in pieces[clean])
            && (clean == |parts| ==> |pieces| == |parts|)
  {
    if clean > 0 {
      SplitWhole(parts[0], sep);
    }
    if |parts| > 1 {
      SplitJoined(parts[0], Join(parts[1..], sep), sep);
      var tail := if clean > 0 then clean - 1 else 0;
      SplitJoinedFields(parts[1..], sep, tail);
      if clean > 0 {
        var rest := Split(Join(parts[1..], sep), sep);
        assert ([parts[0]] + rest)[..clean] == [parts[0]] + rest[..tail];
        assert parts[..clean] == [parts[0]] + parts[1..][..tail];
      }
    }
  }

  lemma SplitJoinedCleanly(parts: seq<string>, sep: char)
    requires |parts| > 0 && forall i :: 0 <= i < |parts| ==> sep !in parts[i]
    ensures Split(Join(parts, sep), sep) == parts
  {
    SplitJoinedFields(parts, sep, |parts|);
    assert parts[..|parts|] == parts;
  }

  /** And joining what was split gives the text back. */
  lemma {:induction false} JoinSplit(s: string, sep: char)
    ensures Join(Split(s, sep), sep) == s
  {
    if s != "" {
      JoinSplit(s[1..], sep);
      var rest := Split(s[1..], sep);
      assert s == [s[0]] + s[1..];
      if s[0] == sep {
        assert ([""] + rest)[1..] == rest;
      } else if |rest| > 1 {
        assert ([[s[0]] + rest[0]] + rest[1..])[1..] == rest[1..];
        assert [s[0]] + rest[0] + [sep] + Join(rest[1..], sep) == [s[0]] + (rest[0] + [sep] + Join(rest[1..], sep));
      }
    }
  }

  /** The text before and the text after the first separator. */
  function SplitOnce(s: string, sep: char): Option<(string, string)> {
    if s == "" then None
    else if s[0] == sep then Some(("", s[1..]))
    else match SplitOnce(s[1..], sep)
      case None => None
      case Some((before, after)) => Some(([s[0]] + before, after))
  }

  // ---------- decimal numbers ----------

  predicate IsDigit(c: char) {
    '0' <= c <= '9'
  }

  function DigitValue(c: char): nat
    requires IsDigit(c)
  {
    c as int - '0' as int
  }

  function DigitChar(d: nat): (c: char)
    requires d < 10
    ensures IsDigit(c) && DigitValue(c) == d
  {
    '0' + d as char
  }

  predicate AllDigits(s: string) {
    forall i :: 0 <= i < |s| ==> IsDigit(s[i])
  }

  function DigitsValue(s: string): nat
    requires AllDigits(s)
  {
    if s == "" then 0 else 10 * DigitsValue(s[..|s| - 1]) + DigitValue(s[|s| - 1])
  }

  /** Decimal printing, without leading zeros. */
  function Decimal(n: nat): (s: string)
    ensures |s| > 0 && AllDigits(s) && DigitsValue(s) == n
    ensures n > 0 ==> s[0] != '0'
    ensures (n < 10 <==> |s| == 1) && (n < 100 ==> |s| <= 2) && (n < 1000 ==> |s| <= 3)
  {
    if n < 10 then [DigitChar(n)]
    else
      var front := Decimal(n / 10);
      var s := front + [DigitChar(n % 10)];
      assert s[..|s| - 1] == front;
      s
  }

  lemma LastDigitCounts(front: string, d: char)
    requires AllDigits(front) && IsDigit(d)
    ensures AllDigits(front + [d]) && DigitsValue(front + [d]) == 10 * DigitsValue(front) + DigitValue(d)
  {
    assert (front + [d])[..|front|] == front;
  }

  /** Digits without a leading zero are what their value prints as. */
  lemma {:induction false} PrintedDigits(s: string)
    requires s != "" && AllDigits(s) && (|s| > 1 ==> s[0] != '0')
    ensures Decimal(DigitsValue(s)) == s && (s[0] != '0' ==> DigitsValue(s) > 0)
  {
    var front, d := s[..|s| - 1], s[|s| - 1];
    assert s == front + [d];
    LastDigitCounts(front, d);
    if |s| > 1 {
      PrintedDigits(front);
      LastDigitIsPrinted(DigitsValue(front), DigitValue(d));
    }
  }

  lemma LastDigitIsPrinted(n: nat, d: nat)
    requires n > 0 && d < 10
    ensures Decimal(10 * n + d) == Decimal(n) + [DigitChar(d)]
  {
    assert (10 * n + d) / 10 == n && (10 * n + d) % 10 == d;
  }

  /** Rust's parse for unsigned integers: digits after an optional plus sign, in range. */
  function ParseUnsigned(s: string, limit: nat): (r: Option<nat>)
    ensures r.Some? ==> r.value < limit
  {
    var digits := if |s| > 0 && s[0] == '+' then s[1..] else s;
    if digits != "" && AllDigits(digits) && DigitsValue(digits) < limit then Some(DigitsValue(digits)) else None
  }

  lemma ParsePrintedUnsigned(n: nat, limit: nat)
    requires n < limit
    ensures ParseUnsigned(Decimal(n), limit) == Some(n)
  {
    assert IsDigit(Decimal(n)[0]);
  }

  /** A plus sign in front is allowed, anything else than digits is not. */
  lemma ParseUnsignedForms(n: nat, limit: nat, s: string, k: nat)
    ensures ParseUnsigned("+" + Decimal(n), limit) == if n < limit then Some(n) else None
    ensures ParseUnsigned("", limit) == None && ParseUnsigned("+", limit) == None
    ensures k < |s| && !IsDigit(s[k]) && !(k == 0 && s[0] == '+') ==> ParseUnsigned(s, limit) == None
  {
    assert ("+" + Decimal(n))[1..] == Decimal(n);
    if k < |s| && !IsDigit(s[k]) && k > 0 {
      assert s[1..][k - 1] == s[k];
    }
  }

  // ---------- IPv4 addresses ----------

  /** An octet: one to three digits, no leading zero, below 256. */
  function ParseOctet(s: string): Option<byte> {
    if 1 <= |s| <= 3 && AllDigits(s) && (|s| > 1 ==> s[0] != '0') && DigitsValue(s) < 256
    then Some(DigitsValue(s)) else None
  }

  function ParseOctets(parts: seq<string>): Option<Ip4> {
    if |parts| != 4 then None
    else
      match (ParseOctet(parts[0]), ParseOctet(parts[1]), ParseOctet(parts[2]), ParseOctet(parts[3]))
      case (Some(a), Some(b), Some(c), Some(d)) => Some(Ip4(a, b, c, d))
      case _ => None
  }

  function ParseIp4(s: string): Option<Ip4> {
    ParseOctets(Split(s, '.'))
  }

  function PrintIp4(ip: Ip4): string {
    Join([Decimal(ip.a), Decimal(ip.b), Decimal(ip.c), Decimal(ip.d)], '.')
  }

  lemma ParsePrintedOctet(n: byte)
    ensures ParseOctet(Decimal(n)) == Some(n)
    ensures '.' !in Decimal(n) && '|' !in Decimal(n)
  {
    assert !IsDigit('.') && !IsDigit('|');
  }

  lemma ParsePrintedIp4(ip: Ip4)
    ensures ParseIp4(PrintIp4(ip)) == Some(ip)
  {
    ParsePrintedOctet(ip.a);
    ParsePrintedOctet(ip.b);
    ParsePrintedOctet(ip.c);
    ParsePrintedOctet(ip.d);
    SplitJoinedCleanly([Decimal(ip.a), Decimal(ip.b), Decimal(ip.c), Decimal(ip.d)], '.');
  }

  lemma ParseOctetIff(s: string, n: byte)
    ensures ParseOctet(s) == Some(n) <==> s == Decimal(n)
  {
    ParsePrintedOctet(n);
    if ParseOctet(s) == Some(n) {
      PrintedDigits(s);
    }
  }

  lemma OctetsArePrinted(parts: seq<string>, ip: Ip4)
    requires ParseOctets(parts) == Some(ip)
    ensures parts == [Decimal(ip.a), Decimal(ip.b), Decimal(ip.c), Decimal(ip.d)]
  {
    ParseOctetIff(parts[0], ip.a);
    ParseOctetIff(parts[1], ip.b);
    ParseOctetIff(parts[2], ip.c);
    ParseOctetIff(parts[3], ip.d);
  }

  /** A text is read as an address exactly if it is that address printed. */
  lemma ParseIp4Iff(s: string, ip: Ip4)
    ensures ParseIp4(s) == Some(ip) <==> s == PrintIp4(ip)
  {
    ParsePrintedIp4(ip);
    if ParseIp4(s) == Some(ip) {
      JoinSplit(s, '.');
      OctetsArePrinted(Split(s, '.'), ip);
    }
  }

  lemma {:induction false} JoinHoldsOnly(parts: seq<string>, sep: char, c: char)
    requires |parts| > 0 && c != sep && forall i :: 0 <= i < |parts| ==> c !in parts[i]
    ensures c !in Join(parts, sep)
  {
    if |parts| > 1 {
      JoinHoldsOnly(parts[1..], sep, c);
    }
  }

  lemma PrintedIp4IsClean(ip: Ip4)
    ensures '|' !in PrintIp4(ip)
  {
    ParsePrintedOctet(ip.a);
    ParsePrintedOctet(ip.b);
    ParsePrintedOctet(ip.c);
    ParsePrintedOctet(ip.d);
    JoinHoldsOnly([Decimal(ip.a), Decimal(ip.b), Decimal(ip.c), Decimal(ip.d)], '.', '|');
  }

  // ---------- base64 (section 4 of RFC 4648) ----------

  type sextet = x: int | 0 <= x < 64

  /** An alphabet for base64. */
  datatype Alphabet = Alphabet(toChar: sextet -> char, fromChar: char -> Option<sextet>) {
    ghost predicate Lawful() {
      && fromChar('=') == None
      && forall n: sextet {:trigger toChar(n)} ::
           fromChar(toChar(n)) == Some(n) && toChar(n) != '|' && !IsWhitespace(toChar(n))
    }
  }

  function SextetChar(n: sextet): char {
    if n < 26 then 'A' + n as char
    else if n < 52 then 'a' + (n - 26) as char
    else if n < 62 then '0' + (n - 52) as char
    else if n == 62 then '+' else '/'
  }

  function CharSextet(c: char): Option<sextet> {
    if 'A' <= c <= 'Z' then Some(c as int - 'A' as int)
    else if 'a' <= c <= 'z' then Some(c as int - 'a' as int + 26)
    else if '0' <= c <= '9' then Some(c as int - '0' as int + 52)
    else if c == '+' then Some(62)
    else if c == '/' then Some(63)
    else None
  }

  /** The standard alphabet. */
  function Standard(): (al: Alphabet)
    ensures al.Lawful()
  {
    Alphabet(SextetChar, CharSextet)
  }

  /** The four sextets of three bytes, and the three bytes of four sextets. */
  function Sextets(a: byte, b: byte, c: byte): (sextet, sextet, sextet, sextet) {
    (a / 4, a % 4 * 16 + b / 16, b % 16 * 4 + c / 64, c % 64)
  }

  function Octets(w: sextet, x: sextet, y: sextet, z: sextet): (byte, byte, byte) {
    (w * 4 + x / 16, x % 16 * 16 + y / 4, y % 4 * 64 + z)
  }

  lemma SplitByte16(high: nat, low: nat)
    requires low < 16
    ensures (high * 16 + low) / 16 == high && (high * 16 + low) % 16 == low
  {
  }

  lemma SplitByte4(high: nat, low: nat)
    requires low < 4
    ensures (high * 4 + low) / 4 == high && (high * 4 + low) % 4 == low
  {
  }

  lemma OctetsOfSextets(a: byte, b: byte, c: byte)
    ensures var (w, x, y, z) := Sextets(a, b, c); Octets(w, x, y, z) == (a, b, c)
  {
    SplitByte16(a % 4, b / 16);
    SplitByte4(b % 16, c / 64);
  }

  function EncodeWith(al: Alphabet, bs: seq<byte>): string {
    if |bs| == 0 then ""
    else if |bs| == 1 then
      var (w, x, _, _) := Sextets(bs[0], 0, 0);
      [al.toChar(w), al.toChar(x), '=', '=']
    else if |bs| == 2 then
      var (w, x, y, _) := Sextets(bs[0], bs[1], 0);
      [al.toChar(w), al.toChar(x), al.toChar(y), '=']
    else
      var (w, x, y, z) := Sextets(bs[0], bs[1], bs[2]);
      [al.toChar(w), al.toChar(x), al.toChar(y), al.toChar(z)] + EncodeWith(al, bs[3..])
  }

  /** Strict decoding: whole groups, padding only in the last, no stray bits under it. */
  function DecodeWith(al: Alphabet, s: string): Option<seq<byte>> {
    if |s| == 0 then Some([])
    else if |s| < 4 || al.fromChar(s[0]).None? || al.fromChar(s[1]).None? then None
    else
      var w, x := al.fromChar(s[0]).value, al.fromChar(s[1]).value;
      if s[2..] == "==" then
        var (a, b, _) := Octets(w, x, 0, 0);
        if b == 0 then Some([a]) else None
      else if al.fromChar(s[2]).None? then None
      else
        var y := al.fromChar(s[2]).value;
        if s[3..] == "=" then
          var (a, b, c) := Octets(w, x, y, 0);
          if c == 0 then Some([a, b]) else None
        else if al.fromChar(s[3]).None? then None
        else
          var (a, b, c) := Octets(w, x, y, al.fromChar(s[3]).value);
          var rest := DecodeWith(al, s[4..]);
          if rest.None? then None else Some([a, b, c] + rest.value)
  }

  function Encode64(bs: seq<byte>): string {
    EncodeWith(Standard(), bs)
  }

  function Decode64(s: string): Option<seq<byte>> {
    DecodeWith(Standard(), s)
  }

  predicate Clean64(s: string) {
    forall i :: 0 <= i < |s| ==> s[i] != '|' && !IsWhitespace(s[i])
  }

  /** Decoding gives the bytes back, and the text holds neither '|' nor white space. */
  ghost predicate RoundTrips(al: Alphabet, bs: seq<byte>) {
    DecodeWith(al, EncodeWith(al, bs)) == Some(bs) && Clean64(EncodeWith(al, bs))
  }

  lemma LongerRoundTrips(al: Alphabet, a: byte, b: byte, c: byte, rest: seq<byte>)
    requires al.Lawful() && RoundTrips(al, rest)
    ensures RoundTrips(al, [a, b, c] + rest)
  {
    OctetsOfSextets(a, b, c);
    var (w, x, y, z) := Sextets(a, b, c);
    var tail := EncodeWith(al, rest);
    var s := [al.toChar(w), al.toChar(x), al.toChar(y), al.toChar(z)] + tail;
    assert ([a, b, c] + rest)[3..] == rest;
    assert s == EncodeWith(al, [a, b, c] + rest);
    assert s[4..] == tail;
    assert s[2..][0] == al.toChar(y) && s[3..][0] == al.toChar(z);
  }

  lemma PairRoundTrips(al: Alphabet, a: byte, b: byte)
    requires al.Lawful()
    ensures RoundTrips(al, [a, b])
  {
    OctetsOfSextets(a, b, 0);
    var s := EncodeWith(al, [a, b]);
    assert s[3..] == "=";
    assert s[2..][0] == s[2];
  }

  lemma SingleRoundTrips(al: Alphabet, a: byte)
    requires al.Lawful()
    ensures RoundTrips(al, [a])
  {
    OctetsOfSextets(a, 0, 0);
    assert EncodeWith(al, [a])[2..] == "==";
  }

  lemma {:induction false} EncodedRoundTrips(al: Alphabet, bs: seq<byte>)
    requires al.Lawful()
    ensures RoundTrips(al, bs)
  {
    if |bs| == 1 {
      SingleRoundTrips(al, bs[0]);
      assert bs == [bs[0]];
    } else if |bs| == 2 {
      PairRoundTrips(al, bs[0], bs[1]);
      assert bs == [bs[0], bs[1]];
    } else if |bs| >= 3 {
      EncodedRoundTrips(al, bs[3..]);
      LongerRoundTrips(al, bs[0], bs[1], bs[2], bs[3..]);
      assert bs == [bs[0], bs[1], bs[2]] + bs[3..];
    }
  }

  /** Decoding inverts encoding. */
  lemma DecodeEncoded(bs: seq<byte>)
    ensures Decode64(Encode64(bs)) == Some(bs) && Clean64(Encode64(bs))
  {
    EncodedRoundTrips(Standard(), bs);
  }

  /** Every character stands for one sextet alone. */
  ghost predicate IsOneToOne(al: Alphabet) {
    forall c: char {:trigger al.fromChar(c)} :: al.fromChar(c).Some? ==> al.toChar(al.fromChar(c).value) == c
  }

  lemma SextetsOfOctets(w: sextet, x: sextet, y: sextet, z: sextet)
    ensures var (a, b, c) := Octets(w, x, y, z); Sextets(a, b, c) == (w, x, y, z)
  {
    SplitByte4(w, x / 16);
    SplitByte16(x % 16, y / 4);
    SplitByte64(y % 4, z);
  }

  lemma SplitByte64(high: nat, low: nat)
    requires low < 64
    ensures (high * 64 + low) / 64 == high && (high * 64 + low) % 64 == low
  {
  }

  lemma LastGroupIsEncoded(al: Alphabet, s: string)
    requires IsOneToOne(al) && |s| == 4 && (s[2..] == "==" || (s[2..] != "==" && s[3..] == "="))
    requires DecodeWith(al, s).Some?
    ensures EncodeWith(al, DecodeWith(al, s).value) == s
  {
    var w, x := al.fromChar(s[0]).value, al.fromChar(s[1]).value;
    if s[2..] == "==" {
      SextetsOfOctets(w, x, 0, 0);
      assert s[2] == s[2..][0] && s[3] == s[2..][1];
    } else {
      SextetsOfOctets(w, x, al.fromChar(s[2]).value, 0);
      assert s[3] == s[3..][0];
    }
  }

  lemma FullGroupIsEncoded(al: Alphabet, s: string, rest: seq<byte>)
    requires IsOneToOne(al) && |s| >= 4 && s[2..] != "==" && s[3..] != "=" && DecodeWith(al, s).Some?
    requires DecodeWith(al, s[4..]) == Some(rest) && EncodeWith(al, rest) == s[4..]
    ensures EncodeWith(al, DecodeWith(al, s).value) == s
  {
    var w, x := al.fromChar(s[0]).value, al.fromChar(s[1]).value;
    var y, z := al.fromChar(s[2]).value, al.fromChar(s[3]).value;
    SextetsOfOctets(w, x, y, z);
    var (a, b, c) := Octets(w, x, y, z);
    assert ([a, b, c] + rest)[3..] == rest;
    assert s == [s[0], s[1], s[2], s[3]] + s[4..];
  }

  /** Whatever is decoded is the encoding of what it was decoded to. */
  lemma {:induction false} DecodedIsEncoded(al: Alphabet, s: string)
    requires IsOneToOne(al) && DecodeWith(al, s).Some?
    ensures EncodeWith(al, DecodeWith(al, s).value) == s
    decreases |s|
  {
    if s != "" {
      if s[2..] == "==" || s[3..] == "=" {
        LastGroupIsEncoded(al, s);
      } else {
        DecodedIsEncoded(al, s[4..]);
        FullGroupIsEncoded(al, s, DecodeWith(al, s[4..]).value);
      }
    }
  }

  lemma Decode64Iff(s: string, bs: seq<byte>)
    ensures Decode64(s) == Some(bs) <==> s == Encode64(bs)
  {
    DecodeEncoded(bs);
    if Decode64(s) == Some(bs) {
      DecodedIsEncoded(Standard(), s);
    }
  }

  /** The alphabet of the standard: four runs, and '+' and '/' (table 1 of RFC 4648). */
  lemma AlphabetIs(n: sextet)
    ensures SextetChar(0) == 'A' && SextetChar(25) == 'Z' && SextetChar(26) == 'a' && SextetChar(51) == 'z'
    ensures SextetChar(52) == '0' && SextetChar(61) == '9' && SextetChar(62) == '+' && SextetChar(63) == '/'
    ensures n < 62 && n !in {25, 51, 61} ==> SextetChar(n + 1) as int == SextetChar(n) as int + 1
    ensures CharSextet(SextetChar(n)) == Some(n)
  {
  }

  /** The four sextets are the digits of the three bytes as one number. */
  lemma SextetsAreDigits(a: byte, b: byte, c: byte)
    ensures var (w, x, y, z) := Sextets(a, b, c); 64 * (64 * (64 * w + x) + y) + z == 256 * (256 * a + b) + c
  {
  }

  /** How the groups are padded: as "f", "fo" and "foobar" of section 10 of RFC 4648. */
  lemma EncodedOne(al: Alphabet)
    ensures EncodeWith(al, [102]) == [al.toChar(25), al.toChar(32), '=', '=']
  {
  }

  lemma EncodedTwo(al: Alphabet)
    ensures EncodeWith(al, [102, 111]) == [al.toChar(25), al.toChar(38), al.toChar(60), '=']
  {
  }

  // ---------- trimming ----------

  /** The characters with the Unicode property White_Space. */
  predicate IsWhitespace(c: char) {
    var n := c as int;
    9 <= n <= 13 || n == 0x20 || n == 0x85 || n == 0xA0 || n == 0x1680 || 0x2000 <= n <= 0x200A
    || n == 0x2028 || n == 0x2029 || n == 0x202F || n == 0x205F || n == 0x3000
  }

  function Trim(s: string): string
    decreases |s|
  {
    if s == "" then ""
    else if IsWhitespace(s[0]) then Trim(s[1..])
    else if IsWhitespace(s[|s| - 1]) then Trim(s[..|s| - 1])
    else s
  }

  /** A public key in base64, surrounded by white space or not. */
  function ParsePublicKey(s: string): Option<Key> {
    match Decode64(Trim(s))
    case Some(bs) => if |bs| == KEY_LENGTH then Some(bs) else None
    case None => None
  }

  predicate Blank(s: string) {
    forall i :: 0 <= i < |s| ==> IsWhitespace(s[i])
  }

  lemma {:induction false} TrimBefore(before: string, s: string)
    requires Blank(before)
    ensures Trim(before + s) == Trim(s)
  {
    if before == "" {
      assert before + s == s;
    } else {
      TrimBefore(before[1..], s);
      assert (before + s)[1..] == before[1..] + s;
    }
  }

  lemma {:induction false} TrimAfter(s: string, after: string)
    requires Blank(after) && s != "" && !IsWhitespace(s[0]) && !IsWhitespace(s[|s| - 1])
    ensures Trim(s + after) == s
    decreases |after|
  {
    if after == "" {
      assert s + after == s;
    } else {
      var init := after[..|after| - 1];
      TrimAfter(s, init);
      assert (s + after)[..|s + after| - 1] == s + init;
    }
  }

  /** The characters trimmed: those that Unicode calls white space. */
  lemma WhitespaceIs(c: char)
    ensures IsWhitespace(c) <==>
            c as int in {0x09, 0x0A, 0x0B, 0x0C, 0x0D, 0x20, 0x85, 0xA0, 0x1680, 0x2000, 0x2001, 0x2002, 0x2003, 0x2004,
                         0x2005, 0x2006, 0x2007, 0x2008, 0x2009, 0x200A, 0x2028, 0x2029, 0x202F, 0x205F, 0x3000}
  {
  }

  /** Trimming takes nothing but white space away. */
  lemma {:induction false} TrimTakes(s: string) returns (before: string, after: string)
    ensures Blank(before) && Blank(after) && s == before + Trim(s) + after
    decreases |s|
  {
    before, after := "", "";
    if s == "" {
    } else if IsWhitespace(s[0]) {
      before, after := TrimTakes(s[1..]);
      before := [s[0]] + before;
    } else if IsWhitespace(s[|s| - 1]) {
      before, after := TrimTakes(s[..|s| - 1]);
      after := after + [s[|s| - 1]];
    }
  }

  /** A key is read back from its base64 form, whatever white space surrounds it. */
  lemma ParsePrintedKey(before: string, key: Key, after: string)
    requires Blank(before) && Blank(after)
    ensures ParsePublicKey(before + Encode64(key) + after) == Some(key)
  {
    DecodeEncoded(key);
    var s := Encode64(key);
    TrimAfter(s, after);
    TrimBefore(before, s + after);
    assert before + s + after == before + (s + after);
  }

  /** A text is read as a key exactly if it is the key printed, with white space around it. */
  lemma ParsePublicKeyIff(s: string, key: Key)
    ensures ParsePublicKey(s) == Some(key) <==>
            exists before, after :: Blank(before) && Blank(after) && s == before + Encode64(key) + after
  {
    if ParsePublicKey(s) == Some(key) {
      var before, after := TrimTakes(s);
      Decode64Iff(Trim(s), key);
    }
    if exists before, after :: Blank(before) && Blank(after) && s == before + Encode64(key) + after {
      var before, after :| Blank(before) && Blank(after) && s == before + Encode64(key) + after;
      ParsePrintedKey(before, key, after);
    }
  }
}
