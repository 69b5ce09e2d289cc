/**
 Validation of the address literal that opens every host line. An IPv4 literal
 is four `dec-octet`s joined by dots (section 3.2.2 of RFC 3986); an IPv6
 literal is the text form of section 2.2 of RFC 4291 with at most one `::`,
 optionally followed by a `%zone` suffix (section 11 of RFC 4007).
 */
module Address {
  import opened Text

  predicate IsDigit(c: char) {
    '0' <= c <= '9'
  }

  predicate IsHexDigit(c: char) {
    IsDigit(c) || ('a' <= c <= 'f') || ('A' <= c <= 'F')
  }

  predicate AllDigits(s: string) {
    forall i :: 0 <= i < |s| ==> IsDigit(s[i])
  }

  /** The number a string of decimal digits spells. */
  function DecimalValue(s: string): nat
    requires AllDigits(s)
  {
    if s == [] then 0 else 10 * DecimalValue(s[..|s| - 1]) + (s[|s| - 1] as int - '0' as int)
  }

  /** `dec-octet`: 0 to 255 written without leading zeros. */
  predicate IsDecOctet(s: string) {
    && 1 <= |s| <= 3
    && AllDigits(s)
    && (|s| == 1 || s[0] != '0')
    && DecimalValue(s) <= 255
  }

  /**
   An IPv4 literal: four `dec-octet`s separated by dots (section 3.2.2 of
   RFC 3986), so between `0.0.0.0` and `255.255.255.255` in length.
   */
  predicate IsIPv4(s: string)
    ensures IsIPv4(s) ==> 7 <= |s| <= 15
  {
    var parts := SplitOn(s, '.');
    var ok := |parts| == 4 && forall i :: 0 <= i < |parts| ==> IsDecOctet(parts[i]);
    if ok then JoinFourLength(".", parts); ok else ok
  }

  /** Four parts joined on a one-character separator: the parts and three separators. */
  lemma JoinFourLength(sep: string, p: seq<string>)
    requires |p| == 4 && |sep| == 1
    ensures |JoinWith(sep, p)| == |p[0]| + |p[1]| + |p[2]| + |p[3]| + 3
  {
    assert p[1..][1..] == p[2..] && p[2..][1..] == p[3..] && p[3..] == [p[3]];
    assert |JoinWith(sep, p[2..])| == |p[2]| + |p[3]| + 1;
    assert |JoinWith(sep, p[1..])| == |p[1]| + |p[2]| + |p[3]| + 2;
  }

  function Digit(d: nat): (c: char)
    requires d < 10
    ensures IsDigit(c) && c as int - '0' as int == d
  {
    ('0' as int + d) as char
  }

  lemma DecimalValueSnoc(s: string, c: char)
    requires AllDigits(s) && IsDigit(c)
    ensures AllDigits(s + [c])
    ensures DecimalValue(s + [c]) == 10 * DecimalValue(s) + (c as int - '0' as int)
  {
    assert (s + [c])[..|s|] == s;
  }

  /** The decimal text of `n`, without leading zeros. */
  function DecimalText(n: nat): (r: string)
    ensures AllDigits(r) && DecimalValue(r) == n
    ensures r != [] && (|r| == 1 || r[0] != '0')
    ensures n < 10 ==> |r| == 1
    ensures 10 <= n < 100 ==> |r| == 2
    ensures 100 <= n < 1000 ==> |r| == 3
  {
    if n < 10 then
      [Digit(n)]
    else
      var r := DecimalText(n / 10) + [Digit(n % 10)];
      DecimalValueSnoc(DecimalText(n / 10), Digit(n % 10));
      r
  }

  /** The canonical text of an octet value is a `dec-octet`. */
  lemma {:induction false} LeadingDigitPositive(s: string)
    requires AllDigits(s) && s != [] && s[0] != '0'
    ensures DecimalValue(s) >= 1
    decreases |s|
  {
    if |s| > 1 {
      LeadingDigitPositive(s[..|s| - 1]);
    }
  }

  /** A digit string without leading zeros is the decimal text of its value: text and value correspond one to one. */
  lemma {:induction false} DecimalTextCanonical(s: string)
    requires AllDigits(s) && s != [] && (|s| == 1 || s[0] != '0')
    ensures DecimalText(DecimalValue(s)) == s
    decreases |s|
  {
    var c := s[|s| - 1];
    var d := c as int - '0' as int;
    if |s| == 1 {
      assert Digit(d) == c;
    } else {
      var init := s[..|s| - 1];
      LeadingDigitPositive(init);
      DecimalTextCanonical(init);
      var v := DecimalValue(s);
      assert v == 10 * DecimalValue(init) + d;
      assert v / 10 == DecimalValue(init) && v % 10 == d;
      assert Digit(d) == c;
      assert s == init + [c];
    }
  }

  /** `a.b.c.d` written with canonical octets. */
  function DottedQuad(a: nat, b: nat, c: nat, d: nat): string
    requires a <= 255 && b <= 255 && c <= 255 && d <= 255
  {
    JoinWith(".", [DecimalText(a), DecimalText(b), DecimalText(c), DecimalText(d)])
  }

  lemma OctetTextIsDecOctet(n: nat)
    requires n <= 255
    ensures IsDecOctet(DecimalText(n)) && '.' !in DecimalText(n)
  {
    var r := DecimalText(n);
    assert forall i :: 0 <= i < |r| ==> IsDigit(r[i]);
  }

  /** Every four octet values make an accepted IPv4 literal, whose pieces give the values back. */
  lemma DottedQuadIsIPv4(a: nat, b: nat, c: nat, d: nat)
    requires a <= 255 && b <= 255 && c <= 255 && d <= 255
    ensures IsIPv4(DottedQuad(a, b, c, d))
    ensures var p := SplitOn(DottedQuad(a, b, c, d), '.');
      DecimalValue(p[0]) == a && DecimalValue(p[1]) == b && DecimalValue(p[2]) == c && DecimalValue(p[3]) == d
  {
    var parts := [DecimalText(a), DecimalText(b), DecimalText(c), DecimalText(d)];
    OctetTextIsDecOctet(a);
    OctetTextIsDecOctet(b);
    OctetTextIsDecOctet(c);
    OctetTextIsDecOctet(d);
    SplitOnJoin('.', parts);
    assert SplitOn(DottedQuad(a, b, c, d), '.') == parts;
  }

  lemma CanonicalOctetsJoin(p: seq<string>)
    requires |p| == 4 && IsDecOctet(p[0]) && IsDecOctet(p[1]) && IsDecOctet(p[2]) && IsDecOctet(p[3])
    ensures JoinWith(".", p) == DottedQuad(DecimalValue(p[0]), DecimalValue(p[1]), DecimalValue(p[2]), DecimalValue(p[3]))
  {
    DecimalTextCanonical(p[0]);
    DecimalTextCanonical(p[1]);
    DecimalTextCanonical(p[2]);
    DecimalTextCanonical(p[3]);
    assert [p[0], p[1], p[2], p[3]] == p;
  }

  /** Conversely every accepted IPv4 literal is the dotted quad of its octet values. */
  lemma IPv4IsDottedQuad(s: string)
    requires IsIPv4(s)
    ensures var p := SplitOn(s, '.');
      s == DottedQuad(DecimalValue(p[0]), DecimalValue(p[1]), DecimalValue(p[2]), DecimalValue(p[3]))
  {
    var p := SplitOn(s, '.');
    assert IsDecOctet(p[0]) && IsDecOctet(p[1]) && IsDecOctet(p[2]) && IsDecOctet(p[3]);
    CanonicalOctetsJoin(p);
  }

  /** `h16`: one to four hexadecimal digits. */
  predicate IsH16(s: string) {
    1 <= |s| <= 4 && forall i :: 0 <= i < |s| ==> IsHexDigit(s[i])
  }

  /** Colon-separated groups, each an `h16`, except that the last may be an embedded IPv4 literal. */
  predicate GroupsOk(groups: seq<string>, ipv4Last: bool)
    decreases |groups|
  {
    groups == [] ||
    ((IsH16(groups[0]) || (ipv4Last && |groups| == 1 && IsIPv4(groups[0]))) && GroupsOk(groups[1..], ipv4Last))
  }

  /** Number of 16-bit pieces spelled by a group list (an embedded IPv4 literal is two). */
  function Width(groups: seq<string>): nat
  {
    |groups| + (if |groups| > 0 && IsIPv4(groups[|groups| - 1]) then 1 else 0)
  }

  /** Number of 16-bit pieces on one side of a `::` (none when that side is empty). */
  function SideWidth(side: string): nat
  {
    if side == [] then 0 else Width(SplitOn(side, ':'))
  }

  /** Index of the first `::`, or `|s|` when there is none. */
  function DoubleColonAt(s: string): (k: nat)
    ensures k <= |s|
    ensures k < |s| ==> k + 1 < |s| && s[k] == ':' && s[k + 1] == ':'
    ensures forall j :: 0 <= j < k && j + 1 < |s| ==> !(s[j] == ':' && s[j + 1] == ':')
  {
    if |s| < 2 then |s|
    else if s[0] == ':' && s[1] == ':' then 0
    else
      var k := DoubleColonAt(s[1..]);
      assert forall j :: 1 <= j < |s| ==> s[j] == s[1..][j - 1];
      if k == |s| - 1 then |s| else k + 1
  }

  /** An IPv6 address in text form without a zone: eight pieces, or fewer around a single `::`. */
  predicate IsIPv6Address(s: string) {
    var k := DoubleColonAt(s);
    if k == |s| then
      var groups := SplitOn(s, ':');
      GroupsOk(groups, true) && Width(groups) == 8
    else
      var head := s[..k];
      var tail := s[k + 2..];
      && DoubleColonAt(tail) == |tail|
      && (head == [] || GroupsOk(SplitOn(head, ':'), false))
      && (tail == [] || GroupsOk(SplitOn(tail, ':'), true))
      && SideWidth(head) + SideWidth(tail) <= 7
  }

  /** A zone identifier: non-empty, and free of whitespace and of further `%`. */
  predicate IsZoneId(z: string) {
    z != [] && NoSpace(z) && '%' !in z
  }

  /** The text before the first `%`: the address proper. */
  function AddressPart(s: string): string
  {
    s[..IndexOf(s, '%')]
  }

  /** No `%` at all, or a `%` followed by a valid zone identifier. */
  predicate ZoneOk(s: string) {
    var p := IndexOf(s, '%');
    p == |s| || IsZoneId(s[p + 1..])
  }

  /**
   An IPv6 literal as a hosts line may hold it: the address proper and an
   optional zone. The shortest is `::`.
   */
  predicate IsIPv6(s: string)
    ensures IsIPv6(s) ==> |s| >= 2
  {
    && IsIPv6Address(AddressPart(s)) && ZoneOk(s)
    && (IPv6AddressLength(AddressPart(s)); true)
  }

  lemma IPv6AddressLength(a: string)
    requires IsIPv6Address(a)
    ensures |a| >= 2
  {
    hide IsIPv4, GroupsOk;
    if DoubleColonAt(a) == |a| {
      JoinWithLength(":", SplitOn(a, ':'));
    }
  }

  /** A join of `n` parts holds at least `n - 1` separators. */
  lemma {:induction false} JoinWithLength(sep: string, parts: seq<string>)
    requires parts != []
    ensures |JoinWith(sep, parts)| >= (|parts| - 1) * |sep|
    decreases |parts|
  {
    if |parts| > 1 {
      JoinWithLength(sep, parts[1..]);
    }
  }

  /** A literal of either family as it may appear in a hosts line. */
  predicate IsAddressChar(c: char) {
    IsHexDigit(c) || c == ':' || c == '.'
  }

  lemma {:induction false} IPv4Chars(s: string)
    requires IsIPv4(s)
    ensures forall i :: 0 <= i < |s| ==> IsDigit(s[i]) || s[i] == '.'
  {
    var parts := SplitOn(s, '.');
    JoinWithChars(".", parts, c => IsDigit(c) || c == '.');
  }

  predicate IsAddressText(s: string) {
    forall i :: 0 <= i < |s| ==> IsAddressChar(s[i])
  }

  lemma GroupChars(g: string)
    requires IsH16(g) || IsIPv4(g)
    ensures IsAddressText(g)
  {
    if !IsH16(g) {
      IPv4Chars(g);
    }
  }

  /** Groups are written with address characters only, and so is their colon-join. */
  lemma {:induction false} GroupsChars(groups: seq<string>, ipv4Last: bool)
    requires GroupsOk(groups, ipv4Last)
    ensures IsAddressText(JoinWith(":", groups))
    decreases |groups|
  {
    if groups != [] {
      GroupChars(groups[0]);
      if |groups| > 1 {
        GroupsChars(groups[1..], ipv4Last);
        var rest := JoinWith(":", groups[1..]);
        var s := groups[0] + ":" + rest;
        assert forall i :: 0 <= i < |groups[0]| ==> s[i] == groups[0][i];
        assert forall i :: |groups[0]| < i < |s| ==> s[i] == rest[i - |groups[0]| - 1];
      }
    }
  }

  lemma AddressTextAppend(a: string, b: string)
    requires IsAddressText(a) && IsAddressText(b)
    ensures IsAddressText(a + b)
  {
    assert forall i :: |a| <= i < |a + b| ==> (a + b)[i] == b[i - |a|];
  }

  lemma IPv6AddressChars(s: string)
    requires IsIPv6Address(s)
    ensures s != [] && ':' in s
    ensures IsAddressText(s)
  {
    var k := DoubleColonAt(s);
    if k == |s| {
      var groups := SplitOn(s, ':');
      GroupsChars(groups, true);
    } else {
      var head, tail := s[..k], s[k + 2..];
      if head != [] {
        GroupsChars(SplitOn(head, ':'), false);
      }
      if tail != [] {
        GroupsChars(SplitOn(tail, ':'), true);
      }
      AddressTextAround(s, k);
    }
  }

  /** Address text on both sides of a `::` makes address text. */
  lemma AddressTextAround(s: string, k: nat)
    requires k + 2 <= |s| && s[k] == ':' && s[k + 1] == ':'
    requires IsAddressText(s[..k]) && IsAddressText(s[k + 2..])
    ensures IsAddressText(s)
  {
    var head, tail := s[..k], s[k + 2..];
    AddressTextAppend("::", tail);
    AddressTextAppend(head, "::" + tail);
    assert s == head + ("::" + tail);
  }

  /** Address characters are never whitespace, `#` or `%`. */
  lemma AddressTextIsPlain(s: string)
    requires IsAddressText(s)
    ensures NoSpace(s) && '#' !in s && '%' !in s
  {}

  /** What holds of the address before a `%` holds of the whole literal. */
  lemma ZoneSuffixKeepsShape(s: string, p: nat)
    requires p <= |s| && (p < |s| ==> s[p] == '%' && NoSpace(s[p + 1..]))
    requires var core := s[..p]; core != [] && ':' in core && IsAddressChar(core[0]) && NoSpace(core)
    ensures s != [] && ':' in s && IsAddressChar(s[0]) && NoSpace(s)
  {
    var core := s[..p];
    assert s[0] == core[0];
    if p < |s| {
      var zone := s[p + 1..];
      assert NoSpace(['%'] + zone);
      NoSpaceAppend(core, ['%'] + zone);
      assert s == core + (['%'] + zone);
    } else {
      assert core == s;
    }
  }

  /** An IPv6 literal always contains a colon and starts with an address character, never with whitespace or `#`. */
  lemma IPv6Shape(s: string)
    requires IsIPv6(s)
    ensures s != [] && ':' in s && IsAddressChar(s[0])
    ensures NoSpace(s)
  {
    var p := IndexOf(s, '%');
    var core := AddressPart(s);
    IPv6AddressChars(core);
    AddressTextIsPlain(core);
    ZoneSuffixKeepsShape(s, p);
  }

  /** An IPv4 literal is non-empty, starts with a digit and holds no colon and no whitespace. */
  lemma IPv4Shape(s: string)
    requires IsIPv4(s)
    ensures s != [] && IsDigit(s[0]) && ':' !in s
    ensures NoSpace(s)
  {
    IPv4Chars(s);
    var parts := SplitOn(s, '.');
    assert parts[0] != [] && IsDigit(parts[0][0]);
    assert s == parts[0] + "." + JoinWith(".", parts[1..]);
    assert s[0] == parts[0][0];
  }

  /** No literal belongs to both families, so the order in which they are tried is immaterial. */
  lemma FamiliesDisjoint(s: string)
    ensures !(IsIPv4(s) && IsIPv6(s))
  {
    if IsIPv4(s) {
      IPv4Shape(s);
      if IsIPv6(s) {
        IPv6Shape(s);
      }
    }
  }

  /** An `h16` holds neither a colon, a dot nor a `%`. */
  lemma H16Plain(g: string)
    requires IsH16(g)
    ensures g != [] && ':' !in g && '.' !in g && '%' !in g && !IsIPv4(g)
  {
    assert SplitOn(g, '.') == [g];
  }

  /** A list of `h16` groups passes the group check and spells one piece per group. */
  lemma {:induction false} H16GroupsOk(groups: seq<string>, ipv4Last: bool)
    requires forall i :: 0 <= i < |groups| ==> IsH16(groups[i])
    ensures GroupsOk(groups, ipv4Last)
    ensures Width(groups) == |groups|
    decreases |groups|
  {
    if groups != [] {
      H16GroupsOk(groups[1..], ipv4Last);
      H16Plain(groups[|groups| - 1]);
    }
  }

  /** No two adjacent colons in `s`. */
  predicate NoDoubleColon(s: string) {
    forall j :: 0 <= j < |s| - 1 ==> !(s[j] == ':' && s[j + 1] == ':')
  }

  lemma NoColonNoDoubleColon(g: string)
    requires ':' !in g
    ensures NoDoubleColon(g)
  {}

  /** A colon between a colon-free piece and text starting with no colon adds no `::`. */
  lemma NoDoubleColonJoin(g: string, r: string)
    requires ':' !in g && g != [] && r != [] && r[0] != ':' && NoDoubleColon(r)
    ensures NoDoubleColon(g + ":" + r)
  {
    var s := g + ":" + r;
    forall j | 0 <= j < |s| - 1
      ensures !(s[j] == ':' && s[j + 1] == ':')
    {
      if j < |g| {
        assert s[j] == g[j];
      } else if j > |g| {
        assert s[j] == r[j - |g| - 1] && s[j + 1] == r[j - |g|];
      } else {
        assert s[j + 1] == r[0];
      }
    }
  }

  /** The colon-join of `h16` groups is address text without `::`, and neither starts nor ends with a colon. */
  lemma {:induction false} H16JoinPlain(groups: seq<string>)
    requires forall i :: 0 <= i < |groups| ==> IsH16(groups[i])
    ensures var s := JoinWith(":", groups);
      && (groups == [] <==> s == [])
      && (s != [] ==> s[0] != ':' && s[|s| - 1] != ':')
      && NoDoubleColon(s)
      && IsAddressText(s)
    decreases |groups|
  {
    hide IsIPv4, NoDoubleColon;
    var s := JoinWith(":", groups);
    if groups != [] {
      var g := groups[0];
      H16Plain(g);
      H16GroupsOk(groups, false);
      GroupsChars(groups, false);
      if |groups| > 1 {
        var r := JoinWith(":", groups[1..]);
        H16JoinPlain(groups[1..]);
        assert s == g + ":" + r;
        NoDoubleColonJoin(g, r);
      } else {
        NoColonNoDoubleColon(g);
      }
    } else {
      NoColonNoDoubleColon(s);
    }
  }

  /** Eight `h16` groups joined by colons are an IPv6 literal (the full form of section 2.2 of RFC 4291). */
  lemma IPv6Full(groups: seq<string>)
    requires |groups| == 8 && forall i :: 0 <= i < |groups| ==> IsH16(groups[i])
    ensures IsIPv6(JoinWith(":", groups))
  {
    var s := JoinWith(":", groups);
    H16JoinPlain(groups);
    H16GroupsOk(groups, true);
    forall i | 0 <= i < |groups|
      ensures ':' !in groups[i]
    {
      H16Plain(groups[i]);
    }
    SplitOnJoin(':', groups);
    AddressTextIsPlain(s);
    assert AddressPart(s) == s;
  }

  /** Address text around a `::` that is the first one: the split point and the absence of a zone are found. */
  lemma FirstDoubleColon(h: string, t: string)
    requires h != [] ==> h[|h| - 1] != ':'
    requires NoDoubleColon(h)
    requires IsAddressText(h) && IsAddressText(t)
    ensures var s := h + "::" + t;
      && DoubleColonAt(s) == |h| && s[..|h|] == h && s[|h| + 2..] == t
      && AddressPart(s) == s
  {
    var s := h + "::" + t;
    assert s[..|h|] == h && s[|h| + 2..] == t;
    forall j | 0 <= j < |h|
      ensures !(s[j] == ':' && s[j + 1] == ':')
    {
      assert s[j] == h[j];
      if j + 1 < |h| {
        assert s[j + 1] == h[j + 1];
      }
    }
    assert s[|h|] == ':' && s[|h| + 1] == ':';
    AddressTextAround(s, |h|);
    AddressTextIsPlain(s);
  }

  /**
   At most seven `h16` groups around one `::` are an IPv6 literal (the
   compressed form of section 2.2 of RFC 4291); either side may be empty.
   */
  lemma IPv6Compressed(head: seq<string>, tail: seq<string>)
    requires |head| + |tail| <= 7
    requires forall i :: 0 <= i < |head| ==> IsH16(head[i])
    requires forall i :: 0 <= i < |tail| ==> IsH16(tail[i])
    ensures IsIPv6(JoinWith(":", head) + "::" + JoinWith(":", tail))
  {
    hide IsIPv4, IsH16, IsIPv6;
    var h, t := JoinWith(":", head), JoinWith(":", tail);
    H16JoinPlain(head);
    H16JoinPlain(tail);
    FirstDoubleColon(h, t);
    H16Side(head, false);
    H16Side(tail, true);
    PlainIPv6(h + "::" + t);
  }

  /** An IPv6 address with no zone part is an IPv6 literal. */
  lemma PlainIPv6(s: string)
    requires IsIPv6Address(s) && AddressPart(s) == s
    ensures IsIPv6(s)
  {
    assert IndexOf(s, '%') == |s|;
  }

  /** One side of a `::` spelled by `h16` groups splits back into them, passes the group check and has one piece per group. */
  lemma H16Side(groups: seq<string>, ipv4Last: bool)
    requires forall i :: 0 <= i < |groups| ==> IsH16(groups[i])
    ensures var side := JoinWith(":", groups);
      side != [] ==> GroupsOk(SplitOn(side, ':'), ipv4Last) && SideWidth(side) == |groups|
  {
    forall i | 0 <= i < |groups|
      ensures ':' !in groups[i]
    {
      H16Plain(groups[i]);
    }
    H16GroupsOk(groups, ipv4Last);
    if groups != [] {
      SplitOnJoin(':', groups);
    }
  }

  /** An IPv6 literal without a zone, followed by `%` and a zone identifier, is still an IPv6 literal (section 11 of RFC 4007). */
  lemma WithZone(a: string, z: string)
    requires IsIPv6(a) && '%' !in a && IsZoneId(z)
    ensures IsIPv6(a + "%" + z)
  {
    var s := a + "%" + z;
    assert s[|a|] == '%';
    assert forall i :: 0 <= i < |a| ==> s[i] == a[i];
    assert IndexOf(s, '%') == |a|;
    assert s[..|a|] == a && s[|a| + 1..] == z;
    assert AddressPart(a) == a;
  }

  /** At most one `::`: any text with two of them (and no zone) is rejected. */
  lemma TwoCompressionsRejected(a: string, b: string, c: string)
    requires '%' !in a && '%' !in b && '%' !in c
    ensures !IsIPv6(a + "::" + b + "::" + c)
  {
    var s := a + "::" + b + "::" + c;
    assert s[|a|] == ':' && s[|a| + 1] == ':';
    var second := |a| + 2 + |b|;
    assert s[second] == ':' && s[second + 1] == ':';
    forall i | 0 <= i < |s|
      ensures s[i] != '%'
    {
      if i < |a| {
        assert s[i] == a[i];
      } else if |a| + 2 <= i < second {
        assert s[i] == b[i - |a| - 2];
      } else if second + 2 <= i {
        assert s[i] == c[i - second - 2];
      }
    }
    assert IndexOf(s, '%') == |s|;
    assert AddressPart(s) == s;
    var k := DoubleColonAt(s);
    assert k <= |a|;
    var tail := s[k + 2..];
    var q := second - k - 2;
    assert tail[q] == ':' && tail[q + 1] == ':';
    assert DoubleColonAt(tail) <= q;
  }

  /** The full form: colon-separated groups spelling eight pieces. */
  predicate FullForm(s: string, groups: seq<string>) {
    s == JoinWith(":", groups) && GroupsOk(groups, true) && Width(groups) == 8
  }

  /** The compressed form: `h16` groups, a `::`, and groups that may end in an IPv4 literal, spelling at most seven pieces. */
  predicate CompressedForm(s: string, head: seq<string>, tail: seq<string>) {
    && s == JoinWith(":", head) + "::" + JoinWith(":", tail)
    && GroupsOk(head, false) && GroupsOk(tail, true)
    && Width(head) + Width(tail) <= 7
  }

  /**
   The converse of IPv6Full and IPv6Compressed: every IPv6 literal without a
   zone is the full form or a single compression of groups, with one piece per
   group and two for an embedded IPv4 literal.
   */
  lemma IPv6AddressForms(s: string)
    requires IsIPv6Address(s)
    ensures (exists groups :: FullForm(s, groups)) || (exists head, tail :: CompressedForm(s, head, tail))
  {
    hide IsIPv4, GroupsOk, Width, SideWidth, DoubleColonAt, IsIPv6Address, FullForm, CompressedForm;
    if DoubleColonAt(s) == |s| {
      FullFormOf(s);
    } else {
      CompressedFormOf(s);
    }
  }

  /** Without a `::`, an IPv6 literal is its eight groups joined by colons. */
  lemma FullFormOf(s: string)
    requires IsIPv6Address(s) && DoubleColonAt(s) == |s|
    ensures FullForm(s, SplitOn(s, ':'))
  {
    hide IsIPv4, GroupsOk, Width, SideWidth, DoubleColonAt, SplitOn, JoinWith;
  }

  /** With a `::`, an IPv6 literal is the groups of its two sides around it. */
  lemma CompressedFormOf(s: string)
    requires IsIPv6Address(s) && DoubleColonAt(s) < |s|
    ensures var k := DoubleColonAt(s);
      CompressedForm(s, SideGroups(s[..k]), SideGroups(s[k + 2..]))
  {
    hide IsIPv4, GroupsOk, Width, SideWidth, SplitOn, JoinWith;
    var k := DoubleColonAt(s);
    var h, t := s[..k], s[k + 2..];
    var head, tail := SideGroups(h), SideGroups(t);
    assert s == h + "::" + t;
  }

  /** The groups of one side of a `::`: none for an empty side. */
  function SideGroups(side: string): (groups: seq<string>)
    ensures JoinWith(":", groups) == side
    ensures Width(groups) == SideWidth(side)
    ensures side != [] ==> groups == SplitOn(side, ':')
    ensures forall last: bool :: GroupsOk(groups, last) <==> side == [] || GroupsOk(SplitOn(side, ':'), last)
  {
    if side == [] then [] else SplitOn(side, ':')
  }
}
