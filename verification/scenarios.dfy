/**
 The scenarios of the repository's test suite (tests/test_hosts.py), each
 restated over the model: the hosts file a test starts from, the entries it
 builds, the calls it makes, and the flags and counters it then checks.
 */
module Scenarios {
  import opened Results
  import opened Text
  import opened Address
  import opened Entry
  import opened Hosts

  const ExampleNames: seq<string> := ["example.com", "example"]

  /** A record line as the tests write it: the address, a tab, and the names separated by tabs. */
  function TabLine(a: string, ns: seq<string>): string {
    a + "\t" + JoinWith("\t", ns)
  }

  /** A record line is a single line and reads back as the record of its address's family. */
  lemma TabLineReads(a: string, ns: seq<string>)
    requires IsIPv4(a) || IsIPv6(a)
    requires NamesOk(ns)
    ensures NoLineBreak(TabLine(a, ns))
    ensures ParseLine(TabLine(a, ns)) == Some(if IsIPv4(a) then IPv4(a, ns) else IPv6(a, ns))
  {
    hide IsIPv4, IsIPv6, ParseLine;
    ParseAddressLine(a, '\t', '\t', ns);
    if IsIPv4(a) {
      IPv4Shape(a);
    } else {
      IPv6Shape(a);
    }
    forall j, i | 0 <= j < |ns| && 0 <= i < |ns[j]|
      ensures !IsLineBreak(ns[j][i])
    {
      LineBreakIsSpace(ns[j][i]);
    }
    JoinWithChars("\t", ns, c => !IsLineBreak(c));
    var s := TabLine(a, ns);
    var rest := JoinWith("\t", ns);
    forall i | 0 <= i < |s|
      ensures !IsLineBreak(s[i])
    {
      if i < |a| {
        assert s[i] == a[i];
        LineBreakIsSpace(a[i]);
      } else if i > |a| {
        assert s[i] == rest[i - |a| - 1];
      }
    }
  }

  /** A file of one newline-terminated line that reads as `e` loads as `[e]`. */
  lemma LoadSingle(line: string, e: HostsEntry)
    requires NoLineBreak(line) && ParseLine(line) == Some(e)
    ensures Load(Lines([line])) == Loaded([e], 0)
  {
    hide IsIPv4, IsIPv6, ParseLine;
    SplitLinesOfLines([line]);
    LoadLineRead([], line, e);
    assert [] + [line] == [line];
  }

  /** The decimal texts of the octet values the tests use. */
  lemma Octet82() ensures DecimalText(82) == "82" {}
  lemma Octet132() ensures DecimalText(132) == "132" {}
  lemma Octet133() ensures DecimalText(133) == "133" {}
  lemma Octet6() ensures DecimalText(6) == "6" {}
  lemma Octet10() ensures DecimalText(10) == "10" {}
  lemma Octet127() ensures DecimalText(127) == "127" {}
  lemma Octet0() ensures DecimalText(0) == "0" {}
  lemma Octet1() ensures DecimalText(1) == "1" {}
  lemma Octet123() ensures DecimalText(123) == "123" {}
  lemma Octet2() ensures DecimalText(2) == "2" {}
  lemma Octet3() ensures DecimalText(3) == "3" {}
  lemma Octet4() ensures DecimalText(4) == "4" {}

  /** The IPv4 literals of the tests are dotted quads of octet values, hence IPv4 and not IPv6. */
  lemma Quad(s: string, a: nat, b: nat, c: nat, d: nat)
    requires a <= 255 && b <= 255 && c <= 255 && d <= 255
    requires s == DottedQuad(a, b, c, d)
    ensures IsIPv4(s) && !IsIPv6(s)
  {
    hide IsIPv4, IsIPv6;
    DottedQuadIsIPv4(a, b, c, d);
    FamiliesDisjoint(s);
  }

  /** `82.132.132.132`, the address of the example record most tests start from. */
  lemma ExampleAddressIsIPv4()
    ensures IsIPv4("82.132.132.132") && !IsIPv6("82.132.132.132")
  {
    hide IsIPv4, IsIPv6, DecimalText;
    Octet82(); Octet132();
    Quad("82.132.132.132", 82, 132, 132, 132);
  }

  /** `82.132.132.133`, the address the forced IPv4 change moves the example names to. */
  lemma NextAddressIsIPv4()
    ensures IsIPv4("82.132.132.133") && !IsIPv6("82.132.132.133")
  {
    hide IsIPv4, IsIPv6, DecimalText;
    Octet82(); Octet132(); Octet133();
    Quad("82.132.132.133", 82, 132, 132, 133);
  }

  /** `6.6.6.6`, the address of the record in the comment-and-blank test files. */
  lemma CommentFileAddressIsIPv4()
    ensures IsIPv4("6.6.6.6") && !IsIPv6("6.6.6.6")
  {
    hide IsIPv4, IsIPv6, DecimalText;
    Octet6();
    Quad("6.6.6.6", 6, 6, 6, 6);
  }

  /** `10.10.10.10`, the address the import tests read for `hello.com`. */
  lemma ImportedAddressIsIPv4()
    ensures IsIPv4("10.10.10.10") && !IsIPv6("10.10.10.10")
  {
    hide IsIPv4, IsIPv6, DecimalText;
    Octet10();
    Quad("10.10.10.10", 10, 10, 10, 10);
  }

  /** `127.0.0.1`, the localhost record of the single-host tests. */
  lemma LoopbackAddressIsIPv4()
    ensures IsIPv4("127.0.0.1") && !IsIPv6("127.0.0.1")
  {
    hide IsIPv4, IsIPv6, DecimalText;
    Octet127(); Octet0(); Octet1();
    Quad("127.0.0.1", 127, 0, 0, 1);
  }

  /** `123.123.123.123`, the address the single-host test adds for `test.example.com`. */
  lemma TestHostAddressIsIPv4()
    ensures IsIPv4("123.123.123.123") && !IsIPv6("123.123.123.123")
  {
    hide IsIPv4, IsIPv6, DecimalText;
    Octet123();
    Quad("123.123.123.123", 123, 123, 123, 123);
  }

  /** `1.2.3.4`, the address of the line-reading tests. */
  lemma ParseTestAddressIsIPv4()
    ensures IsIPv4("1.2.3.4") && !IsIPv6("1.2.3.4")
  {
    hide IsIPv4, IsIPv6, DecimalText;
    Octet1(); Octet2(); Octet3(); Octet4();
    Quad("1.2.3.4", 1, 2, 3, 4);
  }

  lemma LinkLocalText()
    ensures JoinWith(":", ["fe80"]) + "::" + JoinWith(":", ["200", "f8ff", "fe21", "67cf"]) == "fe80::200:f8ff:fe21:67cf"
  {}

  lemma DocumentationText()
    ensures JoinWith(":", ["2001", "db8", "a0b", "12f0"]) + "::" + JoinWith(":", ["1"]) == "2001:db8:a0b:12f0::1"
  {}

  lemma FullFormText()
    ensures JoinWith(":", ["2001", "0db8", "85a3", "0042", "1000", "8a2e", "0370", "7334"]) == "2001:0db8:85a3:0042:1000:8a2e:0370:7334"
  {
    hide JoinWith;
    var a, b := ["2001", "0db8", "85a3", "0042"], ["1000", "8a2e", "0370", "7334"];
    assert a + b == ["2001", "0db8", "85a3", "0042", "1000", "8a2e", "0370", "7334"];
    JoinWithAppend(":", a, b);
    FullFormHalves();
  }

  lemma FullFormHalves()
    ensures JoinWith(":", ["2001", "0db8", "85a3", "0042"]) == "2001:0db8:85a3:0042"
    ensures JoinWith(":", ["1000", "8a2e", "0370", "7334"]) == "1000:8a2e:0370:7334"
  {}

  /** `fe80::200:f8ff:fe21:67cf` */
  lemma LinkLocalIsIPv6()
    ensures IsIPv6("fe80::200:f8ff:fe21:67cf") && !IsIPv4("fe80::200:f8ff:fe21:67cf")
  {
    hide IsIPv4, IsIPv6, JoinWith;
    IPv6Compressed(["fe80"], ["200", "f8ff", "fe21", "67cf"]);
    LinkLocalText();
    FamiliesDisjoint("fe80::200:f8ff:fe21:67cf");
  }

  /** `2001:db8:a0b:12f0::1` */
  lemma DocumentationIsIPv6()
    ensures IsIPv6("2001:db8:a0b:12f0::1") && !IsIPv4("2001:db8:a0b:12f0::1")
  {
    hide IsIPv4, IsIPv6, JoinWith;
    IPv6Compressed(["2001", "db8", "a0b", "12f0"], ["1"]);
    DocumentationText();
    FamiliesDisjoint("2001:db8:a0b:12f0::1");
  }

  /** `::1` */
  lemma LoopbackIsIPv6()
    ensures IsIPv6("::1") && !IsIPv4("::1")
  {
    hide IsIPv4, IsIPv6;
    IPv6Compressed([], ["1"]);
    assert JoinWith(":", []) + "::" + JoinWith(":", ["1"]) == "::1";
    FamiliesDisjoint("::1");
  }

  /** `fe80::1%lo0`: a link-local address with a zone. */
  lemma ZonedIsIPv6()
    ensures IsIPv6("fe80::1%lo0") && !IsIPv4("fe80::1%lo0")
  {
    hide IsIPv4, IsIPv6;
    IPv6Compressed(["fe80"], ["1"]);
    assert JoinWith(":", ["fe80"]) + "::" + JoinWith(":", ["1"]) == "fe80::1";
    WithZone("fe80::1", "lo0");
    assert "fe80::1" + "%" + "lo0" == "fe80::1%lo0";
    FamiliesDisjoint("fe80::1%lo0");
  }

  /** `2001:0db8:85a3:0042:1000:8a2e:0370:7334`: eight groups, no compression. */
  lemma FullFormIsIPv6()
    ensures IsIPv6("2001:0db8:85a3:0042:1000:8a2e:0370:7334")
  {
    hide IsIPv4, IsIPv6, JoinWith;
    IPv6Full(["2001", "0db8", "85a3", "0042", "1000", "8a2e", "0370", "7334"]);
    FullFormText();
  }

  /** A file holding one record line loads as that record. */
  lemma OneRecordFile(a: string, ns: seq<string>)
    requires IsIPv4(a) || IsIPv6(a)
    requires NamesOk(ns)
    ensures Load(Lines([TabLine(a, ns)])) == Loaded([if IsIPv4(a) then IPv4(a, ns) else IPv6(a, ns)], 0)
  {
    hide IsIPv4, IsIPv6, ParseLine, Load, TabLine;
    TabLineReads(a, ns);
    LoadSingle(TabLine(a, ns), if IsIPv4(a) then IPv4(a, ns) else IPv6(a, ns));
  }

  /**
   tests/test_hosts.py:9-21: the file binds both example names to
   `fe80::200:f8ff:fe21:67cf`; a forced add of `2001:db8:a0b:12f0::1` for the
   same names leaves its address and its names both present.
   */
  lemma ForcedIPv6AddressChange()
    ensures var loaded := Load(Lines([TabLine("fe80::200:f8ff:fe21:67cf", ExampleNames)]));
      var made := NewEntry("ipv6", "2001:db8:a0b:12f0::1", ExampleNames, "");
      && loaded == Loaded([IPv6("fe80::200:f8ff:fe21:67cf", ExampleNames)], 0)
      && made == Ok(IPv6("2001:db8:a0b:12f0::1", ExampleNames))
      && Exists(Add(loaded.entries, [Some(made.value)], true).hosts, made.value) == Matches(1, 1)
  {
    hide IsIPv4, IsIPv6, JoinWith, ParseLine, Load, Add, AddOne, Exists, TabLine, NewEntry;
    var was, now := "fe80::200:f8ff:fe21:67cf", "2001:db8:a0b:12f0::1";
    LinkLocalIsIPv6();
    DocumentationIsIPv6();
    OneRecordFile(was, ExampleNames);
    NewRecord(now, ExampleNames);
    var h, c := [IPv6(was, ExampleNames)], IPv6(now, ExampleNames);
    ForcedAddMatchesBoth(h, c);
    AddSingle(h, Some(c), true);
  }

  /**
   tests/test_hosts.py:23-36: the same file and candidate without `force`:
   the name conflict is skipped, the list is unchanged, and only the names
   match afterwards.
   */
  lemma UnforcedIPv6AddressChange()
    ensures var loaded := Load(Lines([TabLine("fe80::200:f8ff:fe21:67cf", ExampleNames)]));
      var c := IPv6("2001:db8:a0b:12f0::1", ExampleNames);
      var r := Add(loaded.entries, [Some(c)], false);
      && loaded == Loaded([IPv6("fe80::200:f8ff:fe21:67cf", ExampleNames)], 0)
      && r.hosts == loaded.entries && r.counts.skippedCount == 1
      && Exists(r.hosts, c) == Matches(0, 1)
  {
    hide IsIPv4, IsIPv6, JoinWith, ParseLine, Load, Add, AddOne, TabLine;
    var was, now := "fe80::200:f8ff:fe21:67cf", "2001:db8:a0b:12f0::1";
    LinkLocalIsIPv6();
    DocumentationIsIPv6();
    OneRecordFile(was, ExampleNames);
    var h, c := [IPv6(was, ExampleNames)], IPv6(now, ExampleNames);
    assert "example.com" in h[0].names && "example.com" in c.names;
    assert NamesOverlap(h[0], c);
    assert Exists(h, c) == Matches(0, 1);
    assert !Covers(h[0], c);
    OnlyRecordNotCovering(h, c);
    UnforcedConflictUnchanged(h, c);
    AddSingle(h, Some(c), false);
  }

  /** The address record the tests build for `a`, with the kind its family gives it. */
  lemma NewRecord(a: string, ns: seq<string>)
    requires IsIPv4(a) != IsIPv6(a) && a != [] && ns != []
    ensures IsIPv4(a) ==> NewEntry("ipv4", a, ns, "") == Ok(IPv4(a, ns))
    ensures IsIPv6(a) ==> NewEntry("ipv6", a, ns, "") == Ok(IPv6(a, ns))
  {
    hide IsIPv4, IsIPv6;
    assert ParseKind("ipv4") == Some(IPv4Kind) && ParseKind("ipv6") == Some(IPv6Kind);
  }

  /** A list of one record that does not hold the candidate's address and all its names holds no duplicate of it. */
  lemma OnlyRecordNotCovering(h: seq<HostsEntry>, c: HostsEntry)
    requires |h| == 1 && !Covers(h[0], c)
    ensures !IsDuplicate(h, c)
  {
    hide IsIPv4, IsIPv6, Covers;
  }

  /**
   tests/test_hosts.py:38-48: the file binds the example names to
   `82.132.132.132`; a forced add of that address for `something.com` and
   `example` is not a duplicate (the file lacks `something.com`) but shares a
   name, so it replaces the record, and its address then matches.
   */
  lemma ForcedSameAddressReplaces()
    ensures var a := "82.132.132.132";
      var loaded := Load(Lines([TabLine(a, ExampleNames)]));
      var made := NewEntry("ipv4", a, ["something.com", "example"], "");
      var r := Add(loaded.entries, [Some(IPv4(a, ["something.com", "example"]))], true);
      && loaded == Loaded([IPv4(a, ExampleNames)], 0)
      && made == Ok(IPv4(a, ["something.com", "example"]))
      && r.hosts == [made.value] && r.counts.ipv4Count == 1
      && Exists(r.hosts, made.value) == Matches(1, 1)
  {
    hide IsIPv4, IsIPv6, JoinWith, ParseLine, Load, Add, AddOne, Exists, TabLine, NewEntry;
    var a := "82.132.132.132";
    ExampleAddressIsIPv4();
    OneRecordFile(a, ExampleNames);
    NewRecord(a, ["something.com", "example"]);
    var h, c := [IPv4(a, ExampleNames)], IPv4(a, ["something.com", "example"]);
    assert "something.com" in c.names && "something.com" !in ExampleNames;
    SameAddressSharedName(h, c);
    ReplacedRecord(h, c);
    ForcedAddMatchesBoth(h, c);
    AddSingle(h, Some(c), true);
  }

  /**
   The file's one record and a candidate with its address, a shared name and
   a name the record lacks: both signals of `exists` are 1, yet the record
   does not cover the candidate.
   */
  lemma SameAddressSharedName(h: seq<HostsEntry>, c: HostsEntry)
    requires h == [IPv4("82.132.132.132", ExampleNames)]
    requires c.IPv4? && c.address == "82.132.132.132" && "example" in c.names
    requires exists n :: n in c.names && n !in ExampleNames
    ensures Exists(h, c) == Matches(1, 1)
    ensures !Covers(h[0], c)
  {
    hide IsIPv4, IsIPv6;
    assert "example" in h[0].names;
    assert AddressMatch(h[0], c) && NamesOverlap(h[0], c);
  }

  /**
   tests/test_hosts.py:117-127: the same file and candidate without `force`:
   the name conflict is skipped, the list is unchanged, and the address
   matches.
   */
  lemma UnforcedSameAddressSkipped()
    ensures var a := "82.132.132.132";
      var loaded := Load(Lines([TabLine(a, ExampleNames)]));
      var c := IPv4(a, ["something.com", "example"]);
      var r := Add(loaded.entries, [Some(c)], false);
      && loaded == Loaded([IPv4(a, ExampleNames)], 0)
      && r.hosts == loaded.entries && r.counts.skippedCount == 1
      && Exists(r.hosts, c) == Matches(1, 1)
  {
    hide IsIPv4, IsIPv6, JoinWith, ParseLine, Load, Add, AddOne, Exists, TabLine;
    var a := "82.132.132.132";
    ExampleAddressIsIPv4();
    OneRecordFile(a, ExampleNames);
    var h, c := [IPv4(a, ExampleNames)], IPv4(a, ["something.com", "example"]);
    assert "something.com" in c.names && "something.com" !in ExampleNames;
    SameAddressSharedName(h, c);
    OnlyRecordNotCovering(h, c);
    UnforcedConflictUnchanged(h, c);
    AddSingle(h, Some(c), false);
  }

  /**
   tests/test_hosts.py:129-145: a forced add of `82.132.132.133` for the
   example names replaces the record holding them: the new record is the
   whole list, and both its address and its names match.
   */
  lemma ForcedIPv4AddressChange()
    ensures var loaded := Load(Lines([TabLine("82.132.132.132", ExampleNames)]));
      var c := IPv4("82.132.132.133", ExampleNames);
      var r := Add(loaded.entries, [Some(c)], true);
      && loaded == Loaded([IPv4("82.132.132.132", ExampleNames)], 0)
      && r.hosts == [c] && r.counts.ipv4Count == 1
      && Exists(r.hosts, c) == Matches(1, 1)
  {
    hide IsIPv4, IsIPv6, JoinWith, ParseLine, Load, Add, AddOne, Exists, TabLine;
    ExampleAddressIsIPv4();
    NextAddressIsIPv4();
    OneRecordFile("82.132.132.132", ExampleNames);
    var h, c := [IPv4("82.132.132.132", ExampleNames)], IPv4("82.132.132.133", ExampleNames);
    assert "example.com" in h[0].names && "example.com" in c.names;
    assert !AddressMatch(h[0], c);
    ReplacedRecord(h, c);
    ForcedAddMatchesBoth(h, c);
    AddSingle(h, Some(c), true);
  }

  /**
   A forced candidate sharing a name with the only record, which does not
   cover it (another address, or a name the record lacks), replaces it.
   */
  lemma ReplacedRecord(h: seq<HostsEntry>, c: HostsEntry)
    requires Valid(c) && c.IPv4? && |h| == 1 && h[0].IPv4?
    requires exists n :: n in h[0].names && n in c.names
    requires !Covers(h[0], c)
    ensures AddOne(h, Some(c), true) == Step([c], AddedIPv4)
  {
    hide IsIPv4, IsIPv6;
    assert NamesOverlap(h[0], c);
    assert Exists(h, c).nameMatches == 1;
    OnlyRecordNotCovering(h, c);
    assert Keep([h[0]], x => !NamesOverlap(x, c)) == [];
  }

  /**
   tests/test_hosts.py:198-207: adding `123.123.123.123` for
   `test.example.com` to a file holding only localhost appends it, and its
   address then matches.
   */
  lemma AddSingleIPv4Host()
    ensures var loaded := Load(Lines([TabLine("127.0.0.1", ["localhost"])]));
      var c := IPv4("123.123.123.123", ["test.example.com"]);
      var r := Add(loaded.entries, [Some(c)], false);
      && loaded == Loaded([IPv4("127.0.0.1", ["localhost"])], 0)
      && r.hosts == loaded.entries + [c] && r.counts.ipv4Count == 1
      && Exists(r.hosts, c).addressMatches == 1
  {
    hide IsIPv4, IsIPv6, JoinWith, ParseLine, Load, Add, AddOne, Exists, TabLine;
    LoopbackAddressIsIPv4();
    TestHostAddressIsIPv4();
    LocalhostNamesOk();
    OneRecordFile("127.0.0.1", ["localhost"]);
    var h, c := [IPv4("127.0.0.1", ["localhost"])], IPv4("123.123.123.123", ["test.example.com"]);
    NoSharedName(h, c);
    CleanAddAppends(h, c, false);
    AddSingle(h, Some(c), false);
  }

  /** `localhost` is a single word, so the localhost line of the tests reads back. */
  lemma LocalhostNamesOk()
    ensures NamesOk(["localhost"])
  {
    assert forall i :: 0 <= i < |"localhost"| ==> !IsSpace("localhost"[i]);
  }

  /** A candidate none of whose names the only record holds shares no name with the list. */
  lemma NoSharedName(h: seq<HostsEntry>, c: HostsEntry)
    requires |h| == 1 && h[0].IsAddress() && c.IsAddress()
    requires forall n :: n in c.names ==> n !in h[0].names
    ensures Exists(h, c).nameMatches == 0
  {
    hide IsIPv4, IsIPv6;
  }

  /**
   tests/test_hosts.py:210-223: a forced add of `82.132.132.132` for
   `example2.com` and `example` is not a duplicate (the file lacks
   `example2.com`) but shares `example`, so it replaces the record: both
   signals are then 1.
   */
  lemma ForcedNameChange()
    ensures var loaded := Load(Lines([TabLine("82.132.132.132", ExampleNames)]));
      var c := IPv4("82.132.132.132", ["example2.com", "example"]);
      var r := Add(loaded.entries, [Some(c)], true);
      && loaded == Loaded([IPv4("82.132.132.132", ExampleNames)], 0)
      && r.hosts == [c] && r.counts.ipv4Count == 1
      && Exists(r.hosts, c) == Matches(1, 1)
  {
    hide IsIPv4, IsIPv6, JoinWith, ParseLine, Load, Add, AddOne, Exists, TabLine;
    ExampleAddressIsIPv4();
    OneRecordFile("82.132.132.132", ExampleNames);
    var h, c := [IPv4("82.132.132.132", ExampleNames)], IPv4("82.132.132.132", ["example2.com", "example"]);
    assert "example2.com" in c.names && "example2.com" !in ExampleNames;
    SameAddressSharedName(h, c);
    ReplacedRecord(h, c);
    ForcedAddMatchesBoth(h, c);
    AddSingle(h, Some(c), true);
  }

  /**
   tests/test_hosts.py:226-237: adding the IPv6 loopback `::1` to a file
   holding only the IPv4 localhost appends it (records of different families
   never match), and its address then matches.
   */
  lemma AddSingleIPv6Host()
    ensures var loaded := Load(Lines([TabLine("127.0.0.1", ["localhost"])]));
      var c := IPv6("::1", ["localhost6.localdomain6", "localhost6"]);
      var r := Add(loaded.entries, [Some(c)], false);
      && loaded == Loaded([IPv4("127.0.0.1", ["localhost"])], 0)
      && r.hosts == loaded.entries + [c] && r.counts.ipv6Count == 1
      && Exists(r.hosts, c).addressMatches == 1
  {
    hide IsIPv4, IsIPv6, JoinWith, ParseLine, Load, Add, AddOne, Exists, TabLine;
    LoopbackAddressIsIPv4();
    LoopbackIsIPv6();
    LocalhostNamesOk();
    OneRecordFile("127.0.0.1", ["localhost"]);
    var h, c := [IPv4("127.0.0.1", ["localhost"])], IPv6("::1", ["localhost6.localdomain6", "localhost6"]);
    assert !SameFamily(h[0], c);
    assert Exists(h, c).nameMatches == 0;
    CleanAddAppends(h, c, false);
    AddSingle(h, Some(c), false);
  }

  /** A file whose lines are exactly what `write` emits for well-formed entries loads as those entries. */
  lemma RenderedFileLoads(h: seq<HostsEntry>, lines: seq<string>)
    requires forall e :: e in h ==> WellFormed(e)
    requires RenderAll(h) == lines
    ensures Load(Lines(lines)) == Loaded(h, 0)
  {
    hide IsIPv4, IsIPv6, Load, Lines, RenderAll, WellFormed, CountKind;
    LoadWrite(h);
  }

  /** A record with a single name renders as the tests write it. */
  lemma SingleNameLine(a: string, n: string)
    ensures Render(IPv4(a, [n])) == TabLine(a, [n]) == Render(IPv6(a, [n]))
  {
    hide IsIPv4, IsIPv6;
  }

  const TestComment: string := "# A test comment"

  /** The comment line of the tests is a well-formed comment. */
  lemma TestCommentWellFormed()
    ensures WellFormed(Comment(TestComment))
  {
    hide IsIPv4, IsIPv6;
    assert TestComment[0] == '#' && TestComment[|TestComment| - 1] == 't';
    forall i | 0 <= i < |TestComment|
      ensures !IsLineBreak(TestComment[i])
    {
      LineBreakIsSpace(TestComment[i]);
    }
  }

  /**
   tests/test_hosts.py:50-61: the file holds `6.6.6.6 example.com`, a comment
   and a blank line; adding `82.132.132.132` for `something.com` and
   `example` appends it, and the write still reports one comment and one
   blank.
   */
  lemma CommentsAndBlanksPreserved()
    ensures var sixes := IPv4("6.6.6.6", ["example.com"]);
      var loaded := Load(Lines([TabLine("6.6.6.6", ["example.com"]), TestComment, ""]));
      var c := IPv4("82.132.132.132", ["something.com", "example"]);
      var r := Add(loaded.entries, [Some(c)], false);
      var w := Write(r.hosts);
      && loaded == Loaded([sixes, Comment(TestComment), Blank], 0)
      && r.hosts == loaded.entries + [c]
      && w.commentsWritten == 1 && w.blanksWritten == 1
  {
    hide IsIPv4, IsIPv6, Load, Lines, Add, AddOne, Exists, Write, TabLine, WellFormed, RenderAll, CountKind;
    CommentFileAddressIsIPv4();
    ExampleAddressIsIPv4();
    var sixes, c := IPv4("6.6.6.6", ["example.com"]), IPv4("82.132.132.132", ["something.com", "example"]);
    var h := [sixes, Comment(TestComment), Blank];
    CommentTestFileLoads();
    NoSharedName(h[..1], c);
    SharedNamesInFirst(h, c);
    CleanAddAppends(h, c, false);
    AddSingle(h, Some(c), false);
    WriteAppend(h, c);
    TestFileCounts(h);
  }

  lemma BlankWellFormed()
    ensures WellFormed(Blank) && Render(Blank) == ""
  {}

  lemma CommentFileRecordWellFormed()
    ensures WellFormed(IPv4("6.6.6.6", ["example.com"]))
  {
    hide IsIPv4, IsIPv6;
    CommentFileAddressIsIPv4();
    assert forall i :: 0 <= i < |"example.com"| ==> !IsSpace("example.com"[i]);
  }

  /** Only address records share names, so a list's names live in its address records. */
  lemma SharedNamesInFirst(h: seq<HostsEntry>, c: HostsEntry)
    requires |h| >= 1 && forall i :: 1 <= i < |h| ==> !h[i].IsAddress()
    requires Exists(h[..1], c).nameMatches == 0
    ensures Exists(h, c).nameMatches == 0
  {
    hide IsIPv4, IsIPv6;
    forall x | x in h
      ensures !NamesOverlap(x, c)
    {
      var i :| 0 <= i < |h| && h[i] == x;
      if i == 0 {
        assert x in h[..1];
      }
    }
  }

  /** The written counters of the comment-and-blank test file. */
  lemma TestFileCounts(h: seq<HostsEntry>)
    requires |h| == 3 && h[0].IPv4? && h[1].Comment? && h[2].Blank?
    ensures Write(h).ipv4EntriesWritten == 1 && Write(h).commentsWritten == 1 && Write(h).blanksWritten == 1
  {
    hide IsIPv4, IsIPv6, Lines, RenderAll;
    WriteAppend([], h[0]);
    WriteAppend([h[0]], h[1]);
    WriteAppend([h[0], h[1]], h[2]);
    assert [] + [h[0]] == [h[0]] && [h[0]] + [h[1]] == [h[0], h[1]] && [h[0], h[1]] + [h[2]] == h;
  }

  lemma ZonedWellFormed()
    ensures WellFormed(IPv6("fe80::1%lo0", ["localhost"]))
  {
    hide IsIPv4, IsIPv6;
    ZonedIsIPv6();
    assert forall i :: 0 <= i < |"localhost"| ==> !IsSpace("localhost"[i]);
  }

  /**
   tests/test_hosts.py:63-76: the file holds an IPv6 record for
   `fe80::1%lo0`, `6.6.6.6 example.com`, a comment and a blank line; after
   adding `82.132.132.132` for `something.com` and `example` the write
   reports one IPv6 record, two IPv4 records, one comment and one blank.
   */
  lemma IPv6RecordsPreserved()
    ensures var zoned, sixes := IPv6("fe80::1%lo0", ["localhost"]), IPv4("6.6.6.6", ["example.com"]);
      var loaded := Load(Lines([TabLine("fe80::1%lo0", ["localhost"]), TabLine("6.6.6.6", ["example.com"]), TestComment, ""]));
      var c := IPv4("82.132.132.132", ["something.com", "example"]);
      var w := Write(Add(loaded.entries, [Some(c)], false).hosts);
      && loaded == Loaded([zoned, sixes, Comment(TestComment), Blank], 0)
      && w.ipv6EntriesWritten == 1 && w.ipv4EntriesWritten == 2
      && w.commentsWritten == 1 && w.blanksWritten == 1
  {
    hide IsIPv4, IsIPv6, Load, Lines, Add, AddOne, Exists, Write, TabLine, WellFormed, RenderAll, CountKind;
    ExampleAddressIsIPv4();
    ZonedIsIPv6();
    var zoned, sixes := IPv6("fe80::1%lo0", ["localhost"]), IPv4("6.6.6.6", ["example.com"]);
    var c := IPv4("82.132.132.132", ["something.com", "example"]);
    var h := [zoned, sixes, Comment(TestComment), Blank];
    IPv6TestFileLoads();
    IPv6FileNoConflict(h, c);
    CleanAddAppends(h, c, false);
    AddSingle(h, Some(c), false);
    WriteAppend(h, c);
    IPv6FileCounts(h);
  }

  /** The written counters of the IPv6 test file. */
  lemma IPv6FileCounts(h: seq<HostsEntry>)
    requires |h| == 4 && h[0].IPv6? && h[1].IPv4? && h[2].Comment? && h[3].Blank?
    ensures var w := Write(h);
      w.ipv6EntriesWritten == 1 && w.ipv4EntriesWritten == 1 && w.commentsWritten == 1 && w.blanksWritten == 1
  {
    hide IsIPv4, IsIPv6, Lines, RenderAll;
    WriteAppend([], h[0]);
    WriteAppend([h[0]], h[1]);
    WriteAppend([h[0], h[1]], h[2]);
    WriteAppend([h[0], h[1], h[2]], h[3]);
    assert [] + [h[0]] == [h[0]] && [h[0]] + [h[1]] == [h[0], h[1]] && [h[0], h[1]] + [h[2]] == [h[0], h[1], h[2]];
    assert [h[0], h[1], h[2]] + [h[3]] == h;
  }

  /** The file of the IPv6 test loads as its four entries. */
  lemma IPv6TestFileLoads()
    ensures Load(Lines([TabLine("fe80::1%lo0", ["localhost"]), TabLine("6.6.6.6", ["example.com"]), TestComment, ""]))
      == Loaded([IPv6("fe80::1%lo0", ["localhost"]), IPv4("6.6.6.6", ["example.com"]), Comment(TestComment), Blank], 0)
  {
    hide IsIPv4, IsIPv6, Load, Lines, TabLine, WellFormed;
    var h := [IPv6("fe80::1%lo0", ["localhost"]), IPv4("6.6.6.6", ["example.com"]), Comment(TestComment), Blank];
    ZonedWellFormed();
    CommentFileRecordWellFormed();
    TestCommentWellFormed();
    BlankWellFormed();
    SingleNameLine("fe80::1%lo0", "localhost");
    SingleNameLine("6.6.6.6", "example.com");
    var lines := [TabLine("fe80::1%lo0", ["localhost"]), TabLine("6.6.6.6", ["example.com"]), TestComment, ""];
    assert RenderAll(h) == lines;
    assert forall e :: e in h ==> WellFormed(e);
    RenderedFileLoads(h, lines);
  }

  /** The candidate of the IPv6 test shares no name with the file's records. */
  lemma IPv6FileNoConflict(h: seq<HostsEntry>, c: HostsEntry)
    requires h == [IPv6("fe80::1%lo0", ["localhost"]), IPv4("6.6.6.6", ["example.com"]), Comment(TestComment), Blank]
    requires c == IPv4("82.132.132.132", ["something.com", "example"])
    ensures Exists(h, c).nameMatches == 0
  {
    hide IsIPv4, IsIPv6;
    assert forall x :: x in h ==> x == h[0] || x == h[1] || !x.IsAddress();
  }

  /** The file of the comment-and-blank test loads as its three entries. */
  lemma CommentTestFileLoads()
    ensures Load(Lines([TabLine("6.6.6.6", ["example.com"]), TestComment, ""]))
      == Loaded([IPv4("6.6.6.6", ["example.com"]), Comment(TestComment), Blank], 0)
  {
    hide IsIPv4, IsIPv6, Load, Lines, TabLine, WellFormed;
    var h := [IPv4("6.6.6.6", ["example.com"]), Comment(TestComment), Blank];
    CommentFileRecordWellFormed();
    TestCommentWellFormed();
    BlankWellFormed();
    SingleNameLine("6.6.6.6", "example.com");
    var lines := [TabLine("6.6.6.6", ["example.com"]), TestComment, ""];
    assert RenderAll(h) == lines;
    assert forall e :: e in h ==> WellFormed(e);
    RenderedFileLoads(h, lines);
  }
}
