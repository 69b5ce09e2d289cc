/**
 The entry scenarios of the repository's test suite (tests/test_hosts.py):
 the checked constructor's errors, the line classifier, a lone newline, and
 removal of a record read from a file without a final newline.
 */
module EntryScenarios {
  import opened Results
  import opened Text
  import opened Address
  import opened Entry
  import opened Hosts
  import opened Scenarios

  /** tests/test_hosts.py:257-266: a missing or misspelt kind is rejected before anything else. */
  lemma InvalidKinds()
    ensures NewEntry("", "", [], "") == Err(InvalidKind)
    ensures NewEntry("IPv4", "", [], "") == Err(InvalidKind)
    ensures NewEntry("IP", "", [], "") == Err(InvalidKind)
  {
    hide IsIPv4, IsIPv6;
  }

  /** tests/test_hosts.py:269-277: a comment without text is rejected, whatever address comes with it. */
  lemma CommentsNeedText()
    ensures NewEntry("comment", "", [], "") == Err(MissingComment)
    ensures NewEntry("comment", "1.2.3.4", [], "") == Err(MissingComment)
  {
    hide IsIPv4, IsIPv6;
  }

  /** tests/test_hosts.py:280-294: an address record needs both an address and names. */
  lemma RecordsNeedAddressAndNames()
    ensures NewEntry("ipv4", "", [], "") == Err(MissingAddressOrNames)
    ensures NewEntry("ipv4", "1.2.3.4", [], "") == Err(MissingAddressOrNames)
    ensures NewEntry("ipv4", "", ["example.com"], "") == Err(MissingAddressOrNames)
    ensures NewEntry("ipv6", "fe80::1%lo0", [], "") == Err(MissingAddressOrNames)
    ensures NewEntry("ipv6", "", ["example.com"], "") == Err(MissingAddressOrNames)
  {
    hide IsIPv4, IsIPv6;
  }

  lemma OverflowText()
    ensures JoinWith(".", ["255", "255", "255", "256"]) == "255.255.255.256"
    ensures DecimalText(256) == "256"
  {}

  /** `255.255.255.256`: four dotted parts, but the last is above 255. */
  lemma OverflowNotIPv4()
    ensures !IsIPv4("255.255.255.256")
  {
    hide JoinWith, DecimalText, DecimalValue;
    var parts := ["255", "255", "255", "256"];
    OverflowText();
    SplitOnJoin('.', parts);
    assert ['.'] == ".";
    assert SplitOn("255.255.255.256", '.') == parts;
    assert DecimalValue("256") == 256;
    assert !IsDecOctet(parts[3]);
  }

  /** `2001::1::3F`: two compressions. */
  lemma DoubleCompressionNotIPv6()
    ensures !IsIPv6("2001::1::3F")
  {
    hide IsIPv6;
    TwoCompressionsRejected("2001", "1", "3F");
    assert "2001" + "::" + "1" + "::" + "3F" == "2001::1::3F";
  }

  /** tests/test_hosts.py:297-305: a malformed address is rejected with the error of its kind's family. */
  lemma InvalidAddresses()
    ensures NewEntry("ipv4", "255.255.255.256", ExampleNames, "") == Err(InvalidIPv4Address)
    ensures NewEntry("ipv6", "2001::1::3F", ExampleNames, "") == Err(InvalidIPv6Address)
  {
    hide IsIPv4, IsIPv6;
    OverflowNotIPv4();
    DoubleCompressionNotIPv6();
  }

  /** tests/test_hosts.py:313-319: a file holding only a newline loads as one blank entry. */
  lemma LineBreakIsBlank()
    ensures Load("\n").entries == [Blank]
    ensures KindName(Load("\n").entries[0].Kind()) == "blank"
  {
    hide IsIPv4, IsIPv6, ParseLine, LoadLines;
    SplitLinesOfLines([""]);
    assert Lines([""]) == "\n";
    BlankWellFormed();
    ParseRender(Blank);
    LoadLineRead([], "", Blank);
    assert [] + [""] == [""];
  }

  const CommentLine: string := "# This is a comment"
  const IPv4Line: string := "1.2.3.4 example.com example"
  const FullIPv6: string := "2001:0db8:85a3:0042:1000:8a2e:0370:7334"
  const IPv6Line: string := FullIPv6 + " example.com example"
  const NamesFirstLine: string := "example.com example 1.2.3.4"

  lemma ExampleNamesSpaced()
    ensures JoinWith([' '], ExampleNames) == "example.com example"
  {}

  lemma IPv4LineText()
    ensures IPv4Line == "1.2.3.4" + [' '] + JoinWith([' '], ExampleNames)
  {
    hide JoinWith;
    ExampleNamesSpaced();
  }

  lemma IPv6LineText()
    ensures IPv6Line == FullIPv6 + [' '] + JoinWith([' '], ExampleNames)
  {
    hide JoinWith;
    ExampleNamesSpaced();
  }

  /** The tests' IPv4 line is the address, a space, and the example names separated by spaces. */
  lemma IPv4LineReads()
    ensures NoLineBreak(IPv4Line)
    ensures ParseLine(IPv4Line) == Some(IPv4("1.2.3.4", ExampleNames))
  {
    hide IsIPv4, IsIPv6, ParseLine, JoinWith, NoLineBreak;
    ParseTestAddressIsIPv4();
    IPv4LineText();
    ParseAddressLine("1.2.3.4", ' ', ' ', ExampleNames);
    IPv4LineOneLine();
  }

  lemma IPv4LineOneLine()
    ensures NoLineBreak(IPv4Line)
  {
    forall i | 0 <= i < |IPv4Line|
      ensures !IsLineBreak(IPv4Line[i])
    {
      LineBreakIsSpace(IPv4Line[i]);
    }
  }

  lemma IPv6LineReads()
    ensures ParseLine(IPv6Line) == Some(IPv6(FullIPv6, ExampleNames))
  {
    hide IsIPv4, IsIPv6, ParseLine, JoinWith;
    FullFormIsIPv6();
    FamiliesDisjoint(FullIPv6);
    IPv6LineText();
    ParseAddressLine(FullIPv6, ' ', ' ', ExampleNames);
  }

  lemma NamesFirstText()
    ensures NamesFirstLine == "example.com" + [' '] + "example 1.2.3.4"
    ensures "example.com" != [] && NoSpace("example.com")
    ensures !IsDigit("example.com"[0]) && "example.com"[0] != '#' && ':' !in "example.com"
  {
    assert forall i :: 0 <= i < |"example.com"| ==> !IsSpace("example.com"[i]);
  }

  /** A line that starts with a name has no kind. */
  lemma NamesFirstHasNoKind()
    ensures EntryType(NamesFirstLine) == None
  {
    hide IsIPv4, IsIPv6, Split, NoSpace, IsDigit;
    var w := "example.com";
    NamesFirstText();
    SplitCons(w, ' ', "example 1.2.3.4");
    assert FirstWord(NamesFirstLine) == w;
    if IsIPv4(w) {
      IPv4Shape(w);
    }
    if IsIPv6(w) {
      IPv6Shape(w);
    }
  }

  /**
   tests/test_hosts.py:321-326: the classifier on a comment, a lone newline,
   an IPv4 line, a full-form IPv6 line, and a line that starts with a name
   (which has no kind).
   */
  lemma ClassifierExamples()
    ensures EntryType(CommentLine) == Some(CommentKind)
    ensures EntryType("\n") == Some(BlankKind)
    ensures EntryType(IPv4Line) == Some(IPv4Kind)
    ensures EntryType(IPv6Line) == Some(IPv6Kind)
    ensures EntryType(NamesFirstLine) == None
  {
    hide IsIPv4, IsIPv6, ParseLine, EntryType, FirstWord, AllSpace;
    CommentLineClass();
    NewlineClass();
    IPv4LineClass();
    IPv6LineClass();
    NamesFirstHasNoKind();
  }

  lemma NewlineClass()
    ensures EntryType("\n") == Some(BlankKind)
  {
    hide IsIPv4, IsIPv6, EntryType;
    assert AllSpace("\n") by {
      assert IsSpace('\n');
    }
  }

  lemma IPv4LineClass()
    ensures EntryType(IPv4Line) == Some(IPv4Kind)
  {
    hide IsIPv4, IsIPv6, ParseLine, EntryType, FirstWord, AllSpace;
    IPv4LineReads();
  }

  lemma IPv6LineClass()
    ensures EntryType(IPv6Line) == Some(IPv6Kind)
  {
    hide IsIPv4, IsIPv6, ParseLine, EntryType, FirstWord, AllSpace;
    IPv6LineReads();
  }

  lemma CommentLineClass()
    ensures EntryType(CommentLine) == Some(CommentKind)
  {
    hide IsIPv4, IsIPv6, ParseLine;
    var c := Comment(CommentLine);
    assert CommentLine[0] == '#' && CommentLine[|CommentLine| - 1] == 't';
    forall i | 0 <= i < |CommentLine|
      ensures !IsLineBreak(CommentLine[i])
    {
      LineBreakIsSpace(CommentLine[i]);
    }
    assert WellFormed(c);
    ParseRender(c);
  }

  /**
   tests/test_hosts.py:239-254: a file holding `1.2.3.4 example.com example`
   with no final newline loads as that record; a record for `1.2.3.4` and
   `example.com` matches it both ways, and after `remove_matching` matches
   nothing and the list is empty.
   */
  lemma RemoveReadRecord()
    ensures var loaded := Load(IPv4Line);
      var c := IPv4("1.2.3.4", ["example.com"]);
      var r := RemoveMatching(loaded.entries, c);
      && loaded == Loaded([IPv4("1.2.3.4", ExampleNames)], 0)
      && NewEntry("ipv4", "1.2.3.4", ["example.com"], "") == Ok(c)
      && Exists(loaded.entries, c) == Matches(1, 1)
      && r.hosts == [] && Exists(r.hosts, c) == Matches(0, 0)
  {
    hide IsIPv4, IsIPv6, ParseLine, LoadLines, Load, RemoveMatching, Exists, NewEntry;
    var e, c := IPv4("1.2.3.4", ExampleNames), IPv4("1.2.3.4", ["example.com"]);
    ParseTestAddressIsIPv4();
    IPv4LineLoads();
    NewRecord("1.2.3.4", ["example.com"]);
    RemoveBoth(e, c);
  }

  /** The IPv4 line of the tests, alone in a file without a final newline, loads as its record. */
  lemma IPv4LineLoads()
    ensures Load(IPv4Line) == Loaded([IPv4("1.2.3.4", ExampleNames)], 0)
  {
    hide IsIPv4, IsIPv6, ParseLine, LoadLines, SplitLines;
    IPv4LineReads();
    SplitLinesOfLine(IPv4Line);
    LoadLineRead([], IPv4Line, IPv4("1.2.3.4", ExampleNames));
    assert [] + [IPv4Line] == [IPv4Line];
  }

  /** A record with the candidate's address and one of its names matches both ways and is removed. */
  lemma RemoveBoth(e: HostsEntry, c: HostsEntry)
    requires e.IPv4? && c.IPv4? && e.address == c.address && c.names != [] && c.names[0] in e.names
    ensures Exists([e], c) == Matches(1, 1)
    ensures RemoveMatching([e], c).hosts == []
  {
    hide IsIPv4, IsIPv6;
    assert AddressMatch(e, c) && NamesOverlap(e, c);
    var r := RemoveMatching([e], c);
    assert e !in r.hosts;
  }
}
