/**
 The import scenarios of the repository's test suite (tests/test_hosts.py):
 a hosts list, the text of a file to import, and the counters the import
 reports.
 */
module ImportScenarios {
  import opened Results
  import opened Text
  import opened Address
  import opened Entry
  import opened Hosts
  import opened Scenarios

  /** One more candidate is handled after the others, against the list they left. */
  lemma AddSnoc(h: seq<HostsEntry>, cands: seq<Option<HostsEntry>>, c: Option<HostsEntry>, force: bool)
    ensures var prev := Add(h, cands, force);
      var step := AddOne(prev.hosts, c, force);
      Add(h, cands + [c], force) == AddResult(step.hosts, prev.counts.Record(step.outcome))
  {
    hide IsIPv4, IsIPv6, AddOne;
    assert (cands + [c])[..|cands|] == cands;
  }

  /** A line that reads as an address record is handed to `add`. */
  lemma RecordLineNotSkipped(line: string, e: HostsEntry)
    requires ParseLine(line) == Some(e) && e.IsAddress()
    ensures !Skippable(line)
  {
    hide IsIPv4, IsIPv6, ParseLine, FirstWord;
  }

  /** A word that starts with neither a digit nor `#` and has no colon has no kind, so it does not read. */
  lemma PlainWordHasNoKind(w: string)
    requires w != [] && NoSpace(w) && !IsDigit(w[0]) && w[0] != '#' && ':' !in w
    ensures EntryType(w) == None && ParseLine(w) == None
  {
    hide IsIPv4, IsIPv6, Split;
    SplitToken(w);
    assert FirstWord(w) == w;
    if IsIPv4(w) {
      IPv4Shape(w);
    }
    if IsIPv6(w) {
      IPv6Shape(w);
    }
  }

  /** The list after the import tests' two record lines, starting from the example record. */
  lemma ImportedRecords(ex: HostsEntry, ten: HostsEntry)
    requires ex == IPv4("82.132.132.132", ExampleNames) && ten == IPv4("10.10.10.10", ["hello.com"])
    ensures AddOne([ex], Some(ten), false) == Step([ex, ten], AddedIPv4)
    ensures AddOne([ex, ten], Some(ex), false) == Step([ex, ten], Duplicate)
    ensures Write([ex, ten]).ipv4EntriesWritten == 2 && Write([ex, ten]).totalWritten == 2
  {
    hide IsIPv4, IsIPv6, AddOne, Exists, Lines, RenderAll;
    ExampleAddressIsIPv4();
    ImportedAddressIsIPv4();
    NoSharedName([ex], ten);
    CleanAddAppends([ex], ten, false);
    SelfMatches(ex);
    assert ex in [ex, ten];
    assert Exists([ex, ten], ex) == Matches(1, 1);
    DuplicateUnchanged([ex, ten], ex, false);
    WriteAppend([], ex);
    WriteAppend([ex], ten);
    assert [] + [ex] == [ex] && [ex] + [ten] == [ex, ten];
  }

  /** The two record lines of the import tests read as their records. */
  lemma ImportLinesRead()
    ensures var ten, ex := TabLine("10.10.10.10", ["hello.com"]), TabLine("82.132.132.132", ExampleNames);
      && NoLineBreak(ten) && ParseLine(ten) == Some(IPv4("10.10.10.10", ["hello.com"]))
      && NoLineBreak(ex) && ParseLine(ex) == Some(IPv4("82.132.132.132", ExampleNames))
  {
    hide IsIPv4, IsIPv6, ParseLine, TabLine;
    ExampleAddressIsIPv4();
    ImportedAddressIsIPv4();
    TabLineReads("10.10.10.10", ["hello.com"]);
    TabLineReads("82.132.132.132", ExampleNames);
  }

  lemma NoLinesNoCandidates()
    ensures ImportCandidates([]) == [] && SkippedLines([]) == 0
  {}

  /** The two record lines of the duplicate test are both handed to `add`. */
  lemma DuplicateTestCandidates()
    ensures var ex, ten := IPv4("82.132.132.132", ExampleNames), IPv4("10.10.10.10", ["hello.com"]);
      var lines := [TabLine("10.10.10.10", ["hello.com"]), TabLine("82.132.132.132", ExampleNames)];
      && SplitLines(Lines(lines)) == lines
      && ImportCandidates(lines) == [Some(ten), Some(ex)]
  {
    hide IsIPv4, IsIPv6, ParseLine, TabLine, Lines, ImportCandidates, Skippable, SplitLines, NoLineBreak, JoinWith;
    ImportLinesRead();
    TwoRecordLines(TabLine("10.10.10.10", ["hello.com"]), TabLine("82.132.132.132", ExampleNames),
      IPv4("10.10.10.10", ["hello.com"]), IPv4("82.132.132.132", ExampleNames));
  }

  /** A file of two record lines splits back into them, and both are handed to `add` in order. */
  lemma TwoRecordLines(l1: string, l2: string, e1: HostsEntry, e2: HostsEntry)
    requires NoLineBreak(l1) && ParseLine(l1) == Some(e1) && e1.IsAddress()
    requires NoLineBreak(l2) && ParseLine(l2) == Some(e2) && e2.IsAddress()
    ensures SplitLines(Lines([l1, l2])) == [l1, l2]
    ensures ImportCandidates([l1, l2]) == [Some(e1), Some(e2)]
  {
    hide IsIPv4, IsIPv6, ParseLine, Lines, ImportCandidates, Skippable, SplitLines, NoLineBreak;
    SplitLinesOfLines([l1, l2]);
    RecordLineNotSkipped(l1, e1);
    RecordLineNotSkipped(l2, e2);
    ImportCandidatesSnoc([], l1);
    ImportCandidatesSnoc([l1], l2);
    assert [] + [l1] == [l1] && [l1] + [l2] == [l1, l2];
    NoLinesNoCandidates();
  }

  /** An import of readable text adds the candidates its lines give and writes the result. */
  lemma ImportOfText(h: seq<HostsEntry>, text: string, force: bool)
    ensures var lines := SplitLines(text);
      var added := Add(h, ImportCandidates(lines), force);
      ImportFile(h, Some(text), force) == Imported(added.hosts, SkippedLines(lines), added.counts, Write(added.hosts))
  {
    hide IsIPv4, IsIPv6, Add, ImportCandidates, SkippedLines, Write, SplitLines;
  }

  /**
   tests/test_hosts.py:99-114: the list holds the example record; importing
   a file with `10.10.10.10 hello.com` and the example record again adds the
   first and reports the second as a duplicate, and two IPv4 records are
   written.
   */
  lemma ImportReportsDuplicate()
    ensures var ex, ten := IPv4("82.132.132.132", ExampleNames), IPv4("10.10.10.10", ["hello.com"]);
      var text := Lines([TabLine("10.10.10.10", ["hello.com"]), TabLine("82.132.132.132", ExampleNames)]);
      var r := ImportFile([ex], Some(text), false);
      && r.Imported? && r.hosts == [ex, ten]
      && r.addResult.ipv4Count == 1 && r.addResult.duplicateCount == 1
      && r.writeResult.ipv4EntriesWritten == 2
  {
    hide IsIPv4, IsIPv6, ParseLine, TabLine, Lines, Add, AddOne, Write, ImportCandidates, SkippedLines, Skippable, ImportFile, SplitLines;
    var ex, ten := IPv4("82.132.132.132", ExampleNames), IPv4("10.10.10.10", ["hello.com"]);
    var text := Lines([TabLine("10.10.10.10", ["hello.com"]), TabLine("82.132.132.132", ExampleNames)]);
    DuplicateTestCandidates();
    ImportOfText([ex], text, false);
    ImportedRecords(ex, ten);
    AddTwo([ex], Some(ten), Some(ex), false);
  }

  /** Two candidates are handled one after the other. */
  lemma AddTwo(h: seq<HostsEntry>, x: Option<HostsEntry>, y: Option<HostsEntry>, force: bool)
    ensures var s1 := AddOne(h, x, force);
      var s2 := AddOne(s1.hosts, y, force);
      Add(h, [x, y], force) == AddResult(s2.hosts, AddCounts(0, 0, 0, 0, 0, 0).Record(s1.outcome).Record(s2.outcome))
  {
    hide IsIPv4, IsIPv6, AddOne, Add, AddCounts.Record, Valid, Exists, IsDuplicate, Survivors, Keep;
    assert [x] + [y] == [x, y];
    AddSingle(h, x, force);
    AddSnoc(h, [x], y, force);
  }

  /** The first two lines of the invalid-line test: a bare word that does not read, and a blank that is skipped. */
  lemma InvalidTestOpening()
    ensures NoLineBreak("example") && NoLineBreak("")
    ensures !Skippable("example") && ParseLine("example") == None
    ensures Skippable("")
  {
    hide IsIPv4, IsIPv6, ParseLine;
    assert "example"[0] == 'e' && !IsDigit('e');
    assert forall i :: 0 <= i < |"example"| ==> !IsSpace("example"[i]);
    PlainWordHasNoKind("example");
    assert AllSpace("");
  }

  /** Candidates of four lines where only the second is skipped. */
  lemma CandidatesSkippingSecond(a: string, b: string, c: string, d: string)
    requires !Skippable(a) && Skippable(b) && !Skippable(c) && !Skippable(d)
    ensures ImportCandidates([a, b, c, d]) == [ParseLine(a), ParseLine(c), ParseLine(d)]
  {
    hide IsIPv4, IsIPv6, ParseLine, ImportCandidates, Skippable;
    NoLinesNoCandidates();
    ImportCandidatesSnoc([], a);
    ImportCandidatesSnoc([a], b);
    ImportCandidatesSnoc([a, b], c);
    ImportCandidatesSnoc([a, b, c], d);
    assert [] + [a] == [a] && [a] + [b] == [a, b] && [a, b] + [c] == [a, b, c] && [a, b, c] + [d] == [a, b, c, d];
  }

  /** Three candidates are handled one after another. */
  lemma AddThree(h: seq<HostsEntry>, x: Option<HostsEntry>, y: Option<HostsEntry>, z: Option<HostsEntry>, force: bool)
    ensures var s1 := AddOne(h, x, force);
      var s2 := AddOne(s1.hosts, y, force);
      var s3 := AddOne(s2.hosts, z, force);
      Add(h, [x, y, z], force) == AddResult(s3.hosts, AddCounts(0, 0, 0, 0, 0, 0).Record(s1.outcome).Record(s2.outcome).Record(s3.outcome))
  {
    hide IsIPv4, IsIPv6, AddOne, Add, AddCounts.Record, Valid, Exists, IsDuplicate, Survivors, Keep;
    assert [x] + [y] == [x, y] && [x, y] + [z] == [x, y, z];
    AddSingle(h, x, force);
    AddSnoc(h, [x], y, force);
    AddSnoc(h, [x, y], z, force);
  }

  /** Four single lines, each newline-terminated, split back into the same four lines. */
  lemma FourLines(a: string, b: string, c: string, d: string)
    requires NoLineBreak(a) && NoLineBreak(b) && NoLineBreak(c) && NoLineBreak(d)
    ensures SplitLines(Lines([a, b, c, d])) == [a, b, c, d]
  {
    hide Lines, SplitLines, NoLineBreak;
    SplitLinesOfLines([a, b, c, d]);
  }

  /** The lines of the invalid-line test: the bare word is handed to `add` as unreadable, the blank is skipped. */
  lemma InvalidTestCandidates()
    ensures var ex, ten := IPv4("82.132.132.132", ExampleNames), IPv4("10.10.10.10", ["hello.com"]);
      var lines := ["example", "", TabLine("10.10.10.10", ["hello.com"]), TabLine("82.132.132.132", ExampleNames)];
      && SplitLines(Lines(lines)) == lines
      && ImportCandidates(lines) == [None, Some(ten), Some(ex)]
  {
    hide IsIPv4, IsIPv6, ParseLine, TabLine, Lines, ImportCandidates, Skippable, SplitLines, NoLineBreak;
    ImportLinesRead();
    InvalidTestOpening();
    var l1, l2 := TabLine("10.10.10.10", ["hello.com"]), TabLine("82.132.132.132", ExampleNames);
    FourLines("example", "", l1, l2);
    RecordLineNotSkipped(l1, IPv4("10.10.10.10", ["hello.com"]));
    RecordLineNotSkipped(l2, IPv4("82.132.132.132", ExampleNames));
    CandidatesSkippingSecond("example", "", l1, l2);
  }

  /**
   tests/test_hosts.py:148-171: the list holds the example record; the
   imported file starts with a bare word and a blank line before the two
   record lines. The import does not fail, counts the bare word as invalid,
   and writes two IPv4 records and nothing else.
   */
  lemma ImportCountsInvalid()
    ensures var ex, ten := IPv4("82.132.132.132", ExampleNames), IPv4("10.10.10.10", ["hello.com"]);
      var text := Lines(["example", "", TabLine("10.10.10.10", ["hello.com"]), TabLine("82.132.132.132", ExampleNames)]);
      var r := ImportFile([ex], Some(text), false);
      && r.Imported? && r.hosts == [ex, ten]
      && r.addResult.invalidCount == 1
      && r.writeResult.ipv4EntriesWritten == 2 && r.writeResult.totalWritten == 2
  {
    hide IsIPv4, IsIPv6, ParseLine, TabLine, Lines, Add, AddOne, Write, ImportCandidates, SkippedLines, Skippable, ImportFile, SplitLines;
    var ex, ten := IPv4("82.132.132.132", ExampleNames), IPv4("10.10.10.10", ["hello.com"]);
    var text := Lines(["example", "", TabLine("10.10.10.10", ["hello.com"]), TabLine("82.132.132.132", ExampleNames)]);
    InvalidTestCandidates();
    ImportOfText([ex], text, false);
    ImportedRecords(ex, ten);
    assert AddOne([ex], None, false) == Step([ex], Invalid);
    AddThree([ex], None, Some(ten), Some(ex), false);
  }

  /** tests/test_hosts.py:350-358: an import whose file cannot be read fails and reports nothing else. */
  lemma UnreadableImportFails(h: seq<HostsEntry>, force: bool)
    ensures ImportFile(h, None, force) == Failed
  {}
}
