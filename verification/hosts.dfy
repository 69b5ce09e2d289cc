/**
 The hosts collection (`Hosts`): the entries of one hosts file in file order,
 with the existence query, `add` with and without `force`, `remove_matching`,
 the counters `write` reports, loading from text and importing a list of lines.
 */
module Hosts {
  import opened Results
  import opened Text
  import opened Address
  import opened Entry

  /** Both entries are address records of one family; comments and blanks match nothing. */
  predicate SameFamily(x: HostsEntry, c: HostsEntry) {
    (x.IPv4? && c.IPv4?) || (x.IPv6? && c.IPv6?)
  }

  predicate AddressMatch(x: HostsEntry, c: HostsEntry) {
    SameFamily(x, c) && x.address == c.address
  }

  predicate NamesOverlap(x: HostsEntry, c: HostsEntry) {
    SameFamily(x, c) && exists n :: n in x.names && n in c.names
  }

  /** An address record of the candidate's family with the candidate's address is in the list. */
  function HasAddressMatch(h: seq<HostsEntry>, c: HostsEntry): (b: bool)
    ensures b <==> exists x :: x in h && AddressMatch(x, c)
  {
    if h == [] then false
    else
      var init := h[..|h| - 1];
      assert h == init + [h[|h| - 1]];
      AddressMatch(h[|h| - 1], c) || HasAddressMatch(init, c)
  }

  /** An address record of the candidate's family sharing one of its names is in the list. */
  function HasNameMatch(h: seq<HostsEntry>, c: HostsEntry): (b: bool)
    ensures b <==> exists x :: x in h && NamesOverlap(x, c)
  {
    if h == [] then false
    else
      var init := h[..|h| - 1];
      assert h == init + [h[|h| - 1]];
      NamesOverlap(h[|h| - 1], c) || HasNameMatch(init, c)
  }

  /** The two 0/1 signals `exists` reports. */
  datatype Matches = Matches(addressMatches: nat, nameMatches: nat)

  /**
   `exists(entry)`: `address_matches` is 1 exactly when an entry of the
   candidate's family has its address, and `name_matches` is 1 exactly when
   one shares at least one of its names.
   */
  function Exists(h: seq<HostsEntry>, c: HostsEntry): (m: Matches)
    ensures m.addressMatches == (if exists x :: x in h && AddressMatch(x, c) then 1 else 0)
    ensures m.nameMatches == (if exists x :: x in h && NamesOverlap(x, c) then 1 else 0)
  {
    Matches(if HasAddressMatch(h, c) then 1 else 0, if HasNameMatch(h, c) then 1 else 0)
  }

  /** The entries of `h` satisfying `p`, in their original order. */
  function Keep(h: seq<HostsEntry>, p: HostsEntry -> bool): (r: seq<HostsEntry>)
    ensures forall x :: x in r <==> x in h && p(x)
    ensures |r| <= |h|
    ensures |r| == |h| <==> forall x :: x in h ==> p(x)
    ensures (forall x :: x in h ==> p(x)) ==> r == h
  {
    if h == [] then []
    else
      var init := h[..|h| - 1];
      var last := h[|h| - 1];
      assert h == init + [last];
      Keep(init, p) + (if p(last) then [last] else [])
  }

  /** Filtering distributes over concatenation, so the entries kept stay in their original order. */
  lemma {:induction false} KeepAppend(a: seq<HostsEntry>, b: seq<HostsEntry>, p: HostsEntry -> bool)
    ensures Keep(a + b, p) == Keep(a, p) + Keep(b, p)
    decreases |b|
  {
    hide Keep;
    if b == [] {
      assert a + b == a;
      assert Keep(b, p) == [];
    } else {
      var init, last := b[..|b| - 1], b[|b| - 1];
      assert b == init + [last];
      assert a + b == (a + init) + [last];
      KeepSnoc(a + init, last, p);
      KeepSnoc(init, last, p);
      KeepAppend(a, init, p);
    }
  }

  /** One more entry is kept exactly when it satisfies the filter, after the entries kept before it. */
  lemma KeepSnoc(h: seq<HostsEntry>, x: HostsEntry, p: HostsEntry -> bool)
    ensures Keep(h + [x], p) == Keep(h, p) + (if p(x) then [x] else [])
  {
    assert (h + [x])[..|h|] == h;
  }

  /** The entries sharing no name with `c`: what a forced add of `c` keeps. */
  function Survivors(h: seq<HostsEntry>, c: HostsEntry): (r: seq<HostsEntry>)
    ensures forall x :: x in r <==> x in h && !NamesOverlap(x, c)
    ensures |r| <= |h|
    ensures (forall x :: x in h ==> !NamesOverlap(x, c)) ==> r == h
  {
    Keep(h, x => !NamesOverlap(x, c))
  }

  /**
   A duplicate in the strict sense: one record of the candidate's family holds
   its address and every one of its names, so the list already says what the
   candidate says.
   */
  predicate Covers(x: HostsEntry, c: HostsEntry)
    ensures Covers(x, c) ==> c.IsAddress() && x.IsAddress()
    ensures c.IsAddress() && Covers(x, c) && c.names != [] ==> c.names[0] in x.names && NamesOverlap(x, c)
    ensures x == c && c.IsAddress() ==> Covers(x, c)
  {
    AddressMatch(x, c) && forall n :: n in c.names ==> n in x.names
  }

  /** A duplicate of a candidate with a name shows up in `exists` as both an address and a name match. */
  predicate IsDuplicate(h: seq<HostsEntry>, c: HostsEntry)
    ensures IsDuplicate(h, c) && c.IsAddress() && c.names != [] ==> Exists(h, c) == Matches(1, 1)
    ensures c in h && c.IsAddress() ==> IsDuplicate(h, c)
  {
    exists x :: x in h && Covers(x, c)
  }

  /** Number of entries of kind `k`. */
  function CountKind(h: seq<HostsEntry>, k: EntryKind): nat
  {
    if h == [] then 0
    else CountKind(h[..|h| - 1], k) + (if h[|h| - 1].Kind() == k then 1 else 0)
  }

  /** Every entry is of exactly one kind, so the four counts add up to the length. */
  lemma {:induction false} CountKindsSum(h: seq<HostsEntry>)
    ensures CountKind(h, IPv4Kind) + CountKind(h, IPv6Kind) + CountKind(h, CommentKind) + CountKind(h, BlankKind) == |h|
  {
    if h != [] {
      CountKindsSum(h[..|h| - 1]);
    }
  }

  /** Counting distributes over concatenation. */
  lemma {:induction false} CountKindAppend(a: seq<HostsEntry>, b: seq<HostsEntry>, k: EntryKind)
    ensures CountKind(a + b, k) == CountKind(a, k) + CountKind(b, k)
    decreases |b|
  {
    if b == [] {
      assert a + b == a;
    } else {
      var init := b[..|b| - 1];
      assert (a + b)[..|a + b| - 1] == a + init;
      assert (a + b)[|a + b| - 1] == b[|b| - 1];
      CountKindAppend(a, init, k);
    }
  }

  /** Removing only address records leaves the number of comments and of blanks as it was. */
  lemma {:induction false} KeepCountsNonAddresses(h: seq<HostsEntry>, p: HostsEntry -> bool, k: EntryKind)
    requires k == CommentKind || k == BlankKind
    requires forall x: HostsEntry :: !x.IsAddress() ==> p(x)
    ensures CountKind(Keep(h, p), k) == CountKind(h, k)
  {
    if h != [] {
      var init := h[..|h| - 1];
      var last := h[|h| - 1];
      KeepCountsNonAddresses(init, p, k);
      CountKindAppend(Keep(init, p), if p(last) then [last] else [], k);
    }
  }

  /** What `write` returns: the file text and its counters. */
  datatype WriteResult = WriteResult(
    text: string,
    ipv4EntriesWritten: nat,
    ipv6EntriesWritten: nat,
    commentsWritten: nat,
    blanksWritten: nat,
    totalWritten: nat)

  /** The lines `write` emits, one per entry, in order. */
  function RenderAll(h: seq<HostsEntry>): (ls: seq<string>)
    ensures |ls| == |h|
  {
    seq(|h|, i requires 0 <= i < |h| => Render(h[i]))
  }

  /**
   `write`: one line per entry, each newline-terminated, and the number of
   entries of each kind; the total counts every entry exactly once.
   */
  function Write(h: seq<HostsEntry>): (w: WriteResult)
    ensures w.totalWritten == w.ipv4EntriesWritten + w.ipv6EntriesWritten + w.commentsWritten + w.blanksWritten
    ensures w.totalWritten == |h|
  {
    var ipv4, ipv6 := CountKind(h, IPv4Kind), CountKind(h, IPv6Kind);
    var comments, blanks := CountKind(h, CommentKind), CountKind(h, BlankKind);
    CountKindsSum(h);
    WriteResult(Lines(RenderAll(h)), ipv4, ipv6, comments, blanks, ipv4 + ipv6 + comments + blanks)
  }

  /** The outcome of loading: the entries read and the number of lines that could not be read. */
  datatype Loaded = Loaded(entries: seq<HostsEntry>, invalidCount: nat)

  /** Reads lines in order, keeping every entry read and counting the lines that fail. */
  function LoadLines(lines: seq<string>): (l: Loaded)
    ensures |l.entries| + l.invalidCount == |lines|
    ensures (forall i :: 0 <= i < |lines| ==> NoLineBreak(lines[i])) ==>
      forall e :: e in l.entries ==> WellFormed(e)
  {
    if lines == [] then Loaded([], 0)
    else
      var init := lines[..|lines| - 1];
      var last := lines[|lines| - 1];
      var prev := LoadLines(init);
      ParseLineWellFormed(last);
      match ParseLine(last)
      case None => Loaded(prev.entries, prev.invalidCount + 1)
      case Some(e) => Loaded(prev.entries + [e], prev.invalidCount)
  }

  /** Loading a file's text: split it into lines the way `splitlines()` does and read each. */
  function Load(text: string): (l: Loaded)
    ensures |l.entries| + l.invalidCount == |SplitLines(text)|
    ensures forall e :: e in l.entries ==> WellFormed(e)
  {
    LoadLines(SplitLines(text))
  }

  /** Reading the rendered lines of well-formed entries gives the entries back, with nothing invalid. */
  lemma {:induction false} LoadRendered(h: seq<HostsEntry>)
    requires forall e :: e in h ==> WellFormed(e)
    ensures LoadLines(RenderAll(h)) == Loaded(h, 0)
    decreases |h|
  {
    hide IsIPv4, IsIPv6, ParseLine, Render, WellFormed, EntryType, LoadLines;
    if h != [] {
      var init := h[..|h| - 1];
      var last := h[|h| - 1];
      assert RenderAll(h) == RenderAll(init) + [Render(last)];
      LoadRendered(init);
      ParseRender(last);
      LoadLinesSnoc(RenderAll(init), Render(last));
      assert init + [last] == h;
    }
  }

  /** Reading one more line reads it after the others: its entry is appended, or the invalid count grows by one. */
  lemma LoadLinesSnoc(lines: seq<string>, line: string)
    ensures var prev, next := LoadLines(lines), LoadLines(lines + [line]);
      && (ParseLine(line).None? ==> next == Loaded(prev.entries, prev.invalidCount + 1))
      && (ParseLine(line).Some? ==> next == Loaded(prev.entries + [ParseLine(line).value], prev.invalidCount))
  {
    hide IsIPv4, IsIPv6, ParseLine, WellFormed, EntryType;
    assert (lines + [line])[..|lines|] == lines;
  }

  /** A line that reads as `e` appends `e` to what the earlier lines loaded. */
  lemma LoadLineRead(lines: seq<string>, line: string, e: HostsEntry)
    requires ParseLine(line) == Some(e)
    ensures LoadLines(lines + [line]) == Loaded(LoadLines(lines).entries + [e], LoadLines(lines).invalidCount)
  {
    LoadLinesSnoc(lines, line);
  }

  /** What `write` produces for well-formed entries loads back as the same entries. */
  lemma LoadWrite(h: seq<HostsEntry>)
    requires forall e :: e in h ==> WellFormed(e)
    ensures Load(Write(h).text) == Loaded(h, 0)
  {
    var ls := RenderAll(h);
    forall i | 0 <= i < |ls|
      ensures NoLineBreak(ls[i])
    {
      RenderIsOneLine(h[i]);
    }
    SplitLinesOfLines(ls);
    LoadRendered(h);
  }

  /** Loading, writing and loading again gives the entries of the first load; a second write repeats the first. */
  lemma WriteLoadIdempotent(text: string)
    ensures var l := Load(text);
      && Load(Write(l.entries).text).entries == l.entries
      && Write(Load(Write(l.entries).text).entries) == Write(l.entries)
  {
    LoadWrite(Load(text).entries);
  }

  /** How `add` disposed of one candidate. */
  datatype Outcome = Invalid | Passed | Duplicate | Skipped | AddedIPv4 | AddedIPv6

  datatype Step = Step(hosts: seq<HostsEntry>, outcome: Outcome)

  /**
   `add` for one candidate, against the current list: an unreadable candidate
   is invalid; a comment or blank is appended; an address record that a record
   of the list already covers (its address and all its names) is a duplicate;
   one sharing a name is skipped unless forced, and when forced replaces every
   entry sharing a name; any other record is appended.
   */
  function AddOne(h: seq<HostsEntry>, cand: Option<HostsEntry>, force: bool): (s: Step)
    ensures s.outcome in {Invalid, Duplicate, Skipped} ==> s.hosts == h
    ensures s.outcome == Passed ==> cand.Some? && s.hosts == h + [cand.value] && !cand.value.IsAddress()
    ensures s.outcome == AddedIPv4 ==> cand.Some? && cand.value.IPv4?
    ensures s.outcome == AddedIPv6 ==> cand.Some? && cand.value.IPv6?
    ensures !force && s.outcome in {AddedIPv4, AddedIPv6} ==> s.hosts == h + [cand.value]
    ensures force && s.outcome in {AddedIPv4, AddedIPv6} ==> s.hosts == Survivors(h, cand.value) + [cand.value]
    ensures forall x :: x in s.hosts ==> x in h || cand == Some(x)
    ensures forall x :: x in h && !x.IsAddress() ==> x in s.hosts
    ensures s.outcome == Invalid <==> cand.None? || !Valid(cand.value)
    ensures s.outcome == Duplicate <==> cand.Some? && Valid(cand.value) && cand.value.IsAddress() && IsDuplicate(h, cand.value)
  {
    hide IsIPv4, IsIPv6;
    match cand
    case None => Step(h, Invalid)
    case Some(c) =>
      if !Valid(c) then Step(h, Invalid)
      else if !c.IsAddress() then Step(h + [c], Passed)
      else
        var m := Exists(h, c);
        var added := if c.IPv4? then AddedIPv4 else AddedIPv6;
        if IsDuplicate(h, c) then Step(h, Duplicate)
        else if m.nameMatches == 1 && !force then Step(h, Skipped)
        else if m.nameMatches == 1 then Step(Survivors(h, c) + [c], added)
        else Step(h + [c], added)
  }

  /** The counters `add` returns; skipped name conflicts and passed-through comments and blanks are counted too. */
  datatype AddCounts = AddCounts(
    ipv4Count: nat,
    ipv6Count: nat,
    invalidCount: nat,
    duplicateCount: nat,
    skippedCount: nat,
    passedCount: nat)
  {
    function Total(): nat {
      ipv4Count + ipv6Count + invalidCount + duplicateCount + skippedCount + passedCount
    }

    /** Counts one more candidate under the counter of its outcome. */
    function Record(o: Outcome): (r: AddCounts)
      ensures r.Total() == Total() + 1
      ensures r.invalidCount == invalidCount + (if o == Invalid then 1 else 0)
      ensures r.ipv4Count + r.ipv6Count + r.passedCount ==
        ipv4Count + ipv6Count + passedCount + (if o in {Passed, AddedIPv4, AddedIPv6} then 1 else 0)
      ensures r.passedCount == passedCount + (if o == Passed then 1 else 0)
    {
      match o
      case Invalid => this.(invalidCount := invalidCount + 1)
      case Passed => this.(passedCount := passedCount + 1)
      case Duplicate => this.(duplicateCount := duplicateCount + 1)
      case Skipped => this.(skippedCount := skippedCount + 1)
      case AddedIPv4 => this.(ipv4Count := ipv4Count + 1)
      case AddedIPv6 => this.(ipv6Count := ipv6Count + 1)
    }
  }

  /** Number of candidates that are unreadable or fail the constructor's checks. */
  function InvalidCandidates(cands: seq<Option<HostsEntry>>): nat
  {
    if cands == [] then 0
    else
      var c := cands[|cands| - 1];
      InvalidCandidates(cands[..|cands| - 1]) + (if c.None? || !Valid(c.value) then 1 else 0)
  }

  datatype AddResult = AddResult(hosts: seq<HostsEntry>, counts: AddCounts)

  /**
   `add(entries, force)`: the candidates in order, each against the list as
   the earlier ones left it. Every candidate is counted exactly once; without
   `force` nothing is removed, so the old list is a prefix of the new one.
   */
  function Add(h: seq<HostsEntry>, cands: seq<Option<HostsEntry>>, force: bool): (r: AddResult)
    ensures r.counts.Total() == |cands|
    ensures r.counts.invalidCount == InvalidCandidates(cands)
    ensures (forall c :: c in cands ==> c.None? || c.value.IsAddress()) ==> r.counts.passedCount == 0
  {
    hide IsIPv4, IsIPv6;
    if cands == [] then AddResult(h, AddCounts(0, 0, 0, 0, 0, 0))
    else
      var init := cands[..|cands| - 1];
      var c := cands[|cands| - 1];
      var prev := Add(h, init, force);
      var step := AddOne(prev.hosts, c, force);
      AddResult(step.hosts, prev.counts.Record(step.outcome))
  }

  /** Every entry after `add` was already there or is one of the candidates. */
  lemma {:induction false} AddDrawsFromInputs(h: seq<HostsEntry>, cands: seq<Option<HostsEntry>>, force: bool)
    ensures forall x :: x in Add(h, cands, force).hosts ==> x in h || Some(x) in cands
    decreases |cands|
  {
    hide IsIPv4, IsIPv6, AddOne, Keep, Exists, Valid;
    if cands != [] {
      var init := cands[..|cands| - 1];
      var c := cands[|cands| - 1];
      AddDrawsFromInputs(h, init, force);
      var prev := Add(h, init, force);
      var step := AddOne(prev.hosts, c, force);
      assert Add(h, cands, force).hosts == step.hosts;
      forall x | x in step.hosts
        ensures x in h || Some(x) in cands
      {
        if x !in prev.hosts {
          assert c == Some(x);
        } else if x !in h {
          assert Some(x) in init;
        }
      }
    }
  }

  /** No comment or blank is ever lost by `add`, forced or not. */
  lemma {:induction false} AddKeepsNonAddresses(h: seq<HostsEntry>, cands: seq<Option<HostsEntry>>, force: bool)
    ensures forall x :: x in h && !x.IsAddress() ==> x in Add(h, cands, force).hosts
    decreases |cands|
  {
    hide IsIPv4, IsIPv6, AddOne, Keep, Exists, Valid;
    if cands != [] {
      var init := cands[..|cands| - 1];
      var c := cands[|cands| - 1];
      AddKeepsNonAddresses(h, init, force);
      var prev := Add(h, init, force);
      var step := AddOne(prev.hosts, c, force);
      assert Add(h, cands, force).hosts == step.hosts;
      forall x | x in h && !x.IsAddress()
        ensures x in step.hosts
      {
        assert x in prev.hosts;
      }
    }
  }

  /** Without `force` nothing is removed: the old list is a prefix of the new one, which grows by the entries appended. */
  lemma {:induction false} UnforcedAddExtends(h: seq<HostsEntry>, cands: seq<Option<HostsEntry>>)
    ensures var r := Add(h, cands, false);
      && |h| <= |r.hosts| && r.hosts[..|h|] == h
      && |r.hosts| == |h| + r.counts.ipv4Count + r.counts.ipv6Count + r.counts.passedCount
    decreases |cands|
  {
    hide IsIPv4, IsIPv6, AddOne, Keep, Exists, Valid, Survivors, IsDuplicate, AddCounts.Record;
    if cands == [] {
      assert h[..|h|] == h;
    } else {
      var init := cands[..|cands| - 1];
      var c := cands[|cands| - 1];
      UnforcedAddExtends(h, init);
      var prev := Add(h, init, false);
      var step := AddOne(prev.hosts, c, false);
      assert Add(h, cands, false) == AddResult(step.hosts, prev.counts.Record(step.outcome));
      if step.outcome in {Passed, AddedIPv4, AddedIPv6} {
        assert step.hosts == prev.hosts + [c.value];
        assert step.hosts[..|h|] == prev.hosts[..|h|];
      }
    }
  }

  /** Adding a single candidate is one step of `add`. */
  lemma AddSingle(h: seq<HostsEntry>, c: Option<HostsEntry>, force: bool)
    ensures Add(h, [c], force) == AddResult(AddOne(h, c, force).hosts, AddCounts(0, 0, 0, 0, 0, 0).Record(AddOne(h, c, force).outcome))
  {
    hide IsIPv4, IsIPv6;
    assert [c][..0] == [];
  }

  /** An entry matches itself by address and by name, when it is a valid address record. */
  lemma SelfMatches(c: HostsEntry)
    requires Valid(c) && c.IsAddress()
    ensures AddressMatch(c, c) && NamesOverlap(c, c)
  {
    hide IsIPv4, IsIPv6;
    assert c.names[0] in c.names;
  }

  /**
   With `force`, a valid address record is bound afterwards: both signals of
   `exists` are 1, whether it was a duplicate, replaced entries sharing a
   name, or was simply appended.
   */
  lemma ForcedAddMatchesBoth(h: seq<HostsEntry>, c: HostsEntry)
    requires Valid(c) && c.IsAddress()
    ensures Exists(AddOne(h, Some(c), true).hosts, c) == Matches(1, 1)
  {
    hide IsIPv4, IsIPv6;
    var s := AddOne(h, Some(c), true);
    if s.outcome != Duplicate {
      SelfMatches(c);
      assert c in s.hosts;
    } else {
      DuplicateMatchesBoth(h, c);
    }
  }

  /** A covered candidate has its address present and shares a name, so both signals of `exists` are 1. */
  lemma DuplicateMatchesBoth(h: seq<HostsEntry>, c: HostsEntry)
    requires c.IsAddress() && c.names != [] && IsDuplicate(h, c)
    ensures Exists(h, c) == Matches(1, 1)
  {
    hide IsIPv4, IsIPv6;
    var x :| x in h && Covers(x, c);
    assert c.names[0] in x.names;
    assert AddressMatch(x, c) && NamesOverlap(x, c);
  }

  /** A forced add that is not a duplicate leaves the candidate as the only entry sharing any of its names. */
  lemma ForcedAddUniqueBinding(h: seq<HostsEntry>, c: HostsEntry)
    requires Valid(c) && c.IsAddress()
    requires AddOne(h, Some(c), true).outcome != Duplicate
    ensures forall x :: x in AddOne(h, Some(c), true).hosts && NamesOverlap(x, c) ==> x == c
  {
    hide IsIPv4, IsIPv6;
  }

  /**
   Without `force`, a candidate sharing a name with an existing entry leaves
   the list unchanged: it is a duplicate when a record covers it, and skipped
   otherwise.
   */
  lemma UnforcedConflictUnchanged(h: seq<HostsEntry>, c: HostsEntry)
    requires Valid(c) && c.IsAddress()
    requires Exists(h, c).nameMatches == 1
    ensures AddOne(h, Some(c), false).hosts == h
    ensures AddOne(h, Some(c), false).outcome == (if IsDuplicate(h, c) then Duplicate else Skipped)
  {
    hide IsIPv4, IsIPv6, IsDuplicate;
  }

  /** A candidate that a record covers is a duplicate, with or without `force`, and changes nothing. */
  lemma DuplicateUnchanged(h: seq<HostsEntry>, c: HostsEntry, force: bool)
    requires Valid(c) && c.IsAddress()
    requires IsDuplicate(h, c)
    ensures AddOne(h, Some(c), force) == Step(h, Duplicate)
    ensures Write(AddOne(h, Some(c), force).hosts) == Write(h)
    ensures Exists(h, c) == Matches(1, 1)
  {
    hide IsIPv4, IsIPv6, IsDuplicate;
    DuplicateMatchesBoth(h, c);
  }

  /** A valid record already in the list is a duplicate, with or without `force`, and adding it changes nothing. */
  lemma IdenticalIsDuplicate(h: seq<HostsEntry>, c: HostsEntry, force: bool)
    requires Valid(c) && c.IsAddress() && c in h
    ensures AddOne(h, Some(c), force) == Step(h, Duplicate)
    ensures Write(AddOne(h, Some(c), force).hosts) == Write(h)
  {
    hide IsIPv4, IsIPv6;
    SelfMatches(c);
    assert Covers(c, c);
    DuplicateUnchanged(h, c, force);
  }

  /**
   Both signals of `exists` can be 1 without any record covering the
   candidate: with `a` bound to `n1` and `b` to `n2`, a forced add binding `a`
   to `n2` is no duplicate; it replaces the record of `n2` and keeps the other.
   */
  lemma SplitBindingReplaced(a: string, b: string)
    requires IsIPv4(a) && IsIPv4(b) && a != b
    ensures var h, c := [IPv4(a, ["n1"]), IPv4(b, ["n2"])], IPv4(a, ["n2"]);
      && Exists(h, c) == Matches(1, 1)
      && !IsDuplicate(h, c)
      && AddOne(h, Some(c), true) == Step([IPv4(a, ["n1"]), c], AddedIPv4)
  {
    hide IsIPv4, IsIPv6;
    var h, c := [IPv4(a, ["n1"]), IPv4(b, ["n2"])], IPv4(a, ["n2"]);
    assert "n2" in h[1].names && "n2" in c.names;
    assert AddressMatch(h[0], c) && NamesOverlap(h[1], c);
    assert !Covers(h[0], c) by {
      assert "n2" in c.names && "n2" !in h[0].names;
    }
    assert !Covers(h[1], c);
    assert !NamesOverlap(h[0], c);
    assert Survivors(h, c) == [h[0]] by {
      hide NamesOverlap;
      KeepSnoc([], h[0], x => !NamesOverlap(x, c));
      KeepSnoc([h[0]], h[1], x => !NamesOverlap(x, c));
      assert [] + [h[0]] == [h[0]] && [h[0]] + [h[1]] == h;
    }
    ForcedConflictReplaces(h, c);
  }

  /** A forced address record that shares a name but is no duplicate replaces the entries sharing a name with it. */
  lemma ForcedConflictReplaces(h: seq<HostsEntry>, c: HostsEntry)
    requires Valid(c) && c.IsAddress()
    requires Exists(h, c).nameMatches == 1 && !IsDuplicate(h, c)
    ensures AddOne(h, Some(c), true) == Step(Survivors(h, c) + [c], if c.IPv4? then AddedIPv4 else AddedIPv6)
  {
    hide IsIPv4, IsIPv6, Valid, Survivors, Exists, IsDuplicate;
  }

  /** A candidate sharing no name is appended, with or without `force`, and its address then matches. */
  lemma CleanAddAppends(h: seq<HostsEntry>, c: HostsEntry, force: bool)
    requires Valid(c) && c.IsAddress()
    requires Exists(h, c).nameMatches == 0
    ensures AddOne(h, Some(c), force) == Step(h + [c], if c.IPv4? then AddedIPv4 else AddedIPv6)
    ensures Exists(h + [c], c) == Matches(1, 1)
  {
    hide IsIPv4, IsIPv6;
    SelfMatches(c);
    assert c in h + [c];
  }

  /** Adding an address record leaves the list alone, appends the record, or keeps the entries not sharing a name and appends it. */
  lemma AddOneShape(h: seq<HostsEntry>, c: HostsEntry, force: bool)
    requires c.IsAddress()
    ensures var s := AddOne(h, Some(c), force);
      s.hosts == h || s.hosts == h + [c] || s.hosts == Survivors(h, c) + [c]
  {
    hide IsIPv4, IsIPv6, Valid, Survivors, Exists, IsDuplicate;
  }

  /** Appending an address record changes no comment or blank count. */
  lemma AppendRecordCounts(h: seq<HostsEntry>, c: HostsEntry, k: EntryKind)
    requires c.IsAddress() && (k == CommentKind || k == BlankKind)
    ensures CountKind(h + [c], k) == CountKind(h, k)
  {
    hide IsIPv4, IsIPv6;
    CountKindAppend(h, [c], k);
    assert [c][..0] == [];
  }

  /** Adding an address record never changes how many comments and blanks are written. */
  lemma AddKeepsCommentsAndBlanks(h: seq<HostsEntry>, c: HostsEntry, force: bool)
    requires c.IsAddress()
    ensures var w, w' := Write(h), Write(AddOne(h, Some(c), force).hosts);
      w'.commentsWritten == w.commentsWritten && w'.blanksWritten == w.blanksWritten
  {
    hide IsIPv4, IsIPv6, Lines, RenderAll, Valid, AddOne, Keep, Exists, CountKind;
    var s := AddOne(h, Some(c), force);
    AddOneShape(h, c, force);
    var p := x => !NamesOverlap(x, c);
    assert Survivors(h, c) == Keep(h, p);
    if s.hosts == h + [c] {
      AppendRecordCounts(h, c, CommentKind);
      AppendRecordCounts(h, c, BlankKind);
    } else if s.hosts == Keep(h, p) + [c] {
      KeepCountsNonAddresses(h, p, CommentKind);
      KeepCountsNonAddresses(h, p, BlankKind);
      AppendRecordCounts(Keep(h, p), c, CommentKind);
      AppendRecordCounts(Keep(h, p), c, BlankKind);
    }
  }

  /** Appending an entry adds one to the written count of its kind and leaves the other counters alone. */
  lemma WriteAppend(h: seq<HostsEntry>, e: HostsEntry)
    ensures var w, w' := Write(h), Write(h + [e]);
      && w'.ipv4EntriesWritten == w.ipv4EntriesWritten + (if e.IPv4? then 1 else 0)
      && w'.ipv6EntriesWritten == w.ipv6EntriesWritten + (if e.IPv6? then 1 else 0)
      && w'.commentsWritten == w.commentsWritten + (if e.Comment? then 1 else 0)
      && w'.blanksWritten == w.blanksWritten + (if e.Blank? then 1 else 0)
      && w'.totalWritten == w.totalWritten + 1
  {
    hide IsIPv4, IsIPv6, RenderAll, Lines;
    assert (h + [e])[..|h|] == h;
  }

  datatype Removal = Removal(hosts: seq<HostsEntry>, removedCount: nat)

  /**
   `remove_matching(entry)`: drops every entry of the candidate's family that
   has its address or shares a name with it, and keeps everything else.
   */
  function RemoveMatching(h: seq<HostsEntry>, c: HostsEntry): (r: Removal)
    ensures Exists(r.hosts, c) == Matches(0, 0)
    ensures r.removedCount == |h| - |r.hosts|
    ensures r.removedCount > 0 <==> Exists(h, c) != Matches(0, 0)
    ensures forall x :: x in r.hosts <==> x in h && !AddressMatch(x, c) && !NamesOverlap(x, c)
  {
    var kept := Keep(h, x => !AddressMatch(x, c) && !NamesOverlap(x, c));
    Removal(kept, |h| - |kept|)
  }

  /** Removal works entry by entry: the entries of two lists that survive it stay in order, those of the first before those of the second. */
  lemma RemoveMatchingAppend(a: seq<HostsEntry>, b: seq<HostsEntry>, c: HostsEntry)
    ensures RemoveMatching(a + b, c).hosts == RemoveMatching(a, c).hosts + RemoveMatching(b, c).hosts
  {
    hide IsIPv4, IsIPv6, Keep;
    KeepAppend(a, b, x => !AddressMatch(x, c) && !NamesOverlap(x, c));
  }

  /** A forced add keeps, in their order, the entries of each part of the list that share no name with the candidate. */
  lemma SurvivorsAppend(a: seq<HostsEntry>, b: seq<HostsEntry>, c: HostsEntry)
    ensures Survivors(a + b, c) == Survivors(a, c) + Survivors(b, c)
  {
    hide IsIPv4, IsIPv6, Keep;
    KeepAppend(a, b, x => !NamesOverlap(x, c));
  }

  /** What an import returns: `failed` when there was nothing to read, otherwise the new list and both counter sets. */
  datatype ImportResult =
    | Failed
    | Imported(hosts: seq<HostsEntry>, skipped: nat, addResult: AddCounts, writeResult: WriteResult)

  /** Blank and comment lines are not imported. */
  predicate Skippable(line: string) {
    EntryType(line) == Some(BlankKind) || EntryType(line) == Some(CommentKind)
  }

  /**
   The candidates an import hands to `add`: every line that is not skipped,
   read, in file order; `None` for a line that fails to read.
   */
  function ImportCandidates(lines: seq<string>): (cands: seq<Option<HostsEntry>>)
    ensures |cands| <= |lines|
    ensures forall c :: c in cands ==> c.None? || (Valid(c.value) && c.value.IsAddress())
  {
    hide IsIPv4, IsIPv6;
    if lines == [] then []
    else
      var init := lines[..|lines| - 1];
      var last := lines[|lines| - 1];
      if Skippable(last) then ImportCandidates(init)
      else ImportCandidates(init) + [ParseLine(last)]
  }

  function SkippedLines(lines: seq<string>): (n: nat)
    ensures n + |ImportCandidates(lines)| == |lines|
  {
    if lines == [] then 0
    else SkippedLines(lines[..|lines| - 1]) + (if Skippable(lines[|lines| - 1]) then 1 else 0)
  }

  /** One more line is skipped when it is a blank or a comment, and otherwise read and handed to `add` after the others. */
  lemma ImportCandidatesSnoc(lines: seq<string>, line: string)
    ensures ImportCandidates(lines + [line]) ==
      ImportCandidates(lines) + (if Skippable(line) then [] else [ParseLine(line)])
    ensures SkippedLines(lines + [line]) == SkippedLines(lines) + (if Skippable(line) then 1 else 0)
  {
    hide IsIPv4, IsIPv6, ParseLine, EntryType;
    assert (lines + [line])[..|lines|] == lines;
  }

  /** Every candidate is the reading of a line that is not skipped, and every such line gives one. */
  lemma {:induction false} CandidatesFromLines(lines: seq<string>)
    ensures forall c :: c in ImportCandidates(lines) ==>
      exists i :: 0 <= i < |lines| && !Skippable(lines[i]) && ParseLine(lines[i]) == c
    ensures forall i :: 0 <= i < |lines| && !Skippable(lines[i]) ==> ParseLine(lines[i]) in ImportCandidates(lines)
    decreases |lines|
  {
    hide IsIPv4, IsIPv6, ParseLine, EntryType, ImportCandidates, Skippable;
    if lines != [] {
      var init := lines[..|lines| - 1];
      var last := lines[|lines| - 1];
      assert lines == init + [last];
      CandidatesFromLines(init);
      ImportCandidatesSnoc(init, last);
      forall c | c in ImportCandidates(lines)
        ensures exists i :: 0 <= i < |lines| && !Skippable(lines[i]) && ParseLine(lines[i]) == c
      {
        if c in ImportCandidates(init) {
          var i :| 0 <= i < |init| && !Skippable(init[i]) && ParseLine(init[i]) == c;
          assert lines[i] == init[i];
        } else {
          assert lines[|lines| - 1] == last;
        }
      }
      forall i | 0 <= i < |lines| && !Skippable(lines[i])
        ensures ParseLine(lines[i]) in ImportCandidates(lines)
      {
        if i < |init| {
          assert lines[i] == init[i];
        }
      }
    }
  }

  /** The lines of `lines` that an import reads and finds unreadable, by index. */
  function UnreadableLines(lines: seq<string>): (u: set<int>)
    ensures forall i :: i in u <==> 0 <= i < |lines| && !Skippable(lines[i]) && ParseLine(lines[i]).None?
  {
    set i | 0 <= i < |lines| && !Skippable(lines[i]) && ParseLine(lines[i]).None?
  }

  /** A candidate list after one more is invalid once more exactly when that candidate is. */
  lemma InvalidCandidatesSnoc(cands: seq<Option<HostsEntry>>, c: Option<HostsEntry>)
    ensures InvalidCandidates(cands + [c]) == InvalidCandidates(cands) + (if c.None? || !Valid(c.value) then 1 else 0)
  {
    hide IsIPv4, IsIPv6, Valid;
    assert (cands + [c])[..|cands|] == cands;
  }

  /** The invalid candidates of an import are exactly its unreadable lines. */
  lemma {:induction false} InvalidCandidatesAreUnreadable(lines: seq<string>)
    ensures InvalidCandidates(ImportCandidates(lines)) == |UnreadableLines(lines)|
    decreases |lines|
  {
    hide IsIPv4, IsIPv6, ParseLine, EntryType, ImportCandidates, Skippable, InvalidCandidates, Valid, UnreadableLines;
    if lines == [] {
      NothingUnreadable();
    } else {
      var init := lines[..|lines| - 1];
      var last := lines[|lines| - 1];
      assert lines == init + [last];
      InvalidCandidatesAreUnreadable(init);
      InvalidCandidatesStep(init, last);
      UnreadableSnoc(init, last);
      UnreadableBound(init);
    }
  }

  /** One more line adds one invalid candidate exactly when it is read and does not read. */
  lemma InvalidCandidatesStep(lines: seq<string>, line: string)
    ensures InvalidCandidates(ImportCandidates(lines + [line])) ==
      InvalidCandidates(ImportCandidates(lines)) + (if !Skippable(line) && ParseLine(line).None? then 1 else 0)
  {
    hide IsIPv4, IsIPv6, ParseLine, EntryType, ImportCandidates, Skippable, InvalidCandidates, Valid;
    ImportCandidatesSnoc(lines, line);
    if !Skippable(line) {
      InvalidCandidatesSnoc(ImportCandidates(lines), ParseLine(line));
    } else {
      assert ImportCandidates(lines + [line]) == ImportCandidates(lines);
    }
  }

  lemma NothingUnreadable()
    ensures InvalidCandidates(ImportCandidates([])) == |UnreadableLines([])| == 0
  {
    assert UnreadableLines([]) == {};
  }

  lemma UnreadableBound(lines: seq<string>)
    ensures |lines| !in UnreadableLines(lines)
  {}

  lemma UnreadableSnoc(lines: seq<string>, line: string)
    ensures UnreadableLines(lines + [line]) ==
      UnreadableLines(lines) + (if !Skippable(line) && ParseLine(line).None? then {|lines|} else {})
  {
    hide IsIPv4, IsIPv6, ParseLine, EntryType, Skippable;
    var all := lines + [line];
    forall i
      ensures i in UnreadableLines(all) <==>
        i in UnreadableLines(lines) + (if !Skippable(line) && ParseLine(line).None? then {|lines|} else {})
    {
      if 0 <= i < |lines| {
        assert all[i] == lines[i];
      } else if i == |lines| {
        assert all[i] == line;
      }
    }
  }

  /**
   Importing lines: blanks and comments are skipped, every other line is read
   and handed to `add` in file order, where a line that fails to read counts
   as invalid; then the list is written.
   */
  function ImportLines(h: seq<HostsEntry>, lines: seq<string>, force: bool): (r: ImportResult)
    ensures r.Imported?
    ensures var added := Add(h, ImportCandidates(lines), force);
      r.hosts == added.hosts && r.addResult == added.counts && r.skipped == SkippedLines(lines)
    ensures r.skipped + r.addResult.Total() == |lines|
    ensures r.addResult.invalidCount == |UnreadableLines(lines)|
    ensures r.addResult.passedCount == 0
    ensures r.writeResult == Write(r.hosts)
    ensures forall x :: x in h && !x.IsAddress() ==> x in r.hosts
  {
    hide IsIPv4, IsIPv6;
    var cands := ImportCandidates(lines);
    AddKeepsNonAddresses(h, cands, force);
    InvalidCandidatesAreUnreadable(lines);
    var added := Add(h, cands, force);
    Imported(added.hosts, SkippedLines(lines), added.counts, Write(added.hosts))
  }

  /** `import_file`: `None` stands for a file that cannot be read, which fails and leaves the list alone. */
  function ImportFile(h: seq<HostsEntry>, contents: Option<string>, force: bool): (r: ImportResult)
    ensures r.Failed? <==> contents.None?
    ensures contents.Some? ==> r == ImportLines(h, SplitLines(contents.value), force)
  {
    match contents
    case None => Failed
    case Some(text) => ImportLines(h, SplitLines(text), force)
  }
}
