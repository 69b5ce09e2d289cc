/**
 One line of a hosts file (`HostsEntry`): its four shapes, the checked
 constructor with its five failure kinds, the line classifier
 (`get_entry_type`), the parser used while loading, and the rendering of an
 entry back into a line.
 */
module Entry {
  import opened Results
  import opened Text
  import opened Address

  /** The entry kinds, named by the strings the constructor accepts. */
  datatype EntryKind = BlankKind | CommentKind | IPv4Kind | IPv6Kind

  function KindName(k: EntryKind): string {
    match k
    case BlankKind => "blank"
    case CommentKind => "comment"
    case IPv4Kind => "ipv4"
    case IPv6Kind => "ipv6"
  }

  /** The kind a constructor argument names; names are case-sensitive, so `"IPv4"` names none. */
  function ParseKind(s: string): (r: Option<EntryKind>)
    ensures forall k :: r == Some(k) <==> KindName(k) == s
  {
    if s == "blank" then Some(BlankKind)
    else if s == "comment" then Some(CommentKind)
    else if s == "ipv4" then Some(IPv4Kind)
    else if s == "ipv6" then Some(IPv6Kind)
    else None
  }

  /** A hosts-file line; each case carries only the fields meaningful for it. */
  datatype HostsEntry =
    | Blank
    | Comment(text: string)
    | IPv4(address: string, names: seq<string>)
    | IPv6(address: string, names: seq<string>)
  {
    function Kind(): EntryKind {
      match this
      case Blank => BlankKind
      case Comment(_) => CommentKind
      case IPv4(_, _) => IPv4Kind
      case IPv6(_, _) => IPv6Kind
    }

    /** An address record, as opposed to a comment or a blank. */
    predicate IsAddress() {
      IPv4? || IPv6?
    }
  }

  /** Why the constructor refused its arguments (one exception class each in the original). */
  datatype EntryError =
    | InvalidKind
    | MissingComment
    | MissingAddressOrNames
    | InvalidIPv4Address
    | InvalidIPv6Address

  /** What the constructor guarantees of every entry it builds. */
  predicate Valid(e: HostsEntry)
    ensures Valid(e) && e.IPv4? ==> 7 <= |e.address| <= 15 && !IsIPv6(e.address)
    ensures Valid(e) && e.IPv6? ==> !IsIPv4(e.address)
  {
    match e
    case Blank => true
    case Comment(t) => t != []
    case IPv4(a, ns) => FamiliesDisjoint(a); IsIPv4(a) && ns != []
    case IPv6(a, ns) => FamiliesDisjoint(a); IsIPv6(a) && ns != []
  }

  /**
   The checked constructor. An absent or falsy argument is the empty string or
   the empty list. The checks run in order: the kind, then a comment's text,
   then an address record's address and names, then the address's syntax.
   */
  function NewEntry(kind: string, address: string, names: seq<string>, comment: string): (r: Result<HostsEntry, EntryError>)
    ensures r == Err(InvalidKind) <==> ParseKind(kind).None?
    ensures r == Err(MissingComment) <==> kind == "comment" && comment == []
    ensures r == Err(MissingAddressOrNames) <==> (kind == "ipv4" || kind == "ipv6") && (address == [] || names == [])
    ensures r == Err(InvalidIPv4Address) <==> kind == "ipv4" && address != [] && names != [] && !IsIPv4(address)
    ensures r == Err(InvalidIPv6Address) <==> kind == "ipv6" && address != [] && names != [] && !IsIPv6(address)
    ensures r.Ok? ==> Valid(r.value) && KindName(r.value.Kind()) == kind
    ensures r.Ok? && r.value.IsAddress() ==> r.value.address == address && r.value.names == names
    ensures r.Ok? && r.value.Comment? ==> r.value.text == comment
  {
    match ParseKind(kind)
    case None => Err(InvalidKind)
    case Some(BlankKind) => Ok(Blank)
    case Some(CommentKind) =>
      if comment == [] then Err(MissingComment) else Ok(Comment(comment))
    case Some(IPv4Kind) =>
      if address == [] || names == [] then Err(MissingAddressOrNames)
      else if !IsIPv4(address) then Err(InvalidIPv4Address)
      else Ok(IPv4(address, names))
    case Some(IPv6Kind) =>
      if address == [] || names == [] then Err(MissingAddressOrNames)
      else if !IsIPv6(address) then Err(InvalidIPv6Address)
      else Ok(IPv6(address, names))
  }

  function AddressOf(e: HostsEntry): string {
    if e.IsAddress() then e.address else []
  }

  function NamesOf(e: HostsEntry): seq<string> {
    if e.IsAddress() then e.names else []
  }

  function TextOf(e: HostsEntry): string {
    if e.Comment? then e.text else []
  }

  /** Every valid entry is what the constructor builds from its own kind and fields. */
  lemma NewEntryRebuilds(e: HostsEntry)
    requires Valid(e)
    ensures NewEntry(KindName(e.Kind()), AddressOf(e), NamesOf(e), TextOf(e)) == Ok(e)
  {
    assert ParseKind(KindName(e.Kind())) == Some(e.Kind());
  }

  /** The first whitespace-separated word of a line, empty for a blank line. */
  function FirstWord(line: string): (w: string)
    ensures w == [] <==> AllSpace(line)
    ensures NoSpace(w)
  {
    var words := Split(line);
    if words == [] then [] else words[0]
  }

  /**
   `get_entry_type`: a line is blank when it is all whitespace, a comment when
   its first visible character is `#`, and otherwise an address record of the
   family its first word belongs to; any other line has no kind.
   */
  function EntryType(line: string): (r: Option<EntryKind>)
    ensures r == Some(BlankKind) <==> AllSpace(line)
    ensures r == Some(CommentKind) <==> FirstWord(line) != [] && FirstWord(line)[0] == '#'
    ensures r == Some(IPv4Kind) <==> IsIPv4(FirstWord(line))
    ensures r == Some(IPv6Kind) <==> IsIPv6(FirstWord(line))
  {
    hide IsIPv4, IsIPv6;
    var w := FirstWord(line);
    if w == [] then Some(BlankKind)
    else if w[0] == '#' then CommentIsNoAddress(w); Some(CommentKind)
    else if IsIPv4(w) then FamiliesDisjoint(w); Some(IPv4Kind)
    else if IsIPv6(w) then Some(IPv6Kind)
    else None
  }

  /** A word starting with `#` is no address, so the comment test may come first. */
  lemma CommentIsNoAddress(w: string)
    requires w != [] && w[0] == '#'
    ensures !IsIPv4(w) && !IsIPv6(w)
  {
    if IsIPv4(w) { IPv4Shape(w); }
    if IsIPv6(w) { IPv6Shape(w); }
  }

  /**
   Reads one line of a hosts file. An address record's first word is its
   address and the remaining words its names; a line without a kind, or an
   address with no names, is reported as `None` (an invalid line).
   */
  function ParseLine(line: string): (r: Option<HostsEntry>)
    ensures r.Some? ==> Valid(r.value) && EntryType(line) == Some(r.value.Kind())
  {
    hide IsIPv4, IsIPv6;
    var kind := EntryType(line);
    var words := Split(line);
    match kind
    case None => None
    case Some(BlankKind) => Some(Blank)
    case Some(CommentKind) => Some(Comment(Strip(line)))
    case Some(IPv4Kind) => if |words| < 2 then None else Some(IPv4(words[0], words[1..]))
    case Some(IPv6Kind) => if |words| < 2 then None else Some(IPv6(words[0], words[1..]))
  }

  /** The lines that fail to read: those without a kind, and address lines with no name after the address. */
  lemma ParseLineFails(line: string)
    ensures ParseLine(line).None? <==>
      EntryType(line).None? || ((EntryType(line) == Some(IPv4Kind) || EntryType(line) == Some(IPv6Kind)) && |Split(line)| < 2)
  {
    hide IsIPv4, IsIPv6, EntryType, Strip;
  }

  /** A line that reads is taken apart into its words: the address first, then the names in order. */
  lemma ParseLineWords(line: string)
    requires ParseLine(line).Some?
    ensures var e := ParseLine(line).value;
      && (e.IsAddress() ==> [e.address] + e.names == Split(line))
      && (e.Comment? ==> e.text == Strip(line))
  {
    hide IsIPv4, IsIPv6, EntryType, Strip;
    var e := ParseLine(line).value;
    if e.IsAddress() {
      var words := Split(line);
      assert [words[0]] + words[1..] == words;
    }
  }

  /** The names of a well-formed address record: at least one, each a non-empty run of non-space characters. */
  predicate NamesOk(ns: seq<string>) {
    ns != [] && forall i :: 0 <= i < |ns| ==> ns[i] != [] && NoSpace(ns[i])
  }

  /**
   An entry that survives being written and read back: a comment is a single
   stripped line starting with `#`, and names are words.
   */
  predicate WellFormed(e: HostsEntry) {
    match e
    case Blank => true
    case Comment(t) => t != [] && t[0] == '#' && !IsSpace(t[|t| - 1]) && NoLineBreak(t)
    case IPv4(a, ns) => IsIPv4(a) && NamesOk(ns)
    case IPv6(a, ns) => IsIPv6(a) && NamesOk(ns)
  }

  /**
   The line `write` emits for an entry: an address record is its address, a
   tab and its names separated by spaces; a comment is its text, given a
   leading `# ` when the text does not start with `#`; a blank is the empty line.
   */
  function Render(e: HostsEntry): (r: string)
    ensures r == [] <==> e.Blank?
    ensures e.Comment? ==> r[0] == '#'
    ensures e.IsAddress() ==> |r| > |e.address| && r[..|e.address|] == e.address && r[|e.address|] == '\t'
  {
    match e
    case Blank => []
    case Comment(t) => if t != [] && t[0] == '#' then t else "# " + t
    case IPv4(a, ns) => a + "\t" + JoinWith(" ", ns)
    case IPv6(a, ns) => a + "\t" + JoinWith(" ", ns)
  }

  /** A well-formed entry renders as a single line, since addresses and names hold no whitespace. */
  lemma RenderIsOneLine(e: HostsEntry)
    requires WellFormed(e)
    ensures NoLineBreak(Render(e))
  {
    hide IsIPv4, IsIPv6;
    if e.IsAddress() {
      var a, ns := e.address, e.names;
      if e.IPv4? { IPv4Shape(a); } else { IPv6Shape(a); }
      var r := Render(e);
      JoinWithChars(" ", ns, c => !IsLineBreak(c));
      forall i | 0 <= i < |r|
        ensures !IsLineBreak(r[i])
      {
        if i < |a| {
          assert r[i] == a[i];
        } else if i > |a| {
          assert r[i] == JoinWith(" ", ns)[i - |a| - 1];
        }
      }
    }
  }

  /**
   An address followed by whitespace-separated names reads back as the record
   of the address's family, whatever whitespace characters separate the words.
   */
  lemma ParseAddressLine(a: string, c: char, d: char, ns: seq<string>)
    requires IsIPv4(a) || IsIPv6(a)
    requires IsSpace(c) && IsSpace(d) && NamesOk(ns)
    ensures ParseLine(a + [c] + JoinWith([d], ns)) == Some(if IsIPv4(a) then IPv4(a, ns) else IPv6(a, ns))
  {
    hide IsIPv4, IsIPv6;
    var rest := JoinWith([d], ns);
    var line := a + [c] + rest;
    if IsIPv4(a) { IPv4Shape(a); } else { IPv6Shape(a); }
    SplitJoin(d, ns);
    SplitCons(a, c, rest);
    assert Split(line) == [a] + ns;
    JoinWithLast([d], ns);
    assert line[|line| - 1] == rest[|rest| - 1];
    assert !IsSpace(line[0]) && line[0] != '#';
    StripNoop(line);
    FamiliesDisjoint(a);
  }

  /** Writing a well-formed entry and reading the line back gives the entry again. */
  lemma ParseRender(e: HostsEntry)
    requires WellFormed(e)
    ensures ParseLine(Render(e)) == Some(e)
    ensures EntryType(Render(e)) == Some(e.Kind())
  {
    hide IsIPv4, IsIPv6;
    match e
    case Blank =>
    case Comment(t) =>
      StripNoop(t);
      SplitStart(t);
      assert LeadingSpace(t) == 0;
      CommentIsNoAddress(FirstWord(t));
    case IPv4(a, ns) =>
      ParseAddressLine(a, '\t', ' ', ns);
    case IPv6(a, ns) =>
      ParseAddressLine(a, '\t', ' ', ns);
  }

  /**
   Every comment is written as a line that reads back as a comment, including
   one built by the constructor from text without a leading `#`.
   */
  lemma CommentRenderReads(t: string)
    ensures var line := Render(Comment(t));
      && EntryType(line) == Some(CommentKind)
      && ParseLine(line) == Some(Comment(Strip(line)))
  {
    hide IsIPv4, IsIPv6;
    var line := Render(Comment(t));
    assert !IsSpace(line[0]);
    SplitStart(line);
    CommentIsNoAddress(FirstWord(line));
  }

  /** Whatever a single line reads as is well-formed, so it can be written out and read again unchanged. */
  lemma ParseLineWellFormed(line: string)
    ensures NoLineBreak(line) && ParseLine(line).Some? ==> WellFormed(ParseLine(line).value)
  {
    hide IsIPv4, IsIPv6;
    var r := ParseLine(line);
    if NoLineBreak(line) && r.Some? {
      match r.value
      case Blank =>
      case Comment(t) =>
        StripKeepsNoLineBreak(line);
        StripStart(line);
        SplitStart(line);
      case IPv4(a, ns) =>
        assert ns == Split(line)[1..];
      case IPv6(a, ns) =>
        assert ns == Split(line)[1..];
    }
  }
}
