# python-hosts: entry model and merge engine, in Dafny

This project models the part of python-hosts that reads, merges and writes a
hosts file. A hosts file maps addresses to host names, one line each.

- `HostsEntry` is one line of the file. It is a blank, a comment, an IPv4
  record or an IPv6 record.
- The checked constructor rejects a bad kind, a comment without text, a record
  without an address or names, and a malformed address.
- The classifier `get_entry_type` says which kind a line is, or that it has
  none.
- `Hosts` is the ordered list of entries. It offers `exists`, `add` with and
  without `force`, `remove_matching`, `write` with its counters, loading
  from text, and import of a file's lines.

The repository's implementation is not part of this model. Its test suite,
tests/test_hosts.py, is, and the behaviour is rebuilt from what those tests
assert. Every test that does not touch the disk, the network or the platform
is restated as a lemma over the model.

## Files

- `results.dfy` holds `Option` and `Result`.
- `text.dfy` holds Python's `isspace`, `strip`, `split()` and `splitlines()`, the joins, and their round trips.
- `address.dfy` holds the address syntax.
  - IPv4 is four `dec-octet`s, as in section 3.2.2 of RFC 3986.
  - IPv6 is the text form of section 2.2 of RFC 4291, with at most one `::`.
  - An IPv6 address may carry a `%zone` suffix, as in section 11 of RFC 4007.
- `entry.dfy` holds the entry datatype, the constructor, the classifier, line reading and rendering.
- `hosts.dfy` holds `exists`, `add`, `remove_matching`, `write`, load and import.
- `scenarios.dfy`, `import_scenarios.dfy` and `entry_scenarios.dfy` restate the tests.

## Model

| member | source | states |
|---|---|---|
| Entry.Valid | tests/test_hosts.py:257-305 | A valid IPv4 record's address is 7 to 15 characters long and is no IPv6 literal. A valid IPv6 record's address is no IPv4 literal. |
| Entry.NewEntry | tests/test_hosts.py:257-305 | Each error kind is returned exactly when its condition holds, checked in order: unknown kind, comment without text, record without address or names, malformed IPv4 or IPv6 address. A success is valid, of the requested kind, and keeps the given address, names and text. |
| Entry.NewEntryRebuilds | tests/test_hosts.py:257-305 | Every valid entry is what the constructor builds from its own kind name and fields, so the constructor's checks are exactly validity. |
| Entry.ParseKind | tests/test_hosts.py:257-266 | A kind string is recognised exactly when it is the name of a kind; `IPv4`, `IP` and the empty string are not. |
| Entry.FirstWord | tests/test_hosts.py:321-326 | The first word is empty exactly when the line is all whitespace, and it holds no whitespace. |
| Entry.EntryType | tests/test_hosts.py:321-326 | Blank exactly when the line is all whitespace. Comment exactly when the first word starts with `#`. IPv4 or IPv6 exactly when the first word is a literal of that family. |
| Entry.CommentIsNoAddress | tests/test_hosts.py:321-326 | A word starting with `#` is no address, so the order of the classifier's tests does not matter. |
| Entry.ParseLine | tests/test_hosts.py:313-326 | A line that reads gives a valid entry of the kind the classifier gives it. |
| Entry.ParseLineFails | tests/test_hosts.py:148-171 | A line fails to read exactly when it has no kind, or is an address line with no name after the address. |
| Entry.ParseLineWords | tests/test_hosts.py:239-254 | A record read from a line is that line's words: the address first, then the names in order. A comment is the stripped line. |
| Entry.ParseAddressLine | tests/test_hosts.py:239-254 | An address, one whitespace character and names joined by one whitespace character read back as the record of the address's family. |
| Entry.Render | tests/test_hosts.py:50-76 | Only a blank is written as an empty line. A comment's line always starts with `#`. A record's line is its address followed by a tab. |
| Entry.CommentRenderReads | tests/test_hosts.py:50-76 | The line written for any comment, including one whose text does not start with `#`, reads back as a comment: the stripped line. |
| Entry.RenderIsOneLine | tests/test_hosts.py:50-76 | A well-formed entry is written as a single line. |
| Entry.ParseRender | tests/test_hosts.py:50-76 | Reading the line written for a well-formed entry gives the entry back, with the same kind. |
| Entry.ParseLineWellFormed | tests/test_hosts.py:313-326 | Anything read from a single line is well-formed, so it can be written and read again. |
| Address.DecimalText | tests/test_hosts.py:297-305 | The canonical decimal text of a number spells it, has no leading zero, and has one digit per decimal place. |
| Address.DecimalTextCanonical | tests/test_hosts.py:297-305 | A digit string without leading zeros is the canonical text of its value, so text and value correspond one to one. |
| Address.DottedQuadIsIPv4 | tests/test_hosts.py:297-305 | Four values up to 255 written as canonical octets joined by dots are an IPv4 literal, and its parts spell the four values. |
| Address.IPv4IsDottedQuad | tests/test_hosts.py:297-305 | Every IPv4 literal is the dotted quad of its four part values. |
| Address.IsIPv4 | tests/test_hosts.py:297-305 | An IPv4 literal is 7 to 15 characters long: four octets of one to three digits and three dots. `IPv4IsDottedQuad` gives its full shape. |
| Address.IsIPv6 | tests/test_hosts.py:321-326 | An IPv6 literal has at least two characters: even the shortest, `::`, has two. `IPv6AddressForms` gives its full shape. |
| Address.IPv6AddressForms | tests/test_hosts.py:321-326 | The converse of `IPv6Full` and `IPv6Compressed`: every IPv6 address without a zone is eight groups joined by colons, or groups around a single `::` spelling at most seven pieces. |
| Address.TwoCompressionsRejected | tests/test_hosts.py:297-305 | Text with two `::` and no zone is never an IPv6 literal. |
| Address.IPv6Full | tests/test_hosts.py:321-326 | Eight 1-4 digit hex groups joined by colons are an IPv6 literal. |
| Address.IPv6Compressed | tests/test_hosts.py:9-36 | At most seven hex groups around one `::` are an IPv6 literal; either side may be empty. |
| Address.WithZone | tests/test_hosts.py:63-76 | An IPv6 literal without a zone, followed by `%` and a zone identifier, is still an IPv6 literal. |
| Address.IPv4Shape | tests/test_hosts.py:321-326 | An IPv4 literal is non-empty, starts with a digit, and holds no colon and no whitespace. |
| Address.IPv6Shape | tests/test_hosts.py:321-326 | An IPv6 literal holds a colon, starts with an address character, and holds no whitespace. |
| Address.FamiliesDisjoint | tests/test_hosts.py:321-326 | No text is both an IPv4 and an IPv6 literal. |
| Text.Strip | tests/test_hosts.py:321-326 | `strip()` is empty exactly for an all-whitespace line. Otherwise it is the line between its leading and its trailing run of whitespace, and it starts and ends with a non-space character. |
| Text.SplitLines | tests/test_hosts.py:313-319 | `splitlines()` gives no line holding a line break, and no lines exactly for empty text. |
| Text.SplitLinesOfLines | tests/test_hosts.py:313-319 | Newline-terminated lines split back into the same lines: a final newline adds no empty line, and `"\n"` is one empty line. |
| Text.SplitLinesOfLine | tests/test_hosts.py:239-254 | A single line with no final newline splits into itself. |
| Text.SplitJoin | tests/test_hosts.py:321-326 | Words joined by a whitespace character split back into the same words. |
| Hosts.Exists | tests/test_hosts.py:9-36 | `address_matches` is 1 exactly when a record of the candidate's family has its address. `name_matches` is 1 exactly when one shares a name with it. |
| Hosts.Covers | tests/test_hosts.py:99-114 | A record covering a candidate is an address record of the candidate's family. If the candidate has a name, the covering record holds its first name, so the two share a name. Every address record covers itself. |
| Hosts.IsDuplicate | tests/test_hosts.py:99-114 | A duplicate with a name makes `exists` report both an address match and a name match. An address record already in the list is a duplicate. |
| Hosts.Survivors | tests/test_hosts.py:129-145 | The entries a forced add keeps are exactly those sharing no name with the candidate. There are no more of them than entries, and with no conflict the list is kept whole. |
| Hosts.AddOne | tests/test_hosts.py:9-48 | One candidate against the current list. The outcome is `Invalid` exactly for an unreadable or invalid candidate. It is `Duplicate` exactly for a valid record that one same-family record covers, holding its address and all its names. Only the candidate can be new in the list, and comments and blanks always stay. Without `force` an added record is appended. With `force` it comes after the entries sharing no name with it, kept in their order. |
| Hosts.Add | tests/test_hosts.py:99-114 | Every candidate is counted exactly once. The invalid count is the number of unreadable or invalid candidates. Nothing passes through when all candidates are records. |
| Hosts.AddDrawsFromInputs | tests/test_hosts.py:9-21 | Every entry after `add` was already in the list or is one of the candidates. |
| Hosts.AddKeepsNonAddresses | tests/test_hosts.py:50-76 | Every comment and blank survives `add`. |
| Hosts.UnforcedAddExtends | tests/test_hosts.py:23-36 | Without `force` the old list is a prefix of the new one. The new one is longer by the records added plus the comments and blanks passed through. |
| Hosts.SelfMatches | tests/test_hosts.py:198-207 | A valid record matches itself by address and by name. |
| Hosts.ForcedAddMatchesBoth | tests/test_hosts.py:9-21 | After a forced add of a valid record, both `exists` signals are 1. |
| Hosts.ForcedConflictReplaces | tests/test_hosts.py:129-145 | A forced record that shares a name but is no duplicate is added after the entries sharing no name with it. |
| Hosts.SplitBindingReplaced | tests/test_hosts.py:38-48 | When one record has the candidate's address and another has its name, `exists` reports both signals, yet the add is no duplicate. A forced add binds the address to the name and drops only the other record. |
| Hosts.ForcedAddUniqueBinding | tests/test_hosts.py:129-145 | After a forced add that is not a duplicate, the candidate is the only entry sharing any of its names. |
| Hosts.UnforcedConflictUnchanged | tests/test_hosts.py:23-36 | Without `force`, a candidate sharing a name leaves the list unchanged. The outcome is duplicate when one record covers it, and skipped otherwise. |
| Hosts.DuplicateUnchanged | tests/test_hosts.py:99-114 | A candidate that one record covers is a duplicate, with or without `force`. It leaves the list and every `write` counter unchanged, and both signals are 1. |
| Hosts.DuplicateMatchesBoth | tests/test_hosts.py:99-114 | A covered candidate has both `exists` signals at 1. |
| Hosts.IdenticalIsDuplicate | tests/test_hosts.py:99-114 | A valid record already in the list is a duplicate and changes nothing, with or without `force`. |
| Hosts.CleanAddAppends | tests/test_hosts.py:198-207 | A candidate sharing no name is appended, with or without `force`, and both signals are then 1. |
| Hosts.AddKeepsCommentsAndBlanks | tests/test_hosts.py:50-61 | Adding a record never changes the number of comments or blanks written. |
| Hosts.KeepCountsNonAddresses | tests/test_hosts.py:50-76 | Filtering that keeps every comment and blank keeps their counts. |
| Hosts.CountKindsSum | tests/test_hosts.py:148-171 | The four per-kind counts add up to the number of entries. |
| Hosts.CountKindAppend | tests/test_hosts.py:63-76 | The count of a kind in two lists joined is the sum of the counts. |
| Hosts.Write | tests/test_hosts.py:50-76 | `total_written` is the sum of the four per-kind counters and the number of entries. |
| Hosts.WriteAppend | tests/test_hosts.py:63-76 | One more entry adds one to the counter of its kind and to the total, and leaves the other counters alone. |
| Hosts.LoadLines | tests/test_hosts.py:148-171 | Every line is either read or counted invalid. The entries read from single lines are well-formed. |
| Hosts.Load | tests/test_hosts.py:313-319 | Each of the text's `splitlines()` lines is either read or counted invalid, and every entry read is well-formed. |
| Hosts.LoadLinesSnoc | tests/test_hosts.py:313-319 | One more line appends its entry, or adds one to the invalid count. |
| Hosts.LoadLineRead | tests/test_hosts.py:313-319 | A line that reads as `e` appends `e` to what the earlier lines loaded. |
| Hosts.LoadRendered | tests/test_hosts.py:50-76 | The written lines of well-formed entries read back as those entries, with nothing invalid. |
| Hosts.LoadWrite | tests/test_hosts.py:50-76 | The text `write` produces for well-formed entries loads as the same entries. |
| Hosts.WriteLoadIdempotent | tests/test_hosts.py:50-76 | Load, write, load gives the entries of the first load, and a second write repeats the first. |
| Hosts.RemoveMatching | tests/test_hosts.py:239-254 | Afterwards nothing matches the candidate. Exactly the entries of its family that share its address or a name are removed, and the removed count is positive exactly when something matched. |
| Hosts.RemoveMatchingAppend | tests/test_hosts.py:239-254 | Removal works entry by entry, so the entries kept stay in their original order. |
| Hosts.KeepAppend | tests/test_hosts.py:239-254 | Filtering two lists joined gives the two filtered lists joined, in order. |
| Hosts.SurvivorsAppend | tests/test_hosts.py:129-145 | The entries a forced add keeps stay in their original order. |
| Hosts.ImportCandidates | tests/test_hosts.py:148-171 | There is at most one candidate per line, and each is either an unreadable line or a valid address record. |
| Hosts.ImportCandidatesSnoc | tests/test_hosts.py:148-171 | One more line is skipped when it is a blank or a comment. Otherwise its reading is handed to `add` after those of the earlier lines, so the candidates follow file order. |
| Hosts.CandidatesFromLines | tests/test_hosts.py:148-171 | Every candidate is the reading of a line that is not skipped, and every line that is not skipped gives a candidate. |
| Hosts.InvalidCandidatesAreUnreadable | tests/test_hosts.py:148-171 | The invalid candidates are as many as the lines that are not skipped and do not read. |
| Hosts.SkippedLines | tests/test_hosts.py:148-171 | Skipped lines plus candidates are all the lines. |
| Hosts.ImportLines | tests/test_hosts.py:148-171 | An import always succeeds on lines it has. The new list and the `add` counters are those of adding the lines' candidates to the old list, and the skipped count is that of the blanks and comments. Skipped lines and counted candidates are all the lines. The invalid count is the number of lines that are not skipped and do not read, and nothing passes through. The write counters are those of the new list, and comments and blanks survive. |
| Hosts.ImportFile | tests/test_hosts.py:350-358 | An import fails exactly when the file cannot be read. Otherwise it imports the text's `splitlines()` lines. |
| Scenarios.ForcedIPv6AddressChange | tests/test_hosts.py:9-21 | The file loads as the `fe80::200:f8ff:fe21:67cf` record and the constructor accepts the candidate. After the forced add, both signals are 1. |
| Scenarios.UnforcedIPv6AddressChange | tests/test_hosts.py:23-36 | The file loads as its record. Without `force` the conflict is skipped: the list is unchanged, one candidate is skipped, and only the names match. |
| Scenarios.ForcedSameAddressReplaces | tests/test_hosts.py:38-48 | The file loads as the example record and the constructor accepts the candidate. The candidate adds `something.com`, so it is no duplicate. The forced add replaces the record with it, and both signals are 1. |
| Scenarios.CommentsAndBlanksPreserved | tests/test_hosts.py:50-61 | The file loads as a record, a comment and a blank. The new record is appended, and one comment and one blank are written. |
| Scenarios.IPv6RecordsPreserved | tests/test_hosts.py:63-76 | The file with a zoned IPv6 record loads as four entries. After the add, one IPv6 record, two IPv4 records, one comment and one blank are written. |
| ImportScenarios.ImportOfText | tests/test_hosts.py:148-171 | Importing readable text adds the candidates of its lines to the list, reports the skipped lines and the `add` counters, and writes the new list. |
| ImportScenarios.ImportReportsDuplicate | tests/test_hosts.py:99-114 | The import adds `10.10.10.10` and reports the repeated record as one duplicate. Two IPv4 records are written. |
| Scenarios.UnforcedSameAddressSkipped | tests/test_hosts.py:117-127 | The file loads as the example record. Without `force` the same address with a shared name and a new name is a skipped conflict. The list is unchanged and the address matches. |
| Scenarios.ForcedIPv4AddressChange | tests/test_hosts.py:129-145 | The file loads as the example record. The forced record at `82.132.132.133` replaces the one holding its names and becomes the whole list; both signals are 1. |
| ImportScenarios.ImportCountsInvalid | tests/test_hosts.py:148-171 | The bare word is the one invalid line and the blank line is skipped, not counted invalid. The import does not fail, and two IPv4 records make up the total of two. |
| Scenarios.AddSingleIPv4Host | tests/test_hosts.py:198-207 | The file loads as the localhost record. `123.123.123.123` is appended and its address matches. |
| Scenarios.ForcedNameChange | tests/test_hosts.py:210-223 | The file loads as the example record. A forced add of the same address for `example2.com` and `example` is no duplicate, replaces the record, and leaves both signals at 1. |
| Scenarios.AddSingleIPv6Host | tests/test_hosts.py:226-237 | The file loads as the localhost record. `::1` is appended, since records of different families never match, and its address matches. |
| EntryScenarios.RemoveReadRecord | tests/test_hosts.py:239-254 | A file with one line and no final newline loads as its record, which matches the candidate both ways. After `remove_matching` the list is empty and nothing matches. |
| EntryScenarios.InvalidKinds | tests/test_hosts.py:257-266 | No kind, `IPv4` and `IP` are rejected as invalid kinds. |
| EntryScenarios.CommentsNeedText | tests/test_hosts.py:269-277 | A comment without text is rejected, with or without an address. |
| EntryScenarios.RecordsNeedAddressAndNames | tests/test_hosts.py:280-294 | IPv4 and IPv6 records missing the address, the names or both are rejected. |
| EntryScenarios.InvalidAddresses | tests/test_hosts.py:297-305 | `255.255.255.256` is rejected as an invalid IPv4 address, and `2001::1::3F` as an invalid IPv6 address. |
| EntryScenarios.LineBreakIsBlank | tests/test_hosts.py:313-319 | A file holding only a newline loads as one blank entry. |
| EntryScenarios.ClassifierExamples | tests/test_hosts.py:321-326 | The five lines of the classifier test get comment, blank, IPv4, IPv6, and no kind. |
| ImportScenarios.UnreadableImportFails | tests/test_hosts.py:350-358 | Importing a file that cannot be read fails. |
| Scenarios.ZonedIsIPv6 | tests/test_hosts.py:63-76 | `fe80::1%lo0` is an IPv6 literal and not an IPv4 one. |

## Decisions

- **Duplicate.** A candidate is a duplicate when one record of its family covers it: that record has the candidate's address and every one of its names.
  - Both `exists` signals being 1 is not enough, since they may come from different records.
  - Under that weaker reading, the forced adds of tests/test_hosts.py:38-48 and 210-223 would change nothing. Those tests are named and documented as replacements.
  - The import test at tests/test_hosts.py:99-114 repeats a record exactly, and that is a duplicate under either reading.
- **Blank lines on import.** Blank lines and comments in an imported file are skipped and counted as skipped, not invalid. The test at tests/test_hosts.py:148-171 expects an invalid count of 1 for a file holding one bare word and one blank line. A rule that counted every non-record line as invalid would give 2.
- **Extra counters.** `add` also counts skipped name conflicts and passed-through comments and blanks, so its counters always add up to the number of candidates.
- **Records need names.** An address line with no name after the address does not read, and is counted invalid. The constructor also rejects a record without names.
- **Comments.** A comment read from a file keeps its whole stripped line, starting with `#`, and is written back as it is. A comment built by the constructor from text that does not start with `#` is written with `# ` in front, so it still reads back as a comment.

## Left out

- Reading and writing the hosts file on disk is left out, and so is the `IOError` for a missing path (tests/test_hosts.py:308-310). Load takes the file's text and `write` returns it.
- The unreadable file in `import_file` is the input `None` (tests/test_hosts.py:350-358). The model does no I/O.
- `import_url` is left out (tests/test_hosts.py:79-96, 174-195). It fetches over the network, and its expected counts depend on remote content.
- `determine_hosts_path` is left out (tests/test_hosts.py:329-347). It chooses a default path by operating system and has no logic to verify.
- Hosts.Write: the exact whitespace of the written text is not promised by the tests. A record is written as its address, a tab, and its names separated by single spaces. Only the counters and the load-after-write round trip are stated.
- Entry.ParseLine: inline `#` comments after the names of a record are read as further names. The tests never write one.
- Hosts.LoadWrite: the round trip is stated for well-formed entries only. The constructor also accepts names holding whitespace, and comment text with surrounding whitespace or line breaks. Such entries are written in a form that reads back differently.
