# vmfusion lease resolver and network settings, in Dafny

This project models two pieces of the `vmfusion` package:

- `DHCPDLeases` (vmfusion/dhcpd_leases.py) reads an ISC dhcpd lease file and builds a table from MAC address to IP address. Where a MAC has several leases, it keeps the lease with the latest `starts` time. The model covers:
  - the pyparsing grammar of `__parse`: the literals, the seven lease statements, `leaseDef` and the `scanString` scan;
  - the date conversion that the `to_datetime` parse action performs;
  - the resolution loop of `load`, and what `load` does to the table when it succeeds and when it fails;
  - the container accessors `__len__`, `__contains__` and `__getitem__`.
- `VNetCLI._parse_networking` (vmfusion/vnet_cli.py) reads VMware Fusion's `networking` file. The model is a pure function from the network name and the file content to five settings, or to an error.

## Modules

| file | module | what it holds |
|---|---|---|
| results.dfy | `Results` | `Option` and `Result` |
| text.dfy | `Text` | ASCII character classes, Python's `str.split`/`join` with their round trips, decimal digit strings, `lower`, substring search |
| literals.dfy | `Literals` | the IP, MAC, date, time and weekday literals of the grammar |
| timestamp.dfy | `Timestamp` | `datetime` values, calendar validity, their order, and the `strptime` conversion |
| lexer.dfy | `Lexer` | the token stream pyparsing sees between its whitespace skips |
| grammar.dfy | `Grammar` | statements, lease records, `leaseDef`, and the scan |
| grammar_properties.dfy | `GrammarProperties` | round trip from lease blocks to text to records, the last-statement-wins rule, and the failure modes |
| grammar_converse.dfy | `GrammarConverse` | the parser read backwards: what it matches is the written form of what it returns |
| resolver.dfy | `Resolver` | the fold of `load` from records to a MAC table, and which record survives |
| leases.dfy | `Leases` | the `DHCPDLeases` state, `load`, and the accessors |
| networking.dfy | `Networking` | `_parse_networking` |

Points where the behaviour of the code is easy to misread:

- **A record without `starts` can be kept.** The `mac not in all_leases` test at vmfusion/dhcpd_leases.py:57 short-circuits, so the first record for a MAC is stored even when it has no `starts`. From then on every later record for that MAC raises `AttributeError` at `.starts` and is skipped (line 60), so the first record stays (`Resolver.FirstWithoutStartsPinned`). The same `AttributeError` skips a later record without `starts` when the stored one has it (`Resolver.Step`, `Resolver.LatestWins`).
- **A malformed block is skipped.** `scanString` (line 46) passes over any block that fails to match and resumes at the next position. Any defect that stops the statements before the closing brace is enough (`GrammarProperties.StoppedBlockSkips`). That covers an unknown statement (`GrammarProperties.UnknownStatementSkipsBlock`), a bad literal such as `hardware ethernet 00:11;` (`GrammarProperties.BadHardwareSkipsBlock`), and a missing brace. Only a date that `strptime` rejects escapes `load`, as the `ValueError` raised in the parse action at line 32 (`GrammarProperties.InvalidDateAborts`). In the other direction, a block that matches is exactly the written form of a well-formed block (`GrammarConverse.BlockWritten`). So every record the scan returns is written in the file (`GrammarConverse.ScanRecordsWritten`).
- **MACs are not normalised.** They are stored exactly as written, so the same address in upper and lower case gives two keys.
- **Weekday and date are not cross-checked.** The weekday digit is never compared with the date (`GrammarProperties.ParseStampOf`).

## Model

| member | source | states |
|---|---|---|
| Literals.IpLiteralShape | vmfusion/dhcpd_leases.py:23 | An IP literal is exactly its four pieces joined by `.`. |
| Literals.IpLiteralOfRuns | vmfusion/dhcpd_leases.py:23 | Any four non-empty digit runs joined by `.` form an IP literal, and splitting it gives the runs back. |
| Literals.IpLiteralUnchecked | vmfusion/dhcpd_leases.py:23 | There is no range check on the octets: `999.999.999.999` is an IP literal. |
| Literals.MacLiteralIff | vmfusion/dhcpd_leases.py:24-25 | A string is a MAC literal exactly when it has 17 characters, with `:` at every third position and a hex digit everywhere else. |
| Literals.MacLiteralOfPairs | vmfusion/dhcpd_leases.py:24-25 | Six two-digit hex groups joined by `:` form a MAC literal, and splitting it gives the groups back. |
| Literals.DateLiteralShape | vmfusion/dhcpd_leases.py:27 | A date literal is exactly its three groups joined by `/`. |
| Literals.DateLiteralOfGroups | vmfusion/dhcpd_leases.py:27 | A four- or two-digit year followed by two two-digit groups, joined by `/`, is a date literal that splits back into its groups. |
| Literals.TimeLiteralShape | vmfusion/dhcpd_leases.py:28 | A time literal is exactly its three groups joined by `:`. |
| Literals.TimeLiteralOfGroups | vmfusion/dhcpd_leases.py:28 | Three two-digit groups joined by `:` form a time literal that splits back into its groups. |
| Timestamp.DaysInMonth | vmfusion/dhcpd_leases.py:32 | A month has 28 to 31 days, and has 29 exactly when it is February of a Gregorian leap year. |
| Timestamp.ToDateTime | vmfusion/dhcpd_leases.py:31-32 | On success, the conversion gives a valid calendar date-time whose `%Y/%m/%d` and `%H:%M:%S` renderings are the input texts. On failure, the error names the date and time texts. |
| Timestamp.ToDateTimeOfFormat | vmfusion/dhcpd_leases.py:32 | Every valid date-time, written as `%Y/%m/%d %H:%M:%S`, converts back to itself. So the conversion accepts exactly the valid values. |
| Timestamp.TwoDigitYearRaises | vmfusion/dhcpd_leases.py:27-32 | The grammar accepts a two-digit year, but `%Y` needs four digits, so such a date always raises. |
| Timestamp.BadMonthRaises | vmfusion/dhcpd_leases.py:32 | A month above 12 matches the grammar but always raises. |
| Timestamp.OutOfRangeDateRaises | vmfusion/dhcpd_leases.py:32 | `2024/13/40 00:00:00` is accepted by the grammar and then rejected by the conversion. |
| Timestamp.BeforeIrreflexive | vmfusion/dhcpd_leases.py:57 | The `>` comparison of `starts` is strict: no date-time is later than itself. |
| Timestamp.BeforeTransitive | vmfusion/dhcpd_leases.py:57 | The comparison is transitive. |
| Timestamp.BeforeTotal | vmfusion/dhcpd_leases.py:57 | Any two date-times are equal or one of them is earlier. |
| Lexer.Tokenize | vmfusion/dhcpd_leases.py:22-43 | Every token read from text is well-formed: words hold no blank, brace, semicolon or quote, and quoted strings hold no quote or line break. |
| Lexer.TokenizeRender | vmfusion/dhcpd_leases.py:22-43 | Well-formed tokens written one per line read back as the same tokens. |
| Grammar.ApplyWellFormed | vmfusion/dhcpd_leases.py:43 | Recording a well-formed statement keeps the record well-formed and keeps its address. |
| Grammar.ParseStamp | vmfusion/dhcpd_leases.py:29-34 | A matched `dateRef` has a weekday from 0 to 6 and a valid date-time, and consumes input. |
| Grammar.ParseStatement | vmfusion/dhcpd_leases.py:35-42 | A matched statement begins with its own keyword, is well-formed and consumes input. A token that is not one of the seven keywords matches nothing. |
| Grammar.ParseStatements | vmfusion/dhcpd_leases.py:43 | `ZeroOrMore` never fails to match. It keeps the address, gives a well-formed record, and stops exactly where no further statement matches. |
| Grammar.ParseLease | vmfusion/dhcpd_leases.py:43 | A matched lease block is a well-formed record and consumes input. |
| Grammar.Scan | vmfusion/dhcpd_leases.py:46 | The scan yields at most one record per token, and every record is well-formed. |
| Grammar.Records | vmfusion/dhcpd_leases.py:45-46 | Every record scanned from a text is well-formed. |
| GrammarProperties.ParseStampOf | vmfusion/dhcpd_leases.py:29-34 | Any weekday digit from 0 to 6, with any valid date-time, parses back to the same stamp. The weekday is not checked against the date. |
| GrammarProperties.ParseStatementOf | vmfusion/dhcpd_leases.py:35-42 | Each of the seven statements, written out, parses back to itself and leaves the rest of the input. |
| GrammarProperties.ParseStatementsOf | vmfusion/dhcpd_leases.py:43 | A run of statements parses to the record that applying them in order gives. |
| GrammarProperties.ParseLeaseOf | vmfusion/dhcpd_leases.py:43 | A written lease block parses back to the record it denotes. |
| GrammarProperties.ScanOf | vmfusion/dhcpd_leases.py:46 | The scan of written blocks yields their records, in order. |
| GrammarProperties.RecordsOf | vmfusion/dhcpd_leases.py:45-46 | Text written from lease blocks reads back as their records. |
| GrammarProperties.RecordsOfEmptyFile | vmfusion/dhcpd_leases.py:46 | An empty file holds no records. |
| GrammarProperties.ApplySlot | vmfusion/dhcpd_leases.py:43 | Recording a statement sets its own field and leaves every other field and the address as they were. |
| GrammarProperties.LastOccurrenceWins | vmfusion/dhcpd_leases.py:43 | For each kind of statement, a block's record holds the last statement of that kind in the block, or nothing if there is none. |
| GrammarProperties.ParseLeaseAfterHeader | vmfusion/dhcpd_leases.py:43 | After the header, a date error in the statements escapes the block. Statements that do not end at `}` make the block fail to match. |
| GrammarProperties.StoppedBlockSkips | vmfusion/dhcpd_leases.py:43-46 | A block whose statements are followed by anything but `}` fails to match, and the scan continues from the next token without raising. This includes the end of the input. |
| GrammarProperties.UnknownStatementSkipsBlock | vmfusion/dhcpd_leases.py:42-46 | A block with a statement outside the seven fails to match, and the scan continues from the next token without raising. |
| GrammarProperties.BadHardwareSkipsBlock | vmfusion/dhcpd_leases.py:39-46 | A `hardware` statement whose type is not an alphanumeric word, or whose address is not a MAC literal, makes its block fail to match. The scan continues from the next token without raising. |
| GrammarProperties.BadHardwareStops | vmfusion/dhcpd_leases.py:39 | `hardware` followed by a bad type or a bad MAC matches no statement. |
| GrammarProperties.ScanSkips | vmfusion/dhcpd_leases.py:46 | Where no lease block matches, the scan moves on by one token. |
| GrammarProperties.InvalidDateRaises | vmfusion/dhcpd_leases.py:31-38 | A dated statement whose date value is invalid raises as soon as its `dateRef` is read. |
| GrammarProperties.InvalidDateAborts | vmfusion/dhcpd_leases.py:31-46 | One invalid date value after any number of good blocks makes reading the whole file fail with that date's error. |
| GrammarConverse.StampTokensOfParse | vmfusion/dhcpd_leases.py:29 | A matched `dateRef` is the three tokens that write its weekday, date and time, followed by what is left. |
| GrammarConverse.DatedArguments | vmfusion/dhcpd_leases.py:35-38 | A matched `starts`, `ends`, `tstp` or `tsfp` statement consumed the written form of its stamp, then `;`, and nothing else. |
| GrammarConverse.EndsArguments | vmfusion/dhcpd_leases.py:36 | A matched `ends` statement consumed its stamp or `never`, then `;`, and nothing else. |
| GrammarConverse.HardwareArguments | vmfusion/dhcpd_leases.py:39 | A matched `hardware` statement consumed its type word, its MAC and `;`, and nothing else. |
| GrammarConverse.UidArguments | vmfusion/dhcpd_leases.py:40 | A matched `uid` statement consumed its quoted string and `;`, and nothing else. |
| GrammarConverse.BindingArguments | vmfusion/dhcpd_leases.py:41 | A matched `binding` statement consumed its two words and `;`, and nothing else. |
| GrammarConverse.StatementTokensOf | vmfusion/dhcpd_leases.py:35-42 | In any token stream, a matched statement is the written form of the clause it returns, followed by what is left. |
| GrammarConverse.StatementsTokensOf | vmfusion/dhcpd_leases.py:43 | In any token stream, a matched statement run is the written form of some well-formed clauses, and its record is those clauses applied in order. |
| GrammarConverse.StatementsWritten | vmfusion/dhcpd_leases.py:43 | The same, stated as the existence of such clauses. |
| GrammarConverse.LeaseHeader | vmfusion/dhcpd_leases.py:43 | A matched lease block starts with `lease`, an IP literal and `{`. |
| GrammarConverse.LeaseBody | vmfusion/dhcpd_leases.py:43 | After the header, a matched lease block holds a statement run that ends at `}`. |
| GrammarConverse.BlockWritten | vmfusion/dhcpd_leases.py:43 | In any token stream, a matched lease block is the written form of some well-formed block, and the returned record is that block's record. |
| GrammarConverse.BlockWrittenAtFront | vmfusion/dhcpd_leases.py:43 | The record of a matched lease block is the record of a block written at the front of the input. |
| GrammarConverse.ScanRecordsWritten | vmfusion/dhcpd_leases.py:46 | Every record the scan returns is the record of a well-formed block written somewhere in the input. |
| Resolver.Step | vmfusion/dhcpd_leases.py:53-61 | A record without hardware leaves the map alone. Otherwise it adds its MAC and touches no other entry. A new MAC stores the record. For a stored MAC the record is skipped when either it or the stored record lacks `starts`; when both have `starts` it replaces the stored one exactly when it starts strictly later. |
| Resolver.Project | vmfusion/dhcpd_leases.py:63-64 | The projection keeps the keys and replaces each record by its address. |
| Resolver.FoldKeys | vmfusion/dhcpd_leases.py:53-58 | After the loop, the MACs in the map are exactly the MACs of the records that have a hardware statement. |
| Resolver.FoldOrigin | vmfusion/dhcpd_leases.py:53-58 | Every stored record is one of the records read, filed under its own MAC. |
| Resolver.ResolveSound | vmfusion/dhcpd_leases.py:53-64 | The published keys are the MACs of records with hardware. Each published address is the address of a record carrying that MAC. |
| Resolver.ResolveSize | vmfusion/dhcpd_leases.py:63-64 | The table has one entry per distinct MAC. |
| Resolver.FirstWithoutStartsPinned | vmfusion/dhcpd_leases.py:57-61 | The first record for a MAC, when it lacks `starts`, stays in the map whatever follows. |
| Resolver.LatestWins | vmfusion/dhcpd_leases.py:53-58 | When the first record for a MAC has `starts`, the surviving record is, among the records for that MAC that have `starts`, one whose `starts` is strictly later than every earlier one and not earlier than any later one. So ties go to the earliest, and records without `starts` never win. |
| Resolver.Survivor | vmfusion/dhcpd_leases.py:53-61 | For every MAC that occurs: the first record for it when that record lacks `starts`, and otherwise the latest started record as above. |
| Resolver.LatestUnique | vmfusion/dhcpd_leases.py:57 | Only one position can be the winner in that sense. |
| Resolver.LatestAddressPublished | vmfusion/dhcpd_leases.py:57-64 | When the first record for a MAC has `starts`, the published address is that of the winning record. |
| Resolver.HardwareFreeIgnored | vmfusion/dhcpd_leases.py:53-61 | Dropping all records without hardware gives the same map. Such records neither change the map nor stop the loop. |
| Resolver.ResolveSeesOnlyCore | vmfusion/dhcpd_leases.py:55-64 | The table depends only on each record's address, MAC and `starts` date-time. |
| Resolver.FoldLoop | vmfusion/dhcpd_leases.py:51-61 | The first loop of `load`, written as a loop, computes the fold. |
| Resolver.ProjectLoop | vmfusion/dhcpd_leases.py:63-64 | The second loop keeps the keys and maps each MAC to its record's address. |
| Resolver.ResolveLoop | vmfusion/dhcpd_leases.py:50-64 | The two loops publish the MACs of records with hardware, each with the address of a record carrying it. |
| Leases.Initial | vmfusion/dhcpd_leases.py:19 | A new object's table is empty. |
| Leases.Load | vmfusion/dhcpd_leases.py:50-66 | `load` succeeds exactly when the file reads without a date error. On failure it keeps the old table and reports the error. On success the keys are the MACs of the records with hardware. |
| Leases.Len | vmfusion/dhcpd_leases.py:70-71 | `len` is the number of keys. |
| Leases.Contains | vmfusion/dhcpd_leases.py:79-80 | `in` holds exactly for the keys. |
| Leases.Get | vmfusion/dhcpd_leases.py:76-77 | Indexing returns the stored address for a key. For any other value it raises `KeyError` naming it. |
| Leases.LoadIdempotent | vmfusion/dhcpd_leases.py:50-66 | Loading the same text twice gives what loading it once gave. |
| Leases.LoadForgetsPrevious | vmfusion/dhcpd_leases.py:50-66 | A successful load does not depend on the table it replaces. |
| Leases.LoadedAccessors | vmfusion/dhcpd_leases.py:53-80 | After a successful load:<br>- `in` holds exactly for MACs of records with hardware;<br>- indexing gives the address of a record with that MAC;<br>- `len` counts the distinct MACs. |
| Leases.LoadOfBlocks | vmfusion/dhcpd_leases.py:45-66 | Loading text written from lease blocks publishes the resolution of those blocks' records. |
| Leases.LoadKeepsTableOnInvalidDate | vmfusion/dhcpd_leases.py:46-66 | A file with an invalid date value after any good blocks leaves the table as it was, and reports that date. |
| Leases.LoadEmptyFile | vmfusion/dhcpd_leases.py:46-66 | Loading an empty file empties the table. |
| Networking.SectionKey | vmfusion/vnet_cli.py:30-31 | The key is `VNET_` followed by the last character of the network name. |
| Networking.SectionKeyLastChar | vmfusion/vnet_cli.py:30-31 | Two names give the same key exactly when they end in the same character. |
| Networking.Convert | vmfusion/vnet_cli.py:45-49 | `yes` becomes true and `no` becomes false, and only those. Any other value is kept verbatim. |
| Networking.ShowConvert | vmfusion/vnet_cli.py:45-49 | The conversion loses nothing: writing a converted value gives back the original text. |
| Networking.ConvertShow | vmfusion/vnet_cli.py:45-49 | Every value other than the texts `yes` and `no` survives being written and converted. |
| Networking.Span | vmfusion/vnet_cli.py:32 | A greedy `\s+` or `\w+` run: the string splits into a prefix of the class and a rest that does not start with it. |
| Networking.SpanOf | vmfusion/vnet_cli.py:32 | Any such split is the one the greedy run finds. |
| Networking.MatchLine | vmfusion/vnet_cli.py:32-42 | A match splits the line into `answer`, a maximal whitespace run, the key and `_`, a maximal word run, a maximal whitespace run, and the rest of the line. |
| Networking.MatchAnswerLine | vmfusion/vnet_cli.py:32-45 | Every line of that shape matches and yields its own word and value. With the previous row, a line matches exactly when it has that shape. |
| Networking.OtherNetworkIgnored | vmfusion/vnet_cli.py:31-32 | Answer lines for another network's key never match. |
| Networking.Assignment | vmfusion/vnet_cli.py:43-49 | A line assigns an attribute exactly when it matches the pattern. |
| Networking.Absorb | vmfusion/vnet_cli.py:43-50 | A matching line sets its lower-cased attribute to its converted value and leaves the other attributes alone. A line that does not match changes nothing. |
| Networking.CollectKeysSound | vmfusion/vnet_cli.py:41-50 | Every attribute the loop stores was set by some line. |
| Networking.CollectKeysComplete | vmfusion/vnet_cli.py:41-50 | Every attribute some line sets is stored by the loop. |
| Networking.CollectLastWins | vmfusion/vnet_cli.py:50 | The loop stores, for an attribute, the value that the last line setting it assigns. |
| Networking.CollectAnswers | vmfusion/vnet_cli.py:41-50 | Over a run of answer lines, the loop stores for each attribute what the last answer for it assigns, and nothing for the others. |
| Networking.AttributesKeys | vmfusion/vnet_cli.py:41-50 | An attribute is in the map exactly when some line sets it. |
| Networking.AttributesLastWins | vmfusion/vnet_cli.py:50 | An attribute's value comes from the last line that sets it. |
| Networking.GetOr | vmfusion/vnet_cli.py:52-56 | A present attribute gives its value, and an absent one gives the default. |
| Networking.Lookup | vmfusion/vnet_cli.py:53-54 | A present attribute gives its value, and an absent one gives nothing. |
| Networking.ParseNetworking | vmfusion/vnet_cli.py:28-56 | An empty name fails with `IndexError`. Otherwise the call fails exactly when the key occurs nowhere in the content, and then the error names the network. |
| Networking.AttributesOfLines | vmfusion/vnet_cli.py:41-50 | For any lines, each attribute holds the converted value of the last line that sets it, and is absent when no line does; lines that do not match change nothing. |
| Networking.ParseNetworkingOk | vmfusion/vnet_cli.py:37-56 | For any file that names the network, each of the five settings is the value from the last matching line for it, or its default when no line sets it. |
| Networking.DefaultsWithoutAnswers | vmfusion/vnet_cli.py:37-56 | A file that names the network but has no answer line for it gives the defaults:<br>- `dhcp`, `nat` and `virtual_adapter` false;<br>- no netmask or subnet. |
| Networking.AttributesOfAnswers | vmfusion/vnet_cli.py:41-50 | For a file of answer lines, each attribute holds the value that the last answer for it assigns. |
| Networking.KeyInLines | vmfusion/vnet_cli.py:37 | The key occurs in any file, joined from lines, one of whose lines is an answer line for it. |
| Networking.AnswerLineNamesNetwork | vmfusion/vnet_cli.py:37-39 | A file with an answer line for the network never raises the missing-network error. |
| Networking.ParseAnswers | vmfusion/vnet_cli.py:28-56 | A file of answer lines gives, for each of the five settings, the last answer's converted value, or the default when no line sets it. |

## Left out

- Reading files is not modelled (`os.path.isfile`, `open`/`read` in both files). The file content is an input string. A missing lease file (the `ValueError` in `__init__`) has no model.
- `print(e)` in `load`, `__str__`, `__repr__` and `__iter__` are not modelled. `__iter__` returns a keys view, which the table's keys already describe.
- `VNetCLI.__init__`, `_load_dhcp_leases` and the module-level instances are not modelled. They use fixed system paths and run on import.
- Other modules are not modelled: vmfusion/vmrun_cli.py, vmfusion/vdiskmanager.py, vmfusion/vm.py and vmfusion/utils.py. They wrap external tools and the filesystem.
- pyparsing's character-level scanning is modelled at token level. The text is first cut into words, quoted strings and the punctuation `{`, `}`, `;` at whitespace, as pyparsing's default whitespace skipping does. Then the scan resumes one token after a failed match. Three cases are left out:
  - matches that begin inside a word, such as `xlease`;
  - matches that begin inside a quoted string, such as a `lease … { … }` written between double quotes, which `scanString` finds and the token model keeps as one quoted token;
  - tokens glued without whitespace, such as `starts4` or a date run into its time.
- `QuotedString`'s conversion of `\t`-style escapes inside a `uid` is not modelled, nor is the tab expansion `scanString` applies to the whole text before matching, which turns a tab inside the quotes into spaces. The uid is kept as written between the quotes. It never reaches the table, so no table result changes.
- `datetime.strptime` is replaced by its observable rule:
  - `%Y` takes exactly four digits;
  - the value must be a valid Gregorian date-time with year 1 to 9999.

  Its parsing internals and locale are left out.
- The regular expression's `\w` and `\s` classes are modelled on ASCII, and `lower` as ASCII lower-casing. On ASCII, `\s` is blank, tab, the line and page breaks and the separators 0x1C to 0x1F. Python applies all three to all of Unicode, and the non-ASCII characters are not modelled.
- The last character of the network name is taken literally. A regular-expression metacharacter there changes the pattern in the source, and that case is not modelled.
- `Networking.MatchLine` requires a line without a line break. The only lines it gets come from `split("\n")`, so this never excludes a real input.
