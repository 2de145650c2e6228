/** Properties of the lease-block grammar: how well-formed blocks are written
    out as tokens and text, the round trip from blocks to records through the
    parser, the last-occurrence rule for repeated statements, and the two ways
    a block can fail (skipped, or an escaping date error). */
module GrammarProperties {
  import opened Results
  import opened Text
  import opened Literals
  import opened Timestamp
  import opened Lexer
  import opened Grammar

  // ---------------------------------------------------------------------------
  // Writing blocks out

  /** A lease block as written in a file: its address and its statements in order. */
  datatype Block = Block(ip: string, clauses: seq<Clause>)

  predicate WellFormedBlock(b: Block) {
    IsIpLiteral(b.ip) && forall k :: 0 <= k < |b.clauses| ==> WellFormedClause(b.clauses[k])
  }

  function StampTokens(st: Stamp): seq<Token>
    requires st.weekday <= 6
  {
    [Word([DigitChar(st.weekday)]), Word(FormatDate(st.at)), Word(FormatTime(st.at))]
  }

  /** The tokens between a statement's keyword and its `;`. */
  function Arguments(c: Clause): seq<Token>
    requires WellFormedClause(c)
  {
    match c
    case Dated(_, st) => StampTokens(st)
    case EndsNever => [Word("never")]
    case HardwareClause(h) => [Word(h.kind), Word(h.mac)]
    case UidClause(q) => [Quoted(q)]
    case BindingClause(b) => [Word(b.first), Word(b.second)]
  }

  function ClauseTokens(c: Clause): seq<Token>
    requires WellFormedClause(c)
  {
    [Word(Keyword(c))] + Arguments(c) + [Punct(';')]
  }

  function ClausesTokens(cs: seq<Clause>): seq<Token>
    requires forall k :: 0 <= k < |cs| ==> WellFormedClause(cs[k])
  {
    if |cs| == 0 then [] else ClauseTokens(cs[0]) + ClausesTokens(cs[1..])
  }

  function Header(ip: string): seq<Token> {
    [Word("lease"), Word(ip), Punct('{')]
  }

  function BlockTokens(b: Block): seq<Token>
    requires WellFormedBlock(b)
  {
    Header(b.ip) + ClausesTokens(b.clauses) + [Punct('}')]
  }

  function FileTokens(bs: seq<Block>): seq<Token>
    requires forall k :: 0 <= k < |bs| ==> WellFormedBlock(bs[k])
  {
    if |bs| == 0 then [] else BlockTokens(bs[0]) + FileTokens(bs[1..])
  }

  /** The record a block denotes. */
  function BlockRecord(b: Block): LeaseRecord {
    ApplyAll(Blank(b.ip), b.clauses)
  }

  function BlockRecords(bs: seq<Block>): (rs: seq<LeaseRecord>)
    ensures |rs| == |bs| && forall k :: 0 <= k < |bs| ==> rs[k] == BlockRecord(bs[k])
  {
    seq(|bs|, k requires 0 <= k < |bs| => BlockRecord(bs[k]))
  }

  // ---------------------------------------------------------------------------
  // The written tokens are tokens the lexer produces

  predicate AllWordBody(s: string) { forall i :: 0 <= i < |s| ==> IsWordBody(s[i]) }

  lemma {:induction false} JoinWordBody(parts: seq<string>, sep: char)
    requires |parts| > 0 && IsWordBody(sep)
    requires forall k :: 0 <= k < |parts| ==> AllWordBody(parts[k])
    ensures AllWordBody(Join(parts, sep))
    decreases |parts|
  {
    if |parts| > 1 {
      JoinWordBody(parts[1..], sep);
      var j := Join(parts, sep);
      assert j == parts[0] + [sep] + Join(parts[1..], sep);
      forall i | 0 <= i < |j| ensures IsWordBody(j[i]) {
        if i > |parts[0]| {
          assert j[i] == Join(parts[1..], sep)[i - |parts[0]| - 1];
        }
      }
    }
  }

  /** A string whose pieces around `sep` are all word characters is one word. */
  lemma WordBySplit(s: string, sep: char)
    requires IsWordBody(sep)
    requires forall k :: 0 <= k < |Split(s, sep)| ==> AllWordBody(Split(s, sep)[k])
    ensures AllWordBody(s)
  {
    JoinSplit(s, sep);
    JoinWordBody(Split(s, sep), sep);
  }

  lemma IpWord(s: string)
    requires IsIpLiteral(s)
    ensures WellFormed(Word(s))
  {
    WordBySplit(s, '.');
    JoinSplit(s, '.');
  }

  lemma MacWord(s: string)
    requires IsMacLiteral(s)
    ensures WellFormed(Word(s))
  {
    WordBySplit(s, ':');
    MacLiteralIff(s);
  }

  lemma StampWords(st: Stamp)
    requires WellFormedStamp(st)
    ensures AllWellFormed(StampTokens(st))
  {
    FormatIsLiteral(st.at);
    DateWord(FormatDate(st.at));
    TimeWord(FormatTime(st.at));
  }

  /** A date literal is one word. */
  lemma DateWord(date: string)
    requires IsDateLiteral(date)
    ensures WellFormed(Word(date))
  {
    var d := Split(date, '/');
    DigitsWordBody(d[0]); DigitsWordBody(d[1]); DigitsWordBody(d[2]);
    WordBySplit(date, '/');
  }

  /** A time literal is one word. */
  lemma TimeWord(time: string)
    requires IsTimeLiteral(time)
    ensures WellFormed(Word(time))
  {
    var t := Split(time, ':');
    DigitsWordBody(t[0]); DigitsWordBody(t[1]); DigitsWordBody(t[2]);
    WordBySplit(time, ':');
  }

  lemma ArgumentsWellFormed(c: Clause)
    requires WellFormedClause(c)
    ensures AllWellFormed(Arguments(c))
  {
    match c
    case Dated(_, st) => StampWords(st);
    case EndsNever =>
    case HardwareClause(h) => MacWord(h.mac);
    case UidClause(q) =>
    case BindingClause(b) =>
  }

  lemma ClauseTokensWellFormed(c: Clause)
    requires WellFormedClause(c)
    ensures AllWellFormed(ClauseTokens(c))
  {
    ArgumentsWellFormed(c);
    AppendWellFormed([Word(Keyword(c))], Arguments(c));
    AppendWellFormed([Word(Keyword(c))] + Arguments(c), [Punct(';')]);
  }

  lemma AppendWellFormed(a: seq<Token>, b: seq<Token>)
    requires AllWellFormed(a) && AllWellFormed(b)
    ensures AllWellFormed(a + b)
  {
    forall k | 0 <= k < |a + b| ensures WellFormed((a + b)[k]) {
      if k >= |a| {
        assert (a + b)[k] == b[k - |a|];
      }
    }
  }

  lemma {:induction false} ClausesTokensWellFormed(cs: seq<Clause>)
    requires forall k :: 0 <= k < |cs| ==> WellFormedClause(cs[k])
    ensures AllWellFormed(ClausesTokens(cs))
  {
    if |cs| > 0 {
      ClauseTokensWellFormed(cs[0]);
      ClausesTokensWellFormed(cs[1..]);
      AppendWellFormed(ClauseTokens(cs[0]), ClausesTokens(cs[1..]));
    }
  }

  lemma BlockTokensWellFormed(b: Block)
    requires WellFormedBlock(b)
    ensures AllWellFormed(BlockTokens(b))
  {
    IpWord(b.ip);
    ClausesTokensWellFormed(b.clauses);
    AppendWellFormed(Header(b.ip), ClausesTokens(b.clauses));
    AppendWellFormed(Header(b.ip) + ClausesTokens(b.clauses), [Punct('}')]);
  }

  lemma {:induction false} FileTokensWellFormed(bs: seq<Block>)
    requires forall k :: 0 <= k < |bs| ==> WellFormedBlock(bs[k])
    ensures AllWellFormed(FileTokens(bs))
  {
    if |bs| > 0 {
      BlockTokensWellFormed(bs[0]);
      FileTokensWellFormed(bs[1..]);
      AppendWellFormed(BlockTokens(bs[0]), FileTokens(bs[1..]));
    }
  }

  // ---------------------------------------------------------------------------
  // Round trip: written blocks parse back to their records

  lemma ParseStampOf(st: Stamp, rest: seq<Token>)
    requires WellFormedStamp(st)
    ensures ParseStamp(StampTokens(st) + rest) == Matched(st, rest)
  {
    ToDateTimeOfFormat(st.at);
    var ts := StampTokens(st) + rest;
    assert ts[3..] == rest;
  }

  lemma ParseDatedOf(f: DateField, st: Stamp, rest: seq<Token>)
    requires WellFormedStamp(st)
    ensures ParseDated(f, StampTokens(st) + ([Punct(';')] + rest)) == Matched(Dated(f, st), rest)
    ensures ParseEnds(StampTokens(st) + ([Punct(';')] + rest)) == Matched(Dated(Ends, st), rest)
  {
    ParseStampOf(st, [Punct(';')] + rest);
    assert ([Punct(';')] + rest)[1..] == rest;
  }

  lemma ParseEndsNeverOf(rest: seq<Token>)
    ensures ParseEnds([Word("never")] + ([Punct(';')] + rest)) == Matched(EndsNever, rest)
  {
    var ts := [Word("never")] + ([Punct(';')] + rest);
    assert !IsWeekday(ts[0].text);
    assert ts[1..] == [Punct(';')] + rest;
    assert ([Punct(';')] + rest)[1..] == rest;
  }

  lemma ParsePairOf(first: string, second: string, rest: seq<Token>)
    ensures var ts := [Word(first), Word(second)] + ([Punct(';')] + rest);
      && (IsAlnumRun(first) && IsMacLiteral(second) ==>
            ParseHardware(ts) == Matched(HardwareClause(Hardware(first, second)), rest))
      && (IsAlnumRun(first) && IsAlnumRun(second) ==>
            ParseBinding(ts) == Matched(BindingClause(Binding(first, second)), rest))
  {
    var ts := [Word(first), Word(second)] + ([Punct(';')] + rest);
    assert ts[2..] == [Punct(';')] + rest;
    assert ([Punct(';')] + rest)[1..] == rest;
  }

  lemma ParseUidOf(q: string, rest: seq<Token>)
    requires WellFormed(Quoted(q)) && AllWellFormed(rest)
    ensures AllWellFormed([Quoted(q)] + ([Punct(';')] + rest))
    ensures ParseUid([Quoted(q)] + ([Punct(';')] + rest)) == Matched(UidClause(q), rest)
  {
    var ts := [Quoted(q)] + ([Punct(';')] + rest);
    AppendWellFormed([Punct(';')], rest);
    AppendWellFormed([Quoted(q)], [Punct(';')] + rest);
    assert ts[1..] == [Punct(';')] + rest;
    assert ([Punct(';')] + rest)[1..] == rest;
  }

  /** The statement parser on a keyword followed by arguments and `;`. */
  lemma StatementDispatch(c: Clause, rest: seq<Token>)
    requires WellFormedClause(c) && AllWellFormed(rest)
    ensures AllWellFormed(ClauseTokens(c) + rest)
    ensures var ts := ClauseTokens(c) + rest;
      && ts[0] == Word(Keyword(c))
      && ts[1..] == Arguments(c) + ([Punct(';')] + rest)
  {
    ClauseTokensWellFormed(c);
    AppendWellFormed(ClauseTokens(c), rest);
  }

  lemma ParseStatementOfDated(f: DateField, st: Stamp, rest: seq<Token>)
    requires WellFormedStamp(st) && AllWellFormed(rest)
    ensures AllWellFormed(ClauseTokens(Dated(f, st)) + rest)
    ensures ParseStatement(ClauseTokens(Dated(f, st)) + rest) == Matched(Dated(f, st), rest)
  {
    var c := Dated(f, st);
    StatementDispatch(c, rest);
    ParseDatedOf(f, st, rest);
    var ts := ClauseTokens(c) + rest;
    match f
    case Starts => assert ts[0].text == "starts";
    case Ends => assert ts[0].text == "ends";
    case Tstp => assert ts[0].text == "tstp";
    case Tsfp => assert ts[0].text == "tsfp";
  }

  lemma ParseStatementOfOther(c: Clause, rest: seq<Token>)
    requires WellFormedClause(c) && !c.Dated? && AllWellFormed(rest)
    ensures AllWellFormed(ClauseTokens(c) + rest)
    ensures ParseStatement(ClauseTokens(c) + rest) == Matched(c, rest)
  {
    StatementDispatch(c, rest);
    var ts := ClauseTokens(c) + rest;
    match c
    case EndsNever =>
      ParseEndsNeverOf(rest);
      assert ts[0].text == "ends";
    case HardwareClause(h) =>
      ParsePairOf(h.kind, h.mac, rest);
      assert ts[0].text == "hardware";
    case UidClause(q) =>
      ParseUidOf(q, rest);
      assert ts[0].text == "uid";
    case BindingClause(b) =>
      ParsePairOf(b.first, b.second, rest);
      assert ts[0].text == "binding";
  }

  /** Every well-formed statement, written out, parses back to itself and
      consumes exactly its own tokens. */
  lemma ParseStatementOf(c: Clause, rest: seq<Token>)
    requires WellFormedClause(c) && AllWellFormed(rest)
    ensures AllWellFormed(ClauseTokens(c) + rest)
    ensures ParseStatement(ClauseTokens(c) + rest) == Matched(c, rest)
  {
    if c.Dated? {
      ParseStatementOfDated(c.field, c.stamp, rest);
    } else {
      ParseStatementOfOther(c, rest);
    }
  }

  lemma BlankWellFormed(ip: string)
    requires IsIpLiteral(ip)
    ensures WellFormedRecord(Blank(ip))
  {
  }

  /** Well-formed statements at the front are consumed one by one and
      recorded, whatever follows them. */
  lemma {:induction false} ParseStatementsPrefix(cs: seq<Clause>, acc: LeaseRecord, rest: seq<Token>)
    requires forall k :: 0 <= k < |cs| ==> WellFormedClause(cs[k])
    requires WellFormedRecord(acc) && AllWellFormed(rest)
    ensures AllWellFormed(ClausesTokens(cs) + rest)
    ensures WellFormedRecord(ApplyAll(acc, cs))
    ensures ParseStatements(ClausesTokens(cs) + rest, acc) == ParseStatements(rest, ApplyAll(acc, cs))
    decreases |cs|
  {
    ClausesTokensWellFormed(cs);
    AppendWellFormed(ClausesTokens(cs), rest);
    var ts := ClausesTokens(cs) + rest;
    if |cs| == 0 {
      assert ts == rest;
    } else {
      var tail := ClausesTokens(cs[1..]) + rest;
      assert ts == ClauseTokens(cs[0]) + tail;
      ClausesTokensWellFormed(cs[1..]);
      AppendWellFormed(ClausesTokens(cs[1..]), rest);
      ParseStatementOf(cs[0], tail);
      ApplyWellFormed(acc, cs[0]);
      ParseStatementsPrefix(cs[1..], Apply(acc, cs[0]), rest);
      assert ParseStatement(ts) == Matched(cs[0], tail);
      assert ParseStatements(ts, acc) == ParseStatements(tail, Apply(acc, cs[0]));
    }
  }

  lemma ParseStatementsOf(cs: seq<Clause>, acc: LeaseRecord, rest: seq<Token>)
    requires forall k :: 0 <= k < |cs| ==> WellFormedClause(cs[k])
    requires WellFormedRecord(acc) && AllWellFormed(rest) && ParseStatement(rest).NoMatch?
    ensures AllWellFormed(ClausesTokens(cs) + rest)
    ensures ParseStatements(ClausesTokens(cs) + rest, acc) == Matched(ApplyAll(acc, cs), rest)
  {
    ParseStatementsPrefix(cs, acc, rest);
  }

  /** Every well-formed block, written out, parses back to the record it denotes. */
  lemma ParseLeaseOf(b: Block, rest: seq<Token>)
    requires WellFormedBlock(b) && AllWellFormed(rest)
    ensures AllWellFormed(BlockTokens(b) + rest)
    ensures ParseLease(BlockTokens(b) + rest) == Matched(BlockRecord(b), rest)
  {
    BlockTokensWellFormed(b);
    AppendWellFormed(BlockTokens(b), rest);
    var ts := BlockTokens(b) + rest;
    var close := [Punct('}')] + rest;
    assert AllWellFormed(close);
    assert ts[3..] == ClausesTokens(b.clauses) + close;
    assert ts[0] == Word("lease") && ts[1] == Word(b.ip) && ts[2] == Punct('{');
    BlankWellFormed(b.ip);
    assert ParseStatement(close).NoMatch?;
    ParseStatementsOf(b.clauses, Blank(b.ip), close);
    assert ParseStatements(ts[3..], Blank(b.ip)) == Matched(BlockRecord(b), close);
    assert close[1..] == rest;
  }

  /** The scan at a matching lease block: the block's record, then the scan of what follows. */
  lemma ScanAtMatch(ts: seq<Token>, rec: LeaseRecord, rest: seq<Token>)
    requires AllWellFormed(ts) && AllWellFormed(rest) && |ts| > 0
    requires ParseLease(ts) == Matched(rec, rest)
    ensures Scan(rest).Ok? ==> Scan(ts) == Ok([rec] + Scan(rest).value)
    ensures Scan(rest).Err? ==> Scan(ts) == Scan(rest)
  {
  }

  /** The tokens of a non-empty file: its first block, then the others. */
  lemma FileTokensCons(bs: seq<Block>, after: seq<Token>)
    requires |bs| > 0 && forall k :: 0 <= k < |bs| ==> WellFormedBlock(bs[k])
    ensures FileTokens(bs) + after == BlockTokens(bs[0]) + (FileTokens(bs[1..]) + after)
  {
    var a := BlockTokens(bs[0]);
    var b := FileTokens(bs[1..]);
    assert FileTokens(bs) == a + b;
    Regroup(a, b, after);
  }

  /** Concatenation regrouped, stated apart so that the solver sees the
      sequences without the definitions they come from. */
  lemma Regroup(a: seq<Token>, b: seq<Token>, c: seq<Token>)
    ensures (a + b) + c == a + (b + c)
  {
  }

  /** Scanning a file of well-formed blocks yields their records, in order. */
  lemma {:induction false} ScanOf(bs: seq<Block>)
    requires forall k :: 0 <= k < |bs| ==> WellFormedBlock(bs[k])
    ensures AllWellFormed(FileTokens(bs))
    ensures Scan(FileTokens(bs)) == Ok(BlockRecords(bs))
  {
    FileTokensWellFormed(bs);
    if |bs| > 0 {
      var tail := FileTokens(bs[1..]);
      ScanOf(bs[1..]);
      ParseLeaseOf(bs[0], tail);
      assert FileTokens(bs) == BlockTokens(bs[0]) + tail;
      ScanAtMatch(FileTokens(bs), BlockRecord(bs[0]), tail);
      BlockRecordsCons(bs);
    }
  }

  lemma BlockRecordsCons(bs: seq<Block>)
    requires |bs| > 0
    ensures BlockRecords(bs) == [BlockRecord(bs[0])] + BlockRecords(bs[1..])
  {
  }

  /** Reading the text of a file of well-formed blocks yields their records, in order. */
  lemma RecordsOf(bs: seq<Block>)
    requires forall k :: 0 <= k < |bs| ==> WellFormedBlock(bs[k])
    ensures Records(Render(FileTokens(bs))) == Ok(BlockRecords(bs))
  {
    ScanOf(bs);
    TokenizeRender(FileTokens(bs));
  }

  /** A file with no lease blocks yields no records. */
  lemma RecordsOfEmptyFile()
    ensures Records("") == Ok([])
  {
  }

  // ---------------------------------------------------------------------------
  // Repeated statements: the last occurrence wins

  /** The record field a statement fills. */
  datatype Slot = StartsSlot | EndsSlot | TstpSlot | TsfpSlot | HardwareSlot | UidSlot | BindingSlot

  function SlotOf(c: Clause): Slot {
    match c
    case Dated(Starts, _) => StartsSlot
    case Dated(Ends, _) => EndsSlot
    case Dated(Tstp, _) => TstpSlot
    case Dated(Tsfp, _) => TsfpSlot
    case EndsNever => EndsSlot
    case HardwareClause(_) => HardwareSlot
    case UidClause(_) => UidSlot
    case BindingClause(_) => BindingSlot
  }

  /** The statement a record holds in one field, read back as a statement. */
  function SlotValue(r: LeaseRecord, s: Slot): Option<Clause> {
    match s
    case StartsSlot => if r.starts.Some? then Some(Dated(Starts, r.starts.value)) else None
    case EndsSlot =>
      (match r.ends
       case None => None
       case Some(At(st)) => Some(Dated(Ends, st))
       case Some(Never) => Some(EndsNever))
    case TstpSlot => if r.tstp.Some? then Some(Dated(Tstp, r.tstp.value)) else None
    case TsfpSlot => if r.tsfp.Some? then Some(Dated(Tsfp, r.tsfp.value)) else None
    case HardwareSlot => if r.hardware.Some? then Some(HardwareClause(r.hardware.value)) else None
    case UidSlot => if r.uid.Some? then Some(UidClause(r.uid.value)) else None
    case BindingSlot => if r.binding.Some? then Some(BindingClause(r.binding.value)) else None
  }

  /** The last statement in `cs` that fills field `s`, if any. */
  function LastIn(cs: seq<Clause>, s: Slot): Option<Clause>
    decreases |cs|
  {
    if |cs| == 0 then None
    else if SlotOf(cs[|cs| - 1]) == s then Some(cs[|cs| - 1])
    else LastIn(cs[..|cs| - 1], s)
  }

  /** Recording a statement sets its own field and leaves every other field alone. */
  lemma ApplySlot(r: LeaseRecord, c: Clause, s: Slot)
    ensures SlotValue(Apply(r, c), s) == if SlotOf(c) == s then Some(c) else SlotValue(r, s)
    ensures Apply(r, c).ip == r.ip
  {
  }

  lemma {:induction false} ApplyAllSnoc(r: LeaseRecord, cs: seq<Clause>, c: Clause)
    ensures ApplyAll(r, cs + [c]) == Apply(ApplyAll(r, cs), c)
    decreases |cs|
  {
    if |cs| == 0 {
      assert [] + [c] == [c];
      assert [c][1..] == [];
    } else {
      assert (cs + [c])[0] == cs[0];
      assert (cs + [c])[1..] == cs[1..] + [c];
      ApplyAllSnoc(Apply(r, cs[0]), cs[1..], c);
    }
  }

  /** Each field of a block's record holds the last statement of that kind in
      the block, and is empty when the block has none; the address is the
      header's. */
  lemma {:induction false} LastOccurrenceWins(ip: string, cs: seq<Clause>, s: Slot)
    ensures BlockRecord(Block(ip, cs)).ip == ip
    ensures SlotValue(BlockRecord(Block(ip, cs)), s) == LastIn(cs, s)
    decreases |cs|
  {
    if |cs| > 0 {
      var init := cs[..|cs| - 1];
      var last := cs[|cs| - 1];
      assert cs == init + [last];
      LastOccurrenceWins(ip, init, s);
      ApplyAllSnoc(Blank(ip), init, last);
      ApplySlot(ApplyAll(Blank(ip), init), last, s);
    }
  }

  // ---------------------------------------------------------------------------
  // How a block fails

  /** Behind a block header, the block's fate is that of its statements. */
  lemma ParseLeaseAfterHeader(ip: string, body: seq<Token>)
    requires IsIpLiteral(ip) && AllWellFormed(body)
    ensures AllWellFormed(Header(ip) + body)
    ensures WellFormedRecord(Blank(ip))
    ensures ParseStatements(body, Blank(ip)).Raised? ==>
      ParseLease(Header(ip) + body) == Raised(ParseStatements(body, Blank(ip)).error)
    ensures var r := ParseStatements(body, Blank(ip));
      r.Matched? && (|r.rest| == 0 || r.rest[0] != Punct('}')) ==> ParseLease(Header(ip) + body) == NoMatch
  {
    IpWord(ip);
    AppendWellFormed(Header(ip), body);
    var ts := Header(ip) + body;
    assert ts[0] == Word("lease") && ts[1] == Word(ip) && ts[2] == Punct('{');
    assert ts[3..] == body;
  }

  /** A block whose statements stop at anything but the closing brace fails
      to match: it yields no record and no error, and the scan moves on by
      one token. */
  lemma StoppedBlockSkips(b: Block, close: seq<Token>)
    requires WellFormedBlock(b) && AllWellFormed(close)
    requires ParseStatement(close).NoMatch? && !(|close| > 0 && close[0] == Punct('}'))
    ensures AllWellFormed(Header(b.ip) + ClausesTokens(b.clauses) + close)
    ensures ParseLease(Header(b.ip) + ClausesTokens(b.clauses) + close) == NoMatch
    ensures var ts := Header(b.ip) + ClausesTokens(b.clauses) + close;
      Scan(ts) == Scan(ts[1..])
  {
    var body := ClausesTokens(b.clauses) + close;
    var ts := Header(b.ip) + ClausesTokens(b.clauses) + close;
    assert ts == Header(b.ip) + body;
    BlankWellFormed(b.ip);
    ParseStatementsOf(b.clauses, Blank(b.ip), close);
    ParseLeaseAfterHeader(b.ip, body);
    assert ParseLease(ts) == NoMatch;
    ScanSkips(ts);
  }

  /** A statement keyword that is not one of the seven, or any other token
      where a statement or the closing brace should be, makes the block fail
      to match. */
  lemma UnknownStatementSkipsBlock(b: Block, t: Token, rest: seq<Token>)
    requires WellFormedBlock(b) && WellFormed(t) && AllWellFormed(rest)
    requires t != Punct('}') && !(t.Word? && IsKeyword(t.text))
    ensures AllWellFormed(Header(b.ip) + ClausesTokens(b.clauses) + [t] + rest)
    ensures ParseLease(Header(b.ip) + ClausesTokens(b.clauses) + [t] + rest) == NoMatch
    ensures var ts := Header(b.ip) + ClausesTokens(b.clauses) + [t] + rest;
      Scan(ts) == Scan(ts[1..])
  {
    var close := [t] + rest;
    assert Header(b.ip) + ClausesTokens(b.clauses) + [t] + rest == Header(b.ip) + ClausesTokens(b.clauses) + close;
    assert AllWellFormed(close);
    assert ParseStatement(close).NoMatch?;
    StoppedBlockSkips(b, close);
  }

  /** A `hardware` statement whose type is not a word or whose address is not
      a MAC literal (`hardware ethernet 00:11;`) makes the block fail to match. */
  lemma BadHardwareSkipsBlock(b: Block, kind: Token, mac: Token, rest: seq<Token>)
    requires WellFormedBlock(b) && WellFormed(kind) && WellFormed(mac) && AllWellFormed(rest)
    requires !(kind.Word? && IsAlnumRun(kind.text) && mac.Word? && IsMacLiteral(mac.text))
    ensures AllWellFormed(Header(b.ip) + ClausesTokens(b.clauses) + [Word("hardware"), kind, mac] + rest)
    ensures ParseLease(Header(b.ip) + ClausesTokens(b.clauses) + [Word("hardware"), kind, mac] + rest) == NoMatch
    ensures var ts := Header(b.ip) + ClausesTokens(b.clauses) + [Word("hardware"), kind, mac] + rest;
      Scan(ts) == Scan(ts[1..])
  {
    BadHardwareStops(kind, mac, rest);
    Regroup(Header(b.ip) + ClausesTokens(b.clauses), [Word("hardware"), kind, mac], rest);
    StoppedBlockSkips(b, [Word("hardware"), kind, mac] + rest);
  }

  lemma BadHardwareStops(kind: Token, mac: Token, rest: seq<Token>)
    requires WellFormed(kind) && WellFormed(mac) && AllWellFormed(rest)
    requires !(kind.Word? && IsAlnumRun(kind.text) && mac.Word? && IsMacLiteral(mac.text))
    ensures AllWellFormed([Word("hardware"), kind, mac] + rest)
    ensures ParseStatement([Word("hardware"), kind, mac] + rest).NoMatch?
  {
    var close := [Word("hardware"), kind, mac] + rest;
    assert WellFormed(Word("hardware"));
    assert close[1..] == [kind, mac] + rest;
  }

  lemma ScanSkips(ts: seq<Token>)
    requires AllWellFormed(ts) && |ts| > 0 && ParseLease(ts).NoMatch?
    ensures AllWellFormed(ts[1..])
    ensures Scan(ts) == Scan(ts[1..])
  {
    SuffixWellFormed(ts[1..], ts);
  }

  /** The tokens of a dated statement up to (not including) its `;`. */
  function DatedPrefix(f: DateField, wd: string, date: string, time: string): seq<Token> {
    [Word(FieldKeyword(f)), Word(wd), Word(date), Word(time)]
  }

  lemma DigitsWordBody(s: string)
    requires AllDigits(s)
    ensures AllWordBody(s)
  {
  }

  lemma DatedPrefixWellFormed(f: DateField, wd: string, date: string, time: string)
    requires IsWeekday(wd) && IsDateLiteral(date) && IsTimeLiteral(time)
    ensures AllWellFormed(DatedPrefix(f, wd, date, time))
  {
    DateWord(date);
    TimeWord(time);
  }

  /** A dated statement whose date and time match the grammar but do not form
      a valid date-time raises as soon as the date-time is read. */
  lemma InvalidDateRaises(f: DateField, wd: string, date: string, time: string, rest: seq<Token>)
    requires IsWeekday(wd) && IsDateLiteral(date) && IsTimeLiteral(time) && ToDateTime(date, time).Err?
    requires AllWellFormed(rest)
    ensures AllWellFormed(DatedPrefix(f, wd, date, time) + rest)
    ensures ParseStatement(DatedPrefix(f, wd, date, time) + rest) == Raised(InvalidDate(date, time))
  {
    DatedPrefixWellFormed(f, wd, date, time);
    AppendWellFormed(DatedPrefix(f, wd, date, time), rest);
    var ts := DatedPrefix(f, wd, date, time) + rest;
    assert ts[1..] == [Word(wd), Word(date), Word(time)] + rest;
  }

  /** An invalid date-time in a block aborts the whole scan with that error,
      however many well-formed blocks come before it and whatever follows. */
  lemma InvalidDateAborts(
    bs: seq<Block>, b: Block, f: DateField, wd: string, date: string, time: string, rest: seq<Token>)
    requires forall k :: 0 <= k < |bs| ==> WellFormedBlock(bs[k])
    requires WellFormedBlock(b) && AllWellFormed(rest)
    requires IsWeekday(wd) && IsDateLiteral(date) && IsTimeLiteral(time) && ToDateTime(date, time).Err?
    ensures AllWellFormed(FileTokens(bs) + (Header(b.ip) + ClausesTokens(b.clauses) + DatedPrefix(f, wd, date, time) + rest))
    ensures Scan(FileTokens(bs) + (Header(b.ip) + ClausesTokens(b.clauses) + DatedPrefix(f, wd, date, time) + rest))
         == Err(InvalidDate(date, time))
  {
    BadBlockRaises(b, f, wd, date, time, rest);
    ScanPastBlocks(bs, Header(b.ip) + ClausesTokens(b.clauses) + DatedPrefix(f, wd, date, time) + rest);
  }

  /** Well-formed blocks in front of a scan that raises do not stop the error. */
  lemma {:induction false} ScanPastBlocks(bs: seq<Block>, after: seq<Token>)
    requires forall k :: 0 <= k < |bs| ==> WellFormedBlock(bs[k])
    requires AllWellFormed(after)
    ensures AllWellFormed(FileTokens(bs) + after)
    ensures Scan(after).Err? ==> Scan(FileTokens(bs) + after) == Scan(after)
    decreases |bs|
  {
    FileTokensWellFormed(bs);
    AppendWellFormed(FileTokens(bs), after);
    if |bs| == 0 {
      assert FileTokens(bs) + after == after;
    } else {
      var tail := FileTokens(bs[1..]) + after;
      ScanPastBlocks(bs[1..], after);
      FileTokensCons(bs, after);
      ScanPastBlock(bs[0], tail);
    }
  }

  /** A block whose dated statement does not convert raises, and so does the scan from it. */
  lemma BadBlockRaises(b: Block, f: DateField, wd: string, date: string, time: string, rest: seq<Token>)
    requires WellFormedBlock(b) && AllWellFormed(rest)
    requires IsWeekday(wd) && IsDateLiteral(date) && IsTimeLiteral(time) && ToDateTime(date, time).Err?
    ensures AllWellFormed(Header(b.ip) + ClausesTokens(b.clauses) + DatedPrefix(f, wd, date, time) + rest)
    ensures Scan(Header(b.ip) + ClausesTokens(b.clauses) + DatedPrefix(f, wd, date, time) + rest)
         == Err(InvalidDate(date, time))
  {
    var stmt := DatedPrefix(f, wd, date, time) + rest;
    InvalidDateRaises(f, wd, date, time, rest);
    var body := ClausesTokens(b.clauses) + stmt;
    var bad := Header(b.ip) + ClausesTokens(b.clauses) + DatedPrefix(f, wd, date, time) + rest;
    assert bad == Header(b.ip) + body;
    BlankWellFormed(b.ip);
    ParseStatementsPrefix(b.clauses, Blank(b.ip), stmt);
    ParseLeaseAfterHeader(b.ip, body);
    assert ParseLease(bad) == Raised(InvalidDate(date, time));
  }

  /** A well-formed block in front of a scan that raises does not stop the error. */
  lemma ScanPastBlock(b: Block, after: seq<Token>)
    requires WellFormedBlock(b) && AllWellFormed(after)
    ensures AllWellFormed(BlockTokens(b) + after)
    ensures Scan(after).Err? ==> Scan(BlockTokens(b) + after) == Scan(after)
  {
    ParseLeaseOf(b, after);
    ScanAtMatch(BlockTokens(b) + after, BlockRecord(b), after);
  }
}
