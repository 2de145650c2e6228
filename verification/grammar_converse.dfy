/** The parser read backwards: whatever the statement parser, the block
    parser or the scan accepts in an arbitrary token stream is the written
    form of what it returns. Together with the round trips of
    `GrammarProperties`, a block matches exactly when its tokens are the
    written form of a well-formed block. */
module GrammarConverse {
  import opened Results
  import opened Text
  import opened Literals
  import opened Timestamp
  import opened Lexer
  import opened Grammar
  import opened GrammarProperties

  // ---------------------------------------------------------------------------
  // Statements

  /** A matched `dateRef` is the written form of its stamp. */
  lemma StampTokensOfParse(ts: seq<Token>)
    requires ParseStamp(ts).Matched?
    ensures ts == StampTokens(ParseStamp(ts).value) + ParseStamp(ts).rest
  {
    var st := ParseStamp(ts).value;
    assert [DigitChar(st.weekday)] == ts[0].text;
    assert ts == ts[..3] + ts[3..];
  }

  /** A statement written as its keyword, its arguments `args` and `;`. */
  lemma WrittenAs(written: seq<Token>, keyword: Token, args: seq<Token>, rest: seq<Token>)
    requires written == [keyword] + args + [Punct(';')]
    ensures written + rest == [keyword] + (args + ([Punct(';')] + rest))
  {
  }

  // Each statement parser, once matched, consumed its clause's arguments and
  // the `;` that ends it, and nothing else.

  lemma DatedArguments(f: DateField, body: seq<Token>) returns (args: seq<Token>)
    requires ParseDated(f, body).Matched?
    ensures ClauseTokens(ParseDated(f, body).value) == [Word(FieldKeyword(f))] + args + [Punct(';')]
    ensures body == args + ([Punct(';')] + ParseDated(f, body).rest)
  {
    StampTokensOfParse(body);
    args := StampTokens(ParseStamp(body).value);
    var rest := ParseStamp(body).rest;
    assert rest == [Punct(';')] + rest[1..];
  }

  lemma EndsArguments(body: seq<Token>) returns (args: seq<Token>)
    requires ParseEnds(body).Matched?
    ensures ClauseTokens(ParseEnds(body).value) == [Word("ends")] + args + [Punct(';')]
    ensures body == args + ([Punct(';')] + ParseEnds(body).rest)
  {
    if ParseStamp(body).Matched? {
      assert ParseEnds(body) == ParseDated(Ends, body);
      args := DatedArguments(Ends, body);
    } else {
      args := [Word("never")];
      assert body == [body[0]] + ([body[1]] + body[2..]);
    }
  }

  lemma HardwareArguments(body: seq<Token>) returns (args: seq<Token>)
    requires ParseHardware(body).Matched?
    ensures ClauseTokens(ParseHardware(body).value) == [Word("hardware")] + args + [Punct(';')]
    ensures body == args + ([Punct(';')] + ParseHardware(body).rest)
  {
    args := body[..2];
    assert body == body[..2] + ([body[2]] + body[3..]);
  }

  lemma UidArguments(body: seq<Token>) returns (args: seq<Token>)
    requires AllWellFormed(body) && ParseUid(body).Matched?
    ensures ClauseTokens(ParseUid(body).value) == [Word("uid")] + args + [Punct(';')]
    ensures body == args + ([Punct(';')] + ParseUid(body).rest)
  {
    args := body[..1];
    assert body == body[..1] + ([body[1]] + body[2..]);
  }

  lemma BindingArguments(body: seq<Token>) returns (args: seq<Token>)
    requires ParseBinding(body).Matched?
    ensures ClauseTokens(ParseBinding(body).value) == [Word("binding")] + args + [Punct(';')]
    ensures body == args + ([Punct(';')] + ParseBinding(body).rest)
  {
    args := body[..2];
    assert body == body[..2] + ([body[2]] + body[3..]);
  }

  /** A matched statement is the written form of its clause, followed by what is left. */
  lemma StatementTokensOf(ts: seq<Token>)
    requires AllWellFormed(ts) && ParseStatement(ts).Matched?
    ensures ts == ClauseTokens(ParseStatement(ts).value) + ParseStatement(ts).rest
  {
    var c, rest := ParseStatement(ts).value, ParseStatement(ts).rest;
    var key := ts[0].text;
    var body := ts[1..];
    SuffixWellFormed(body, ts);
    assert ts == [Word(Keyword(c))] + body;
    var args: seq<Token>;
    if key == "starts" { args := DatedArguments(Starts, body); }
    else if key == "ends" { args := EndsArguments(body); }
    else if key == "tstp" { args := DatedArguments(Tstp, body); }
    else if key == "tsfp" { args := DatedArguments(Tsfp, body); }
    else if key == "hardware" { args := HardwareArguments(body); }
    else if key == "uid" { args := UidArguments(body); }
    else { args := BindingArguments(body); }
    WrittenAs(ClauseTokens(c), Word(Keyword(c)), args, rest);
  }

  /** The clauses a statement run consumed, in order. */
  predicate AllWellFormedClauses(cs: seq<Clause>) {
    forall k :: 0 <= k < |cs| ==> WellFormedClause(cs[k])
  }

  /** Putting one more clause in front: its tokens come first and it is applied first. */
  lemma ConsClause(acc: LeaseRecord, c: Clause, cs: seq<Clause>)
    requires WellFormedClause(c) && AllWellFormedClauses(cs)
    ensures AllWellFormedClauses([c] + cs)
    ensures ClausesTokens([c] + cs) == ClauseTokens(c) + ClausesTokens(cs)
    ensures ApplyAll(acc, [c] + cs) == ApplyAll(Apply(acc, c), cs)
  {
    assert ([c] + cs)[1..] == cs;
  }

  /** A matched statement run is the written form of some well-formed
      clauses, and its record is those clauses applied in order. */
  lemma {:induction false} StatementsTokensOf(ts: seq<Token>, acc: LeaseRecord) returns (cs: seq<Clause>)
    requires AllWellFormed(ts) && WellFormedRecord(acc) && ParseStatements(ts, acc).Matched?
    ensures AllWellFormedClauses(cs)
    ensures ts == ClausesTokens(cs) + ParseStatements(ts, acc).rest
    ensures ParseStatements(ts, acc).value == ApplyAll(acc, cs)
    decreases |ts|
  {
    var r := ParseStatements(ts, acc);
    match ParseStatement(ts)
    case NoMatch =>
      cs := [];
      assert r == Matched(acc, ts);
    case Matched(c, rest) =>
      StatementTokensOf(ts);
      SuffixWellFormed(rest, ts);
      ApplyWellFormed(acc, c);
      assert r == ParseStatements(rest, Apply(acc, c));
      var tail := StatementsTokensOf(rest, Apply(acc, c));
      cs := [c] + tail;
      ConsClause(acc, c, tail);
      Regroup(ClauseTokens(c), ClausesTokens(tail), r.rest);
      assert cs[1..] == tail;
  }

  /** A statement run matched in any token stream. */
  lemma StatementsWritten(ts: seq<Token>, acc: LeaseRecord)
    requires AllWellFormed(ts) && WellFormedRecord(acc) && ParseStatements(ts, acc).Matched?
    ensures exists cs ::
              && AllWellFormedClauses(cs)
              && ts == ClausesTokens(cs) + ParseStatements(ts, acc).rest
              && ParseStatements(ts, acc).value == ApplyAll(acc, cs)
  {
    var cs := StatementsTokensOf(ts, acc);
  }

  // ---------------------------------------------------------------------------
  // Blocks

  /** A matched lease block starts with its header. */
  lemma LeaseHeader(ts: seq<Token>)
    requires AllWellFormed(ts) && ParseLease(ts).Matched?
    ensures IsIpLiteral(ts[1].text) && ts == Header(ts[1].text) + ts[3..] && AllWellFormed(ts[3..])
  {
    SuffixWellFormed(ts[3..], ts);
    HeaderSplit(ts);
  }

  lemma HeaderSplit(ts: seq<Token>)
    requires |ts| >= 3 && ts[0] == Word("lease") && ts[1].Word? && ts[2] == Punct('{')
    ensures ts == Header(ts[1].text) + ts[3..]
  {
    assert ts == [ts[0], ts[1], ts[2]] + ts[3..];
  }

  /** After the header, a matched lease block holds a statement run and `}`. */
  lemma LeaseBody(ts: seq<Token>)
    requires AllWellFormed(ts) && ParseLease(ts).Matched?
    requires IsIpLiteral(ts[1].text) && AllWellFormed(ts[3..])
    ensures ParseStatements(ts[3..], Blank(ts[1].text)) == Matched(ParseLease(ts).value, [Punct('}')] + ParseLease(ts).rest)
  {
    var r1 := ParseStatements(ts[3..], Blank(ts[1].text));
    assert r1.rest == [r1.rest[0]] + r1.rest[1..];
  }

  lemma BlockTokensSplit(b: Block, rest: seq<Token>)
    requires WellFormedBlock(b)
    ensures BlockTokens(b) + rest == Header(b.ip) + (ClausesTokens(b.clauses) + ([Punct('}')] + rest))
  {
  }

  /** A matched lease block is the written form of a well-formed block whose
      record is the one returned. */
  lemma BlockWritten(ts: seq<Token>)
    requires AllWellFormed(ts) && ParseLease(ts).Matched?
    ensures exists b ::
              && WellFormedBlock(b)
              && ts == BlockTokens(b) + ParseLease(ts).rest
              && BlockRecord(b) == ParseLease(ts).value
  {
    LeaseHeader(ts);
    LeaseBody(ts);
    var ip := ts[1].text;
    BlankWellFormed(ip);
    var cs := StatementsTokensOf(ts[3..], Blank(ip));
    var b := Block(ip, cs);
    BlockTokensSplit(b, ParseLease(ts).rest);
    assert BlockRecord(b) == ParseLease(ts).value;
  }

  // ---------------------------------------------------------------------------
  // The scan

  /** Block `b` is written in `ts` starting at token `i`. */
  predicate WrittenAt(ts: seq<Token>, b: Block, i: int) {
    WellFormedBlock(b) && 0 <= i && i + |BlockTokens(b)| <= |ts| && ts[i..i + |BlockTokens(b)|] == BlockTokens(b)
  }

  /** `rec` is the record of a well-formed block written somewhere in `ts`. */
  ghost predicate RecordWritten(ts: seq<Token>, rec: LeaseRecord) {
    exists b, i :: WrittenAt(ts, b, i) && BlockRecord(b) == rec
  }

  /** A record written in a suffix is written in the whole. */
  lemma WrittenInSuffix(ts: seq<Token>, n: int, rs: seq<LeaseRecord>)
    requires 0 <= n <= |ts|
    requires forall k :: 0 <= k < |rs| ==> RecordWritten(ts[n..], rs[k])
    ensures forall k :: 0 <= k < |rs| ==> RecordWritten(ts, rs[k])
  {
    forall k | 0 <= k < |rs| ensures RecordWritten(ts, rs[k]) {
      var b, i :| WrittenAt(ts[n..], b, i) && BlockRecord(b) == rs[k];
      assert ts[n..][i..i + |BlockTokens(b)|] == ts[i + n..i + n + |BlockTokens(b)|];
      assert WrittenAt(ts, b, i + n);
    }
  }

  /** The record of the block the scan matched first is written at the front. */
  lemma WrittenFirst(ts: seq<Token>, rec: LeaseRecord, tail: seq<LeaseRecord>)
    requires RecordWritten(ts, rec)
    requires forall k :: 0 <= k < |tail| ==> RecordWritten(ts, tail[k])
    ensures forall k :: 0 <= k < |[rec] + tail| ==> RecordWritten(ts, ([rec] + tail)[k])
  {
    forall k | 0 <= k < |[rec] + tail| ensures RecordWritten(ts, ([rec] + tail)[k]) {
      if k > 0 {
        assert ([rec] + tail)[k] == tail[k - 1];
      }
    }
  }

  lemma BlockWrittenAtFront(ts: seq<Token>)
    requires AllWellFormed(ts) && ParseLease(ts).Matched?
    ensures RecordWritten(ts, ParseLease(ts).value)
  {
    BlockWritten(ts);
    var b :| WellFormedBlock(b) && ts == BlockTokens(b) + ParseLease(ts).rest && BlockRecord(b) == ParseLease(ts).value;
    assert ts[0..|BlockTokens(b)|] == BlockTokens(b);
    assert WrittenAt(ts, b, 0);
  }

  /** Every record the scan returns is the record of a well-formed block
      written in the input: the scan reports nothing that is not there. */
  lemma {:induction false} ScanRecordsWritten(ts: seq<Token>)
    requires AllWellFormed(ts) && Scan(ts).Ok?
    ensures forall k :: 0 <= k < |Scan(ts).value| ==> RecordWritten(ts, Scan(ts).value[k])
    decreases |ts|
  {
    if |ts| > 0 {
      match ParseLease(ts)
      case NoMatch =>
        SuffixWellFormed(ts[1..], ts);
        ScanRecordsWritten(ts[1..]);
        WrittenInSuffix(ts, 1, Scan(ts[1..]).value);
      case Matched(rec, rest) =>
        SuffixWellFormed(rest, ts);
        var n := |ts| - |rest|;
        assert rest == ts[n..];
        ScanRecordsWritten(rest);
        var tail := Scan(rest).value;
        WrittenInSuffix(ts, n, tail);
        BlockWrittenAtFront(ts);
        WrittenFirst(ts, rec, tail);
        assert Scan(ts).value == [rec] + tail;
    }
  }
}
