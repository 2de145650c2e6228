/** The lease-block grammar of `DHCPDLeases.__parse` (vmfusion/dhcpd_leases.py)
    over the token view of the file: the seven lease statements, the
    `lease <ip> { ... }` block, and the scan that collects every well-formed
    block in file order. Parsers take the remaining tokens and hand back what
    is left after a match. */
module Grammar {
  import opened Results
  import opened Text
  import opened Literals
  import opened Timestamp
  import opened Lexer

  /** The value of a `dateRef`: the weekday digit as written (never checked
      against the date) and the converted date-time. */
  datatype Stamp = Stamp(weekday: nat, at: DateTime)

  /** The value of an `ends` statement. */
  datatype Expiry = At(stamp: Stamp) | Never

  datatype Hardware = Hardware(kind: string, mac: string)

  datatype Binding = Binding(first: string, second: string)

  /** The four statements whose argument is a `dateRef`. */
  datatype DateField = Starts | Ends | Tstp | Tsfp

  /** One parsed lease statement. */
  datatype Clause =
    | Dated(field: DateField, stamp: Stamp)
    | EndsNever
    | HardwareClause(hardware: Hardware)
    | UidClause(uid: string)
    | BindingClause(binding: Binding)

  /** One matched lease block: the address from its header and, for each
      statement kind, the value of its last occurrence (if any). */
  datatype LeaseRecord = LeaseRecord(
    ip: string,
    starts: Option<Stamp>,
    ends: Option<Expiry>,
    tstp: Option<Stamp>,
    tsfp: Option<Stamp>,
    hardware: Option<Hardware>,
    uid: Option<string>,
    binding: Option<Binding>)

  /** The outcome of trying a grammar element on the remaining tokens: a value
      and the tokens after it, no match, or an error raised by a parse action
      (which escapes the whole scan). */
  datatype Parsed<+T> = Matched(value: T, rest: seq<Token>) | NoMatch | Raised(error: DateError)

  // ---------------------------------------------------------------------------
  // Well-formed values

  predicate WellFormedStamp(st: Stamp) { st.weekday <= 6 && Valid(st.at) }

  predicate WellFormedClause(c: Clause) {
    match c
    case Dated(_, st) => WellFormedStamp(st)
    case EndsNever => true
    case HardwareClause(h) => IsAlnumRun(h.kind) && IsMacLiteral(h.mac)
    case UidClause(q) => WellFormed(Quoted(q))
    case BindingClause(b) => IsAlnumRun(b.first) && IsAlnumRun(b.second)
  }

  /** What every record produced by the grammar satisfies. */
  predicate WellFormedRecord(r: LeaseRecord) {
    && IsIpLiteral(r.ip)
    && (r.starts.Some? ==> WellFormedClause(Dated(Starts, r.starts.value)))
    && (r.ends.Some? ==> WellFormedClause(if r.ends.value.At? then Dated(Ends, r.ends.value.stamp) else EndsNever))
    && (r.tstp.Some? ==> WellFormedClause(Dated(Tstp, r.tstp.value)))
    && (r.tsfp.Some? ==> WellFormedClause(Dated(Tsfp, r.tsfp.value)))
    && (r.hardware.Some? ==> WellFormedClause(HardwareClause(r.hardware.value)))
    && (r.uid.Some? ==> WellFormedClause(UidClause(r.uid.value)))
    && (r.binding.Some? ==> WellFormedClause(BindingClause(r.binding.value)))
  }

  // ---------------------------------------------------------------------------
  // Building a record from its statements

  /** A record with its address and no statements. */
  function Blank(ip: string): LeaseRecord {
    LeaseRecord(ip, None, None, None, None, None, None, None)
  }

  /** Records one statement; a later statement of the same kind replaces an
      earlier one, as pyparsing's `Dict` reports the last value under a key. */
  function Apply(r: LeaseRecord, c: Clause): LeaseRecord {
    match c
    case Dated(Starts, st) => r.(starts := Some(st))
    case Dated(Ends, st) => r.(ends := Some(At(st)))
    case Dated(Tstp, st) => r.(tstp := Some(st))
    case Dated(Tsfp, st) => r.(tsfp := Some(st))
    case EndsNever => r.(ends := Some(Never))
    case HardwareClause(h) => r.(hardware := Some(h))
    case UidClause(q) => r.(uid := Some(q))
    case BindingClause(b) => r.(binding := Some(b))
  }

  lemma ApplyWellFormed(r: LeaseRecord, c: Clause)
    requires WellFormedRecord(r) && WellFormedClause(c)
    ensures WellFormedRecord(Apply(r, c)) && Apply(r, c).ip == r.ip
  {
    if c.Dated? {
      ApplyDatedWellFormed(r, c.field, c.stamp);
    } else {
      ApplyOtherWellFormed(r, c);
    }
  }

  lemma ApplyDatedWellFormed(r: LeaseRecord, f: DateField, st: Stamp)
    requires WellFormedRecord(r) && WellFormedStamp(st)
    ensures WellFormedRecord(Apply(r, Dated(f, st))) && Apply(r, Dated(f, st)).ip == r.ip
  {
    if f == Ends {
      SetEndsWellFormed(r, At(st));
    } else {
      SetStampWellFormed(r, f, st);
    }
  }

  lemma ApplyOtherWellFormed(r: LeaseRecord, c: Clause)
    requires WellFormedRecord(r) && WellFormedClause(c) && !c.Dated?
    ensures WellFormedRecord(Apply(r, c)) && Apply(r, c).ip == r.ip
  {
    if c.EndsNever? {
      SetEndsWellFormed(r, Never);
    } else {
      SetOtherWellFormed(r, c);
    }
  }

  lemma SetStampWellFormed(r: LeaseRecord, f: DateField, st: Stamp)
    requires WellFormedRecord(r) && WellFormedStamp(st) && f != Ends
    ensures f == Starts ==> WellFormedRecord(r.(starts := Some(st)))
    ensures f == Tstp ==> WellFormedRecord(r.(tstp := Some(st)))
    ensures f == Tsfp ==> WellFormedRecord(r.(tsfp := Some(st)))
  {
  }

  lemma SetEndsWellFormed(r: LeaseRecord, e: Expiry)
    requires WellFormedRecord(r) && (e.At? ==> WellFormedStamp(e.stamp))
    ensures WellFormedRecord(r.(ends := Some(e)))
  {
  }

  lemma SetOtherWellFormed(r: LeaseRecord, c: Clause)
    requires WellFormedRecord(r) && WellFormedClause(c)
    ensures c.HardwareClause? ==> WellFormedRecord(r.(hardware := Some(c.hardware)))
    ensures c.UidClause? ==> WellFormedRecord(r.(uid := Some(c.uid)))
    ensures c.BindingClause? ==> WellFormedRecord(r.(binding := Some(c.binding)))
  {
  }

  /** Records the statements `cs` in order. */
  function ApplyAll(r: LeaseRecord, cs: seq<Clause>): LeaseRecord
    decreases |cs|
  {
    if |cs| == 0 then r else ApplyAll(Apply(r, cs[0]), cs[1..])
  }

  // ---------------------------------------------------------------------------
  // Statements

  /** `rest` is what remains of `ts` after some of its leading tokens. */
  predicate IsSuffix(rest: seq<Token>, ts: seq<Token>) {
    |rest| <= |ts| && rest == ts[|ts| - |rest|..]
  }

  predicate AllWellFormed(ts: seq<Token>) {
    forall k :: 0 <= k < |ts| ==> WellFormed(ts[k])
  }

  lemma SuffixWellFormed(rest: seq<Token>, ts: seq<Token>)
    requires IsSuffix(rest, ts) && AllWellFormed(ts)
    ensures AllWellFormed(rest)
  {
    forall k | 0 <= k < |rest| ensures WellFormed(rest[k]) {
      assert rest[k] == ts[|ts| - |rest| + k];
    }
  }

  lemma SuffixTransitive(a: seq<Token>, b: seq<Token>, c: seq<Token>)
    requires IsSuffix(a, b) && IsSuffix(b, c)
    ensures IsSuffix(a, c)
  {
    assert c[|c| - |b|..][|b| - |a|..] == c[|c| - |a|..];
  }

  /** `dateRef`: a weekday digit, a date and a time; once the three tokens
      match, the parse action converts them and may raise. */
  function ParseStamp(ts: seq<Token>): (r: Parsed<Stamp>)
    ensures r.Matched? ==> |r.rest| < |ts| && IsSuffix(r.rest, ts) && WellFormedStamp(r.value)
  {
    if |ts| >= 3 && ts[0].Word? && IsWeekday(ts[0].text)
       && ts[1].Word? && IsDateLiteral(ts[1].text)
       && ts[2].Word? && IsTimeLiteral(ts[2].text)
    then
      match ToDateTime(ts[1].text, ts[2].text)
      case Ok(t) => Matched(Stamp(DigitValue(ts[0].text[0]), t), ts[3..])
      case Err(e) => Raised(e)
    else NoMatch
  }

  /** The `SEMI` that ends every statement. */
  function Terminate(c: Clause, ts: seq<Token>): (r: Parsed<Clause>)
    ensures r.Matched? ==> r.value == c && |r.rest| < |ts| && IsSuffix(r.rest, ts)
  {
    if |ts| > 0 && ts[0] == Punct(';') then Matched(c, ts[1..]) else NoMatch
  }

  /** `starts`, `tstp` and `tsfp` statements (after the keyword). */
  function ParseDated(f: DateField, ts: seq<Token>): (r: Parsed<Clause>)
    ensures r.Matched? ==> |r.rest| < |ts| && IsSuffix(r.rest, ts) && WellFormedClause(r.value)
    ensures r.Matched? ==> r.value.Dated? && r.value.field == f
  {
    match ParseStamp(ts)
    case Matched(st, rest) => Terminate(Dated(f, st), rest)
    case NoMatch => NoMatch
    case Raised(e) => Raised(e)
  }

  /** `ends` statement (after the keyword): a `dateRef`, or else `never`. */
  function ParseEnds(ts: seq<Token>): (r: Parsed<Clause>)
    ensures r.Matched? ==> |r.rest| < |ts| && IsSuffix(r.rest, ts) && WellFormedClause(r.value)
    ensures r.Matched? ==> r.value == EndsNever || (r.value.Dated? && r.value.field == Ends)
  {
    match ParseStamp(ts)
    case Matched(st, rest) => Terminate(Dated(Ends, st), rest)
    case Raised(e) => Raised(e)
    case NoMatch =>
      if |ts| > 0 && ts[0] == Word("never") then Terminate(EndsNever, ts[1..]) else NoMatch
  }

  /** `hardware` statement (after the keyword): a type word and a MAC literal. */
  function ParseHardware(ts: seq<Token>): (r: Parsed<Clause>)
    ensures r.Matched? ==> |r.rest| < |ts| && IsSuffix(r.rest, ts) && WellFormedClause(r.value)
    ensures r.Matched? ==> r.value.HardwareClause?
  {
    if |ts| >= 2 && ts[0].Word? && IsAlnumRun(ts[0].text) && ts[1].Word? && IsMacLiteral(ts[1].text)
    then Terminate(HardwareClause(Hardware(ts[0].text, ts[1].text)), ts[2..])
    else NoMatch
  }

  /** `uid` statement (after the keyword): a quoted string. */
  function ParseUid(ts: seq<Token>): (r: Parsed<Clause>)
    requires AllWellFormed(ts)
    ensures r.Matched? ==> |r.rest| < |ts| && IsSuffix(r.rest, ts) && WellFormedClause(r.value)
    ensures r.Matched? ==> r.value.UidClause?
  {
    if |ts| >= 1 && ts[0].Quoted? then Terminate(UidClause(ts[0].text), ts[1..]) else NoMatch
  }

  /** `binding` statement (after the keyword): two words. */
  function ParseBinding(ts: seq<Token>): (r: Parsed<Clause>)
    ensures r.Matched? ==> |r.rest| < |ts| && IsSuffix(r.rest, ts) && WellFormedClause(r.value)
    ensures r.Matched? ==> r.value.BindingClause?
  {
    if |ts| >= 2 && ts[0].Word? && IsAlnumRun(ts[0].text) && ts[1].Word? && IsAlnumRun(ts[1].text)
    then Terminate(BindingClause(Binding(ts[0].text, ts[1].text)), ts[2..])
    else NoMatch
  }

  /** The keyword of a dated statement. */
  function FieldKeyword(f: DateField): string {
    match f
    case Starts => "starts"
    case Ends => "ends"
    case Tstp => "tstp"
    case Tsfp => "tsfp"
  }

  /** The keyword that introduces a statement. */
  function Keyword(c: Clause): string {
    match c
    case Dated(f, _) => FieldKeyword(f)
    case EndsNever => "ends"
    case HardwareClause(_) => "hardware"
    case UidClause(_) => "uid"
    case BindingClause(_) => "binding"
  }

  predicate IsKeyword(w: string) {
    w == "starts" || w == "ends" || w == "tstp" || w == "tsfp" || w == "hardware" || w == "uid" || w == "binding"
  }

  /** `leaseStatement`: the first of the seven statements that matches. */
  function ParseStatement(ts: seq<Token>): (r: Parsed<Clause>)
    requires AllWellFormed(ts)
    ensures r.Matched? ==> |r.rest| < |ts| && IsSuffix(r.rest, ts) && WellFormedClause(r.value)
    ensures r.Matched? ==> ts[0] == Word(Keyword(r.value))
    ensures (|ts| == 0 || !ts[0].Word? || !IsKeyword(ts[0].text)) ==> r.NoMatch?
  {
    if |ts| == 0 || !ts[0].Word? then NoMatch
    else
      var key := ts[0].text;
      var body := ts[1..];
      if key == "starts" then ParseDated(Starts, body)
      else if key == "ends" then ParseEnds(body)
      else if key == "tstp" then ParseDated(Tstp, body)
      else if key == "tsfp" then ParseDated(Tsfp, body)
      else if key == "hardware" then ParseHardware(body)
      else if key == "uid" then ParseUid(body)
      else if key == "binding" then ParseBinding(body)
      else NoMatch
  }

  /** `ZeroOrMore(Group(leaseStatement))`: statements are recorded into `acc`
      until one fails to match; an error raised inside a statement escapes. */
  function ParseStatements(ts: seq<Token>, acc: LeaseRecord): (r: Parsed<LeaseRecord>)
    requires AllWellFormed(ts)
    requires WellFormedRecord(acc)
    ensures !r.NoMatch?
    ensures r.Matched? ==> IsSuffix(r.rest, ts) && WellFormedRecord(r.value) && r.value.ip == acc.ip
    ensures r.Matched? ==> ParseStatement(r.rest).NoMatch?
    decreases |ts|
  {
    match ParseStatement(ts)
    case Matched(c, rest) =>
      SuffixWellFormed(rest, ts);
      ApplyWellFormed(acc, c);
      var r := ParseStatements(rest, Apply(acc, c));
      if r.Matched? then SuffixTransitive(r.rest, rest, ts); r else r
    case NoMatch => Matched(acc, ts)
    case Raised(e) => Raised(e)
  }

  // ---------------------------------------------------------------------------
  // Blocks and the scan

  /** `leaseDef`: `lease`, an IP literal, `{`, statements, `}`. A block whose
      statements stop before the closing brace (an unknown statement, a
      malformed argument) does not match; an error raised by a date inside it
      still escapes. */
  function ParseLease(ts: seq<Token>): (r: Parsed<LeaseRecord>)
    requires AllWellFormed(ts)
    ensures r.Matched? ==> |r.rest| < |ts| && IsSuffix(r.rest, ts) && WellFormedRecord(r.value)
  {
    if |ts| >= 3 && ts[0] == Word("lease") && ts[1].Word? && IsIpLiteral(ts[1].text) && ts[2] == Punct('{') then
      SuffixWellFormed(ts[3..], ts);
      match ParseStatements(ts[3..], Blank(ts[1].text))
      case Matched(rec, rest) =>
        if |rest| > 0 && rest[0] == Punct('}') then
          SuffixTransitive(rest, ts[3..], ts);
          SuffixTransitive(rest[1..], rest, ts);
          Matched(rec, rest[1..])
        else NoMatch
      case NoMatch => NoMatch
      case Raised(e) => Raised(e)
    else NoMatch
  }

  /** `leaseDef.scanString(text)` as consumed by `load`: every block that
      matches, in file order, skipping tokens where no block starts; the
      first error raised by a parse action ends the scan. */
  function Scan(ts: seq<Token>): (r: Result<seq<LeaseRecord>, DateError>)
    requires AllWellFormed(ts)
    ensures r.Ok? ==> |r.value| <= |ts|
    ensures r.Ok? ==> forall k :: 0 <= k < |r.value| ==> WellFormedRecord(r.value[k])
    decreases |ts|
  {
    if |ts| == 0 then Ok([])
    else
      match ParseLease(ts)
      case Matched(rec, rest) =>
        SuffixWellFormed(rest, ts);
        (match Scan(rest)
         case Ok(rs) => Ok([rec] + rs)
         case Err(e) => Err(e))
      case NoMatch =>
        SuffixWellFormed(ts[1..], ts);
        Scan(ts[1..])
      case Raised(e) => Err(e)
  }

  /** The lease records of a lease file, or the error that aborts reading it. */
  function Records(text: string): (r: Result<seq<LeaseRecord>, DateError>)
    ensures r.Ok? ==> forall k :: 0 <= k < |r.value| ==> WellFormedRecord(r.value[k])
  {
    Scan(Tokenize(text))
  }
}
