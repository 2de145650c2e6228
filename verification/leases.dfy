/** The `DHCPDLeases` object of vmfusion/dhcpd_leases.py: a table from MAC to
    IP address that `load` (alias `reload`) rebuilds from the text of a
    dhcpd.leases file, and the container accessors over it. */
module Leases {
  import opened Results
  import opened Literals
  import opened Timestamp
  import opened Lexer
  import opened Grammar
  import opened Resolver
  import opened GrammarProperties

  /** The object's state: `self.list`. */
  datatype LeaseTable = LeaseTable(list: map<string, string>)

  /** The state after construction: an empty table. */
  function Initial(): (t: LeaseTable)
    ensures |t.list| == 0
  {
    LeaseTable(map[])
  }

  /** The outcome of `load`: the table afterwards, and the invalid date value
      that escaped from it, if any. */
  datatype Loaded = Loaded(table: LeaseTable, raised: Option<DateError>)

  /** `load` on the file content `text`. The table is assigned only after both
      loops finish, so when a date value raises the old table stays. */
  function Load(current: LeaseTable, text: string): (l: Loaded)
    ensures l.raised.None? <==> Records(text).Ok?
    ensures l.raised.Some? ==> l.table == current && l.raised.value == Records(text).error
    ensures Records(text).Ok? ==> l.table.list.Keys == Macs(Records(text).value)
  {
    match Records(text)
    case Err(e) => Loaded(current, Some(e))
    case Ok(rs) =>
      FoldKeys(rs);
      Loaded(LeaseTable(Resolve(rs)), None)
  }

  /** `__len__`. */
  function Len(t: LeaseTable): (n: nat)
    ensures n == |t.list.Keys|
  {
    |t.list|
  }

  /** `__contains__`. */
  function Contains(t: LeaseTable, mac: string): (b: bool)
    ensures b <==> mac in t.list.Keys
  {
    mac in t.list
  }

  /** The `KeyError` that `__getitem__` raises for an unknown MAC. */
  datatype LookupError = KeyError(key: string)

  /** `__getitem__`. */
  function Get(t: LeaseTable, mac: string): (r: Result<string, LookupError>)
    ensures r.Ok? <==> Contains(t, mac)
    ensures r.Ok? ==> r.value == t.list[mac]
    ensures r.Err? ==> r.error == KeyError(mac)
  {
    if mac in t.list then Ok(t.list[mac]) else Err(KeyError(mac))
  }

  // ---------------------------------------------------------------------------
  // Properties of `load`

  /** Loading the same content twice gives what loading it once gave. */
  lemma LoadIdempotent(current: LeaseTable, text: string)
    ensures Load(Load(current, text).table, text) == Load(current, text)
  {
  }

  /** A successful load does not depend on the table it replaces. */
  lemma LoadForgetsPrevious(a: LeaseTable, b: LeaseTable, text: string)
    requires Load(a, text).raised.None?
    ensures Load(b, text) == Load(a, text)
  {
  }

  /** After a successful load the accessors answer for the records of the
      file: a MAC is present exactly when some record with a hardware
      statement names it, its address is that of such a record, and the
      length counts distinct MACs. */
  lemma LoadedAccessors(current: LeaseTable, text: string, mac: string)
    requires Records(text).Ok?
    ensures var t := Load(current, text).table; var rs := Records(text).value;
      && (Contains(t, mac) <==> mac in Macs(rs))
      && (Get(t, mac).Ok? ==> exists i :: 0 <= i < |rs| && HasMac(rs[i], mac) && Get(t, mac).value == rs[i].ip)
      && Len(t) == |Macs(rs)|
  {
    ResolveSound(Records(text).value);
    ResolveSize(Records(text).value);
  }

  /** Loading a file written from lease blocks publishes the resolution of the
      records those blocks denote. */
  lemma LoadOfBlocks(current: LeaseTable, bs: seq<Block>)
    requires forall k :: 0 <= k < |bs| ==> WellFormedBlock(bs[k])
    ensures Load(current, Render(FileTokens(bs))) == Loaded(LeaseTable(Resolve(BlockRecords(bs))), None)
  {
    RecordsOf(bs);
  }

  /** A file whose blocks are followed by a block with an impossible date
      value leaves the table as it was, whatever the earlier blocks hold. */
  lemma LoadKeepsTableOnInvalidDate(
    current: LeaseTable, bs: seq<Block>, b: Block, f: DateField, wd: string, date: string, time: string, rest: seq<Token>)
    requires forall k :: 0 <= k < |bs| ==> WellFormedBlock(bs[k])
    requires WellFormedBlock(b) && AllWellFormed(rest)
    requires IsWeekday(wd) && IsDateLiteral(date) && IsTimeLiteral(time) && ToDateTime(date, time).Err?
    ensures var ts := FileTokens(bs) + (Header(b.ip) + ClausesTokens(b.clauses) + DatedPrefix(f, wd, date, time) + rest);
      Load(current, Render(ts)) == Loaded(current, Some(InvalidDate(date, time)))
  {
    var ts := FileTokens(bs) + (Header(b.ip) + ClausesTokens(b.clauses) + DatedPrefix(f, wd, date, time) + rest);
    InvalidDateAborts(bs, b, f, wd, date, time, rest);
    TokenizeRender(ts);
  }

  /** Loading an empty file empties the table. */
  lemma LoadEmptyFile(current: LeaseTable)
    ensures Load(current, "") == Loaded(Initial(), None)
  {
    RecordsOfEmptyFile();
  }
}
