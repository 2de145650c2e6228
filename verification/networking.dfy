/** `VNetCLI._parse_networking` (vmfusion/vnet_cli.py): the settings of one
    virtual network read from the content of VMware Fusion's `networking`
    file. Every line of the form `answer VNET_<n>_<ATTR> <value>` for the
    network's number `<n>` sets attribute `<attr>` (lower-cased); `yes` and
    `no` become booleans; later lines override earlier ones; five attributes
    are then read out with defaults. */
module Networking {
  import opened Results
  import opened Text

  // ---------------------------------------------------------------------------
  // Values

  /** An attribute value: `yes`/`no` converted to a boolean, anything else kept as text. */
  datatype AttrValue = Flag(on: bool) | Verbatim(text: string)

  /** The conversion of a matched value. */
  function Convert(val: string): (v: AttrValue)
    ensures v == Flag(true) <==> val == "yes"
    ensures v == Flag(false) <==> val == "no"
    ensures v.Verbatim? ==> v.text == val
  {
    if val == "yes" then Flag(true)
    else if val == "no" then Flag(false)
    else Verbatim(val)
  }

  /** The text a value is written as in the file. */
  function Show(v: AttrValue): string {
    match v
    case Flag(on) => if on then "yes" else "no"
    case Verbatim(text) => text
  }

  /** Converting loses nothing: the original text can be written back. */
  lemma ShowConvert(val: string)
    ensures Show(Convert(val)) == val
  {
  }

  /** Every value other than the texts `yes` and `no` survives being written and read. */
  lemma ConvertShow(v: AttrValue)
    requires v.Verbatim? ==> v.text != "yes" && v.text != "no"
    ensures Convert(Show(v)) == v
  {
  }

  // ---------------------------------------------------------------------------
  // The section key

  /** A key `VNET_<c>` for a one-character network number `c`. */
  predicate IsSectionKey(key: string) {
    |key| == 6 && key[..5] == "VNET_"
  }

  /** The key for a network name: `VNET_` followed by the last character of the name. */
  function SectionKey(name: string): (key: string)
    requires |name| > 0
    ensures IsSectionKey(key) && key[5] == name[|name| - 1]
  {
    "VNET_" + [name[|name| - 1]]
  }

  /** Names that end in the same character denote the same network. */
  lemma SectionKeyLastChar(a: string, b: string)
    requires |a| > 0 && |b| > 0
    ensures SectionKey(a) == SectionKey(b) <==> a[|a| - 1] == b[|b| - 1]
  {
    if SectionKey(a) == SectionKey(b) {
      assert SectionKey(a)[5] == SectionKey(b)[5];
    }
  }

  // ---------------------------------------------------------------------------
  // Matching one line

  /** The two character classes of the line pattern, `\s` and `\w`. */
  datatype CharClass = Space | WordChar

  predicate In(c: char, cls: CharClass) {
    match cls
    case Space => IsSpace(c)
    case WordChar => IsWordChar(c)
  }

  predicate AllIn(s: string, cls: CharClass) {
    forall i :: 0 <= i < |s| ==> In(s[i], cls)
  }

  /** The length of the longest prefix of `s` in class `cls`: what a greedy
      `\s+` or `\w+` consumes. */
  function Run(s: string, cls: CharClass): (n: nat)
    ensures n <= |s|
    ensures forall i :: 0 <= i < n ==> In(s[i], cls)
    ensures n < |s| ==> !In(s[n], cls)
    decreases |s|
  {
    if |s| > 0 && In(s[0], cls) then 1 + Run(s[1..], cls) else 0
  }

  /** `s` cut after its longest prefix in class `cls`. */
  function Span(s: string, cls: CharClass): (r: (string, string))
    ensures s == r.0 + r.1 && AllIn(r.0, cls)
    ensures |r.1| == 0 || !In(r.1[0], cls)
  {
    var n := Run(s, cls);
    assert s == s[..n] + s[n..];
    (s[..n], s[n..])
  }

  /** A run followed by something outside its class is consumed exactly. */
  lemma {:induction false} RunOf(p: string, t: string, cls: CharClass)
    requires AllIn(p, cls)
    requires |t| == 0 || !In(t[0], cls)
    ensures Run(p + t, cls) == |p|
    decreases |p|
  {
    if |p| > 0 {
      assert (p + t)[0] == p[0];
      assert (p + t)[1..] == p[1..] + t;
      RunOf(p[1..], t, cls);
    } else {
      assert p + t == t;
    }
  }

  lemma SpanOf(p: string, t: string, cls: CharClass)
    requires AllIn(p, cls)
    requires |t| == 0 || !In(t[0], cls)
    ensures Span(p + t, cls) == (p, t)
  {
    RunOf(p, t, cls);
    assert (p + t)[..|p|] == p && (p + t)[|p|..] == t;
  }

  /** `s` with the prefix `p` removed, when `s` starts with `p`. */
  function After(s: string, p: string): (r: Option<string>)
    ensures r.Some? <==> |p| <= |s| && s[..|p|] == p
    ensures r.Some? ==> s == p + r.value
  {
    if |p| <= |s| && s[..|p|] == p then
      assert s == s[..|p|] + s[|p|..];
      Some(s[|p|..])
    else None
  }

  lemma AfterOf(p: string, t: string)
    ensures After(p + t, p) == Some(t)
  {
    assert (p + t)[..|p|] == p && (p + t)[|p|..] == t;
  }

  /** The pieces of a matching line: the whitespace after `answer`, the
      attribute word (group 1), the whitespace after it, and the value
      (group 2). */
  datatype LineMatch = LineMatch(lead: string, word: string, gap: string, value: string)

  /** The pieces as the pattern's greedy quantifiers cut them: both blanks are
      non-empty runs of `\s`, the word a non-empty run of `\w`, and the value
      does not start with whitespace (the second `\s+` took it all). */
  predicate Canonical(m: LineMatch) {
    && |m.lead| > 0 && AllIn(m.lead, Space)
    && |m.word| > 0 && AllIn(m.word, WordChar)
    && |m.gap| > 0 && AllIn(m.gap, Space)
    && (|m.value| == 0 || !IsSpace(m.value[0]))
  }

  /** The line the pieces make for the section key `key`. */
  function AnswerLine(key: string, m: LineMatch): string {
    "answer" + (m.lead + ((key + "_") + (m.word + (m.gap + m.value))))
  }

  /** The pattern `answer\s+<key>_(\w+)\s+(.*)$` matched at the start of a line
      that holds no line break. The key starts with a letter, so the first
      `\s+` is a maximal run; `\w` and `\s` are disjoint, so the word is a
      maximal run followed by whitespace; `.*` takes the rest of the line. */
  function MatchLine(key: string, line: string): (r: Option<LineMatch>)
    requires IsSectionKey(key) && '\n' !in line
    ensures r.Some? ==> Canonical(r.value) && AnswerLine(key, r.value) == line
  {
    match After(line, "answer")
    case None => None
    case Some(r1) =>
      var (lead, r2) := Span(r1, Space);
      match After(r2, key + "_")
      case None => None
      case Some(r3) =>
        var (word, r4) := Span(r3, WordChar);
        var (gap, value) := Span(r4, Space);
        if |lead| == 0 || |word| == 0 || |gap| == 0 then None
        else Some(LineMatch(lead, word, gap, value))
  }

  /** Every canonical answer line matches, and gives back its pieces: with the
      postcondition of `MatchLine`, a line matches exactly when it is a
      canonical answer line. */
  lemma MatchAnswerLine(key: string, m: LineMatch)
    requires IsSectionKey(key) && Canonical(m) && '\n' !in AnswerLine(key, m)
    ensures MatchLine(key, AnswerLine(key, m)) == Some(m)
  {
    var r4 := m.gap + m.value;
    var r3 := m.word + r4;
    var r2 := (key + "_") + r3;
    var r1 := m.lead + r2;
    AfterOf("answer", r1);
    assert r2[0] == 'V' by { assert key[..5][0] == 'V'; }
    SpanOf(m.lead, r2, Space);
    AfterOf(key + "_", r3);
    assert |r4| > 0 && r4[0] == m.gap[0];
    SpanOf(m.word, r4, WordChar);
    SpanOf(m.gap, m.value, Space);
  }

  /** Answer lines of another network are ignored. */
  lemma OtherNetworkIgnored(key: string, other: string, m: LineMatch)
    requires IsSectionKey(key) && IsSectionKey(other) && key != other
    requires Canonical(m) && '\n' !in AnswerLine(other, m)
    ensures MatchLine(key, AnswerLine(other, m)) == None
  {
    var r2 := (other + "_") + (m.word + (m.gap + m.value));
    var r1 := m.lead + r2;
    AfterOf("answer", r1);
    assert r2[0] == 'V' by { assert other[..5][0] == 'V'; }
    SpanOf(m.lead, r2, Space);
    assert key[5] != other[5] by {
      assert key == key[..5] + [key[5]] && other == other[..5] + [other[5]];
    }
    assert r2[5] == other[5];
    assert (key + "_")[5] == key[5];
    assert r2[..7] != key + "_" by { assert r2[..7][5] == other[5]; }
  }

  // ---------------------------------------------------------------------------
  // The attribute map

  /** The assignment a line makes, if it matches: the lower-cased word and the converted value. */
  function Assignment(key: string, line: string): (r: Option<(string, AttrValue)>)
    requires IsSectionKey(key) && '\n' !in line
    ensures r.Some? <==> MatchLine(key, line).Some?
  {
    match MatchLine(key, line)
    case None => None
    case Some(m) => Some((Lower(m.word), Convert(m.value)))
  }

  /** An assignment to `attr`. */
  predicate Sets(a: Option<(string, AttrValue)>, attr: string) {
    a.Some? && a.value.0 == attr
  }

  /** `line` matches and sets attribute `attr`. */
  predicate SetsAttr(key: string, line: string, attr: string)
    requires IsSectionKey(key) && '\n' !in line
  {
    Sets(Assignment(key, line), attr)
  }

  predicate NoBreaks(lines: seq<string>) {
    forall i :: 0 <= i < |lines| ==> '\n' !in lines[i]
  }

  /** The assignment of each line, in order. */
  function Assignments(key: string, lines: seq<string>): (asg: seq<Option<(string, AttrValue)>>)
    requires IsSectionKey(key) && NoBreaks(lines)
    ensures |asg| == |lines| && forall i :: 0 <= i < |lines| ==> asg[i] == Assignment(key, lines[i])
  {
    seq(|lines|, i requires 0 <= i < |lines| => Assignment(key, lines[i]))
  }

  /** One iteration of the loop: the assignment of a matching line overrides
      its attribute; a line that does not match changes nothing. */
  function Absorb(attrs: map<string, AttrValue>, a: Option<(string, AttrValue)>): (r: map<string, AttrValue>)
    ensures forall x :: x in r <==> x in attrs || Sets(a, x)
    ensures forall x :: x in r ==> r[x] == if Sets(a, x) then a.value.1 else attrs[x]
  {
    match a
    case None => attrs
    case Some(kv) => attrs[kv.0 := kv.1]
  }

  /** The loop over the lines' assignments, in order. */
  function Collect(asg: seq<Option<(string, AttrValue)>>): map<string, AttrValue>
    decreases |asg|
  {
    if |asg| == 0 then map[] else Absorb(Collect(asg[..|asg| - 1]), asg[|asg| - 1])
  }

  /** `attrs` after the loop has seen `lines`, in order. */
  function Attributes(key: string, lines: seq<string>): map<string, AttrValue>
    requires IsSectionKey(key) && NoBreaks(lines)
  {
    Collect(Assignments(key, lines))
  }

  /** An attribute that is collected was assigned by some line. */
  lemma {:induction false} CollectKeysSound(asg: seq<Option<(string, AttrValue)>>, attr: string)
    requires attr in Collect(asg)
    ensures exists i :: 0 <= i < |asg| && Sets(asg[i], attr)
    decreases |asg|
  {
    var n := |asg| - 1;
    if !Sets(asg[n], attr) {
      CollectKeysSound(asg[..n], attr);
      var i :| 0 <= i < n && Sets(asg[..n][i], attr);
      assert asg[..n][i] == asg[i];
    }
  }

  /** An attribute some line assigns is collected. */
  lemma {:induction false} CollectKeysComplete(asg: seq<Option<(string, AttrValue)>>, attr: string, i: int)
    requires 0 <= i < |asg| && Sets(asg[i], attr)
    ensures attr in Collect(asg)
    decreases |asg|
  {
    var n := |asg| - 1;
    if i < n {
      assert asg[..n][i] == asg[i];
      CollectKeysComplete(asg[..n], attr, i);
    }
  }

  /** The collected value of an attribute is the last assignment to it. */
  lemma {:induction false} CollectLastWins(asg: seq<Option<(string, AttrValue)>>, attr: string, i: int)
    requires 0 <= i < |asg| && Sets(asg[i], attr)
    requires forall j :: i < j < |asg| ==> !Sets(asg[j], attr)
    ensures attr in Collect(asg) && Collect(asg)[attr] == asg[i].value.1
    decreases |asg|
  {
    var n := |asg| - 1;
    if i < n {
      assert forall j :: i < j < n ==> asg[..n][j] == asg[j];
      assert asg[..n][i] == asg[i];
      CollectLastWins(asg[..n], attr, i);
    }
  }

  /** An attribute is set exactly when some line sets it. */
  lemma AttributesKeys(key: string, lines: seq<string>, attr: string)
    requires IsSectionKey(key) && NoBreaks(lines)
    ensures attr in Attributes(key, lines) <==> exists i :: 0 <= i < |lines| && SetsAttr(key, lines[i], attr)
  {
    var asg := Assignments(key, lines);
    if attr in Attributes(key, lines) {
      CollectKeysSound(asg, attr);
      var i :| 0 <= i < |asg| && Sets(asg[i], attr);
      assert SetsAttr(key, lines[i], attr);
    }
    if exists i :: 0 <= i < |lines| && SetsAttr(key, lines[i], attr) {
      var i :| 0 <= i < |lines| && SetsAttr(key, lines[i], attr);
      CollectKeysComplete(asg, attr, i);
    }
  }

  /** The value of an attribute comes from the last line that sets it. */
  lemma AttributesLastWins(key: string, lines: seq<string>, attr: string, i: int)
    requires IsSectionKey(key) && NoBreaks(lines)
    requires 0 <= i < |lines| && SetsAttr(key, lines[i], attr)
    requires forall j :: i < j < |lines| ==> !SetsAttr(key, lines[j], attr)
    ensures attr in Attributes(key, lines)
    ensures Attributes(key, lines)[attr] == Convert(MatchLine(key, lines[i]).value.value)
  {
    var asg := Assignments(key, lines);
    assert forall j :: i < j < |lines| ==> !Sets(asg[j], attr);
    CollectLastWins(asg, attr, i);
  }

  // ---------------------------------------------------------------------------
  // The settings

  /** The five attributes the object keeps. */
  datatype Settings = Settings(
    dhcp: AttrValue,
    netmask: Option<AttrValue>,
    subnet: Option<AttrValue>,
    nat: AttrValue,
    virtualAdapter: AttrValue)

  /** `attrs.get(attr, default)`. */
  function GetOr(attrs: map<string, AttrValue>, attr: string, default: AttrValue): (v: AttrValue)
    ensures attr in attrs ==> v == attrs[attr]
    ensures attr !in attrs ==> v == default
  {
    if attr in attrs then attrs[attr] else default
  }

  /** `attrs.get(attr, None)`. */
  function Lookup(attrs: map<string, AttrValue>, attr: string): (v: Option<AttrValue>)
    ensures v.Some? <==> attr in attrs
    ensures v.Some? ==> v.value == attrs[attr]
  {
    if attr in attrs then Some(attrs[attr]) else None
  }

  /** The settings read out of the attribute map, with their defaults. */
  function Settle(attrs: map<string, AttrValue>): Settings {
    Settings(
      GetOr(attrs, "dhcp", Flag(false)),
      Lookup(attrs, "hostonly_netmask"),
      Lookup(attrs, "hostonly_subnet"),
      GetOr(attrs, "nat", Flag(false)),
      GetOr(attrs, "virtual_adapter", Flag(false)))
  }

  /** A reference for the loop over the text's lines: the converted value of
      the last line that sets `attr`, if any. */
  function LastAnswer(key: string, lines: seq<string>, attr: string): Option<AttrValue>
    requires IsSectionKey(key) && NoBreaks(lines)
    decreases |lines|
  {
    if |lines| == 0 then None
    else
      var n := |lines| - 1;
      if SetsAttr(key, lines[n], attr) then Some(Convert(MatchLine(key, lines[n]).value.value))
      else LastAnswer(key, lines[..n], attr)
  }

  /** The loop leaves each attribute with what the last line setting it
      gives, and leaves it out when no line sets it, whatever else the lines
      hold. */
  lemma {:induction false} AttributesOfLines(key: string, lines: seq<string>, attr: string)
    requires IsSectionKey(key) && NoBreaks(lines)
    ensures Lookup(Attributes(key, lines), attr) == LastAnswer(key, lines, attr)
    decreases |lines|
  {
    if |lines| > 0 {
      var n := |lines| - 1;
      var init := lines[..n];
      AttributesOfLines(key, init, attr);
      var asg := Assignments(key, lines);
      assert asg[..n] == Assignments(key, init);
      assert Attributes(key, lines) == Absorb(Attributes(key, init), Assignment(key, lines[n]));
    }
  }

  /** The settings of a network with no attributes. */
  function Defaults(): Settings {
    Settings(Flag(false), None, None, Flag(false), Flag(false))
  }

  /** Why `_parse_networking` fails: `IndexError` for an empty name, or the
      `ValueError` for a network whose key is nowhere in the file. */
  datatype NetworkError = EmptyName | NoNetwork(name: string)

  /** `_parse_networking` on the network name `name` and file content `content`. */
  function ParseNetworking(name: string, content: string): (r: Result<Settings, NetworkError>)
    ensures |name| == 0 <==> r == Err(EmptyName)
    ensures |name| > 0 ==> (r.Err? <==> !Contains(content, SectionKey(name)))
    ensures |name| > 0 && r.Err? ==> r.error == NoNetwork(name)
  {
    if |name| == 0 then Err(EmptyName)
    else
      var key := SectionKey(name);
      if !Contains(content, key) then Err(NoNetwork(name))
      else
        var lines := Split(content, '\n');
        Ok(Settle(Attributes(key, lines)))
  }

  /** A file that names the network but sets nothing for it gives the defaults. */
  lemma DefaultsWithoutAnswers(name: string, content: string)
    requires |name| > 0 && Contains(content, SectionKey(name))
    requires forall i :: 0 <= i < |Split(content, '\n')| ==> MatchLine(SectionKey(name), Split(content, '\n')[i]).None?
    ensures ParseNetworking(name, content) == Ok(Defaults())
  {
    var key := SectionKey(name);
    var lines := Split(content, '\n');
    forall attr ensures attr !in Attributes(key, lines) {
      AttributesKeys(key, lines, attr);
    }
  }

  // ---------------------------------------------------------------------------
  // Files written as answer lines

  /** The lines for a sequence of answers. */
  function AnswerLines(key: string, es: seq<LineMatch>): (lines: seq<string>)
    ensures |lines| == |es| && forall i :: 0 <= i < |es| ==> lines[i] == AnswerLine(key, es[i])
  {
    seq(|es|, i requires 0 <= i < |es| => AnswerLine(key, es[i]))
  }

  /** The value the last answer for `attr` gives it, if any: a reference
      written over the answers themselves, not over the text. */
  function Assigned(es: seq<LineMatch>, attr: string): Option<AttrValue>
    decreases |es|
  {
    if |es| == 0 then None
    else if Lower(es[|es| - 1].word) == attr then Some(Convert(es[|es| - 1].value))
    else Assigned(es[..|es| - 1], attr)
  }

  /** Answers whose lines are well-formed and hold no line break. */
  predicate WellFormedAnswers(key: string, es: seq<LineMatch>) {
    forall i :: 0 <= i < |es| ==> Canonical(es[i]) && '\n' !in AnswerLine(key, es[i])
  }

  /** The assignments the answers make. */
  function AnswerAssignments(es: seq<LineMatch>): (asg: seq<Option<(string, AttrValue)>>)
    ensures |asg| == |es|
    ensures forall i :: 0 <= i < |es| ==> asg[i] == Some((Lower(es[i].word), Convert(es[i].value)))
  {
    seq(|es|, i requires 0 <= i < |es| => Some((Lower(es[i].word), Convert(es[i].value))))
  }

  /** Collecting the answers' assignments gives what the answers assign. */
  lemma {:induction false} CollectAnswers(es: seq<LineMatch>)
    ensures forall attr :: Lookup(Collect(AnswerAssignments(es)), attr) == Assigned(es, attr)
    decreases |es|
  {
    if |es| > 0 {
      var n := |es| - 1;
      assert AnswerAssignments(es)[..n] == AnswerAssignments(es[..n]);
      CollectAnswers(es[..n]);
    }
  }

  /** The attribute map of answer lines is what the answers assign. */
  lemma AttributesOfAnswers(key: string, es: seq<LineMatch>)
    requires IsSectionKey(key) && WellFormedAnswers(key, es)
    ensures NoBreaks(AnswerLines(key, es))
    ensures forall attr :: Lookup(Attributes(key, AnswerLines(key, es)), attr) == Assigned(es, attr)
  {
    var lines := AnswerLines(key, es);
    forall i | 0 <= i < |es| ensures Assignment(key, lines[i]) == AnswerAssignments(es)[i] {
      MatchAnswerLine(key, es[i]);
    }
    assert Assignments(key, lines) == AnswerAssignments(es);
    CollectAnswers(es);
  }

  /** The key occurs in each of its answer lines. */
  lemma KeyInAnswerLine(key: string, m: LineMatch)
    ensures OccursAt(AnswerLine(key, m), key, 6 + |m.lead|)
  {
    var line := AnswerLine(key, m);
    assert line == ("answer" + m.lead) + key + ("_" + m.word + m.gap + m.value);
  }

  /** A value, or a default when there is none. */
  function OrDefault(v: Option<AttrValue>, default: AttrValue): AttrValue {
    if v.Some? then v.value else default
  }

  /** A file of one or more answer lines for a network parses to the settings
      the last answer for each attribute gives, with the defaults for the rest. */
  lemma ParseAnswers(name: string, es: seq<LineMatch>)
    requires |name| > 0 && |es| > 0 && WellFormedAnswers(SectionKey(name), es)
    ensures
      var content := Join(AnswerLines(SectionKey(name), es), '\n');
      ParseNetworking(name, content) == Ok(Settings(
        OrDefault(Assigned(es, "dhcp"), Flag(false)),
        Assigned(es, "hostonly_netmask"),
        Assigned(es, "hostonly_subnet"),
        OrDefault(Assigned(es, "nat"), Flag(false)),
        OrDefault(Assigned(es, "virtual_adapter"), Flag(false))))
  {
    var key := SectionKey(name);
    var lines := AnswerLines(key, es);
    var content := Join(lines, '\n');
    AttributesOfAnswers(key, es);
    SplitJoin(lines, '\n');
    KeyInLines(key, lines, 0, es[0]);
    assert ParseNetworking(name, content) == Ok(Settle(Attributes(key, lines)));
    SettleAssigned(Attributes(key, lines), es);
  }

  lemma SettleAssigned(attrs: map<string, AttrValue>, es: seq<LineMatch>)
    requires forall attr :: Lookup(attrs, attr) == Assigned(es, attr)
    ensures Settle(attrs) == Settings(
      OrDefault(Assigned(es, "dhcp"), Flag(false)),
      Assigned(es, "hostonly_netmask"),
      Assigned(es, "hostonly_subnet"),
      OrDefault(Assigned(es, "nat"), Flag(false)),
      OrDefault(Assigned(es, "virtual_adapter"), Flag(false)))
  {
    assert Lookup(attrs, "dhcp") == Assigned(es, "dhcp");
    assert Lookup(attrs, "nat") == Assigned(es, "nat");
    assert Lookup(attrs, "virtual_adapter") == Assigned(es, "virtual_adapter");
    assert Lookup(attrs, "hostonly_netmask") == Assigned(es, "hostonly_netmask");
    assert Lookup(attrs, "hostonly_subnet") == Assigned(es, "hostonly_subnet");
  }

  /** The key occurs in any file one of whose lines is an answer line for it. */
  lemma KeyInLines(key: string, lines: seq<string>, k: int, m: LineMatch)
    requires 0 <= k < |lines| && lines[k] == AnswerLine(key, m)
    ensures Contains(Join(lines, '\n'), key)
  {
    KeyInAnswerLine(key, m);
    ContainsInJoin(lines, '\n', k, key, 6 + |m.lead|);
  }

  /** A file with an answer line for the network never fails with `NoNetwork`. */
  lemma AnswerLineNamesNetwork(name: string, lines: seq<string>, k: int, m: LineMatch)
    requires |name| > 0 && 0 <= k < |lines| && lines[k] == AnswerLine(SectionKey(name), m)
    ensures ParseNetworking(name, Join(lines, '\n')).Ok?
  {
    KeyInLines(SectionKey(name), lines, k, m);
  }

  /** For any file that names the network, each setting is the value the
      last matching line for it gives, or its default when no line sets it;
      lines of other networks and other directives are ignored. */
  lemma ParseNetworkingOk(name: string, content: string)
    requires |name| > 0 && Contains(content, SectionKey(name))
    ensures
      var key := SectionKey(name);
      var lines := Split(content, '\n');
      ParseNetworking(name, content) == Ok(Settings(
        OrDefault(LastAnswer(key, lines, "dhcp"), Flag(false)),
        LastAnswer(key, lines, "hostonly_netmask"),
        LastAnswer(key, lines, "hostonly_subnet"),
        OrDefault(LastAnswer(key, lines, "nat"), Flag(false)),
        OrDefault(LastAnswer(key, lines, "virtual_adapter"), Flag(false))))
  {
    var key := SectionKey(name);
    var lines := Split(content, '\n');
    AttributesOfLines(key, lines, "dhcp");
    AttributesOfLines(key, lines, "hostonly_netmask");
    AttributesOfLines(key, lines, "hostonly_subnet");
    AttributesOfLines(key, lines, "nat");
    AttributesOfLines(key, lines, "virtual_adapter");
  }
}
