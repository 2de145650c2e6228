/** The literal recognisers of the lease-file grammar (vmfusion/dhcpd_leases.py,
    `__parse`): IP address, MAC address, date, time and weekday tokens. Each is
    a predicate on the text of one token. */
module Literals {
  import opened Text

  /** `Combine(Word(nums) + ('.' + Word(nums)) * 3)`: four non-empty digit runs
      joined by dots, with no range check on the octets. */
  predicate IsIpLiteral(s: string) {
    var p := Split(s, '.');
    |p| == 4 && forall k :: 0 <= k < 4 ==> IsDigitRun(p[k])
  }

  /** `Word(hexnums, exact=2)`. */
  predicate IsHexPair(s: string) { |s| == 2 && IsHexDigit(s[0]) && IsHexDigit(s[1]) }

  /** `Combine(hexint + (':' + hexint) * 5)`: six two-digit hex groups joined by colons. */
  predicate IsMacLiteral(s: string) {
    var p := Split(s, ':');
    |p| == 6 && forall k :: 0 <= k < 6 ==> IsHexPair(p[k])
  }

  /** `Word(nums, exact=2)`. */
  predicate IsTwoDigits(s: string) { |s| == 2 && AllDigits(s) }

  /** `yyyymmdd`: a four- or two-digit year, then `/MM/DD`. */
  predicate IsDateLiteral(s: string) {
    var p := Split(s, '/');
    && |p| == 3
    && (|p[0]| == 4 || |p[0]| == 2) && AllDigits(p[0])
    && IsTwoDigits(p[1]) && IsTwoDigits(p[2])
  }

  /** `hhmmss`: three two-digit groups joined by colons. */
  predicate IsTimeLiteral(s: string) {
    var p := Split(s, ':');
    |p| == 3 && forall k :: 0 <= k < 3 ==> IsTwoDigits(p[k])
  }

  /** `oneOf(list("0123456"))`: a single weekday digit. */
  predicate IsWeekday(s: string) { |s| == 1 && '0' <= s[0] <= '6' }

  lemma Join3(a: string, b: string, c: string, sep: char)
    ensures Join([a, b, c], sep) == a + [sep] + b + [sep] + c
  {
    assert [a, b, c][1..] == [b, c];
    assert [b, c][1..] == [c];
    assert Join([b, c], sep) == b + [sep] + c;
    assert Join([a, b, c], sep) == a + [sep] + (b + [sep] + c);
  }

  lemma Join4(a: string, b: string, c: string, d: string, sep: char)
    ensures Join([a, b, c, d], sep) == a + [sep] + b + [sep] + c + [sep] + d
  {
    assert [a, b, c, d][1..] == [b, c, d];
    Join3(b, c, d, sep);
  }

  // ---------------------------------------------------------------------------
  // IP literals

  /** An IP literal is exactly its four digit runs put back together with dots. */
  lemma IpLiteralShape(s: string)
    requires IsIpLiteral(s)
    ensures var p := Split(s, '.');
      s == p[0] + "." + p[1] + "." + p[2] + "." + p[3]
  {
    var p := Split(s, '.');
    JoinSplit(s, '.');
    assert p == [p[0], p[1], p[2], p[3]];
    Join4(p[0], p[1], p[2], p[3], '.');
  }

  /** Any four digit runs joined by dots form an IP literal whose runs are
      exactly those four. */
  lemma IpLiteralOfRuns(a: string, b: string, c: string, d: string)
    requires IsDigitRun(a) && IsDigitRun(b) && IsDigitRun(c) && IsDigitRun(d)
    ensures IsIpLiteral(a + "." + b + "." + c + "." + d)
    ensures Split(a + "." + b + "." + c + "." + d, '.') == [a, b, c, d]
  {
    var p := [a, b, c, d];
    DigitsHaveNo(a, '.');
    DigitsHaveNo(b, '.');
    DigitsHaveNo(c, '.');
    DigitsHaveNo(d, '.');
    SplitJoin(p, '.');
    Join4(a, b, c, d, '.');
  }

  /** Octets are not range-checked: `999.999.999.999` is accepted. */
  lemma IpLiteralUnchecked()
    ensures IsIpLiteral("999.999.999.999")
  {
    IpLiteralOfRuns("999", "999", "999", "999");
    assert "999" + "." + "999" + "." + "999" + "." + "999" == "999.999.999.999";
  }

  // ---------------------------------------------------------------------------
  // MAC literals

  /** The positional reading of a MAC literal: 17 characters, a colon at every
      third position and a hex digit everywhere else. */
  predicate MacPositions(s: string) {
    |s| == 17 && forall i :: 0 <= i < 17 ==> if i % 3 == 2 then s[i] == ':' else IsHexDigit(s[i])
  }

  /** The characters of two-character groups joined by colons, by position. */
  lemma {:induction false} JoinPairsAt(g: seq<string>)
    requires |g| > 0
    requires forall k :: 0 <= k < |g| ==> |g[k]| == 2
    ensures |Join(g, ':')| == 3 * |g| - 1
    ensures forall i :: 0 <= i < 3 * |g| - 1 ==>
      Join(g, ':')[i] == if i % 3 == 2 then ':' else g[i / 3][i % 3]
  {
    if |g| > 1 {
      JoinPairsAt(g[1..]);
      var tail := Join(g[1..], ':');
      var j := Join(g, ':');
      assert j == g[0] + [':'] + tail;
      forall i | 0 <= i < 3 * |g| - 1
        ensures j[i] == if i % 3 == 2 then ':' else g[i / 3][i % 3]
      {
        if i >= 3 {
          assert j[i] == tail[i - 3];
          assert (i - 3) % 3 == i % 3 && (i - 3) / 3 == i / 3 - 1;
          assert g[1..][i / 3 - 1] == g[i / 3];
        }
      }
    }
  }

  lemma HexPairHasNoColon(s: string)
    requires IsHexPair(s)
    ensures ':' !in s
  {
    assert s == [s[0], s[1]];
  }

  /** The grammar's MAC literal and the positional reading agree on every string. */
  lemma MacLiteralIff(s: string)
    ensures IsMacLiteral(s) <==> MacPositions(s)
  {
    if IsMacLiteral(s) {
      var p := Split(s, ':');
      JoinSplit(s, ':');
      JoinPairsAt(p);
      forall i | 0 <= i < 17
        ensures if i % 3 == 2 then s[i] == ':' else IsHexDigit(s[i])
      {
        if i % 3 != 2 {
          assert IsHexPair(p[i / 3]);
        }
      }
    }
    if MacPositions(s) {
      var g := seq(6, k requires 0 <= k < 6 => s[3 * k .. 3 * k + 2]);
      forall k | 0 <= k < 6 ensures IsHexPair(g[k]) && ':' !in g[k] {
        assert g[k][0] == s[3 * k] && g[k][1] == s[3 * k + 1];
        assert (3 * k) % 3 == 0 && (3 * k + 1) % 3 == 1;
        HexPairHasNoColon(g[k]);
      }
      JoinPairsAt(g);
      forall i | 0 <= i < 17 ensures Join(g, ':')[i] == s[i] {
        if i % 3 != 2 {
          assert g[i / 3][i % 3] == s[3 * (i / 3) + i % 3];
        }
      }
      assert Join(g, ':') == s;
      SplitJoin(g, ':');
    }
  }

  /** Six hex pairs joined by colons form a MAC literal made of exactly those pairs. */
  lemma MacLiteralOfPairs(g: seq<string>)
    requires |g| == 6 && forall k :: 0 <= k < 6 ==> IsHexPair(g[k])
    ensures IsMacLiteral(Join(g, ':')) && Split(Join(g, ':'), ':') == g
  {
    forall k | 0 <= k < 6 ensures ':' !in g[k] {
      HexPairHasNoColon(g[k]);
    }
    SplitJoin(g, ':');
  }

  // ---------------------------------------------------------------------------
  // Date and time literals

  /** A date literal is its three digit groups put back together with slashes. */
  lemma DateLiteralShape(s: string)
    requires IsDateLiteral(s)
    ensures var p := Split(s, '/'); s == p[0] + "/" + p[1] + "/" + p[2]
  {
    var p := Split(s, '/');
    JoinSplit(s, '/');
    assert p == [p[0], p[1], p[2]];
    Join3(p[0], p[1], p[2], '/');
  }

  /** A time literal is its three digit groups put back together with colons. */
  lemma TimeLiteralShape(s: string)
    requires IsTimeLiteral(s)
    ensures var p := Split(s, ':'); s == p[0] + ":" + p[1] + ":" + p[2]
  {
    var p := Split(s, ':');
    JoinSplit(s, ':');
    assert p == [p[0], p[1], p[2]];
    Join3(p[0], p[1], p[2], ':');
  }

  lemma DigitsHaveNo(s: string, sep: char)
    requires AllDigits(s) && !IsDigit(sep)
    ensures sep !in s
  {
    assert forall j :: 0 <= j < |s| ==> s[j] != sep;
  }

  /** Digit groups of the right widths joined by slashes form a date literal
      made of exactly those groups. */
  lemma DateLiteralOfGroups(y: string, m: string, d: string)
    requires (|y| == 4 || |y| == 2) && AllDigits(y) && IsTwoDigits(m) && IsTwoDigits(d)
    ensures IsDateLiteral(y + "/" + m + "/" + d)
    ensures Split(y + "/" + m + "/" + d, '/') == [y, m, d]
  {
    var p := [y, m, d];
    DigitsHaveNo(y, '/');
    DigitsHaveNo(m, '/');
    DigitsHaveNo(d, '/');
    SplitJoin(p, '/');
    Join3(y, m, d, '/');
  }

  /** Two-digit groups joined by colons form a time literal made of exactly those groups. */
  lemma TimeLiteralOfGroups(h: string, m: string, s: string)
    requires IsTwoDigits(h) && IsTwoDigits(m) && IsTwoDigits(s)
    ensures IsTimeLiteral(h + ":" + m + ":" + s)
    ensures Split(h + ":" + m + ":" + s, ':') == [h, m, s]
  {
    var p := [h, m, s];
    DigitsHaveNo(h, ':');
    DigitsHaveNo(m, ':');
    DigitsHaveNo(s, ':');
    SplitJoin(p, ':');
    Join3(h, m, s, ':');
  }
}
