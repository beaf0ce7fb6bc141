/** The hosts-file parser: text in hosts-file syntax (`<ip> <domain> [domain...]`
    per line) becomes a list of DNS rewrite records. */
module Hosts {
  import opened PyText

  /** One rewrite record as the parser emits it: `{content: ip, name: domain}`. */
  datatype Record = Record(content: string, name: string)

  /** The address check (`ipaddress.ip_address` succeeding) is left abstract:
      every operation below takes it as a parameter. */
  type IpCheck = string -> bool

  /** An address check that, like `ipaddress.ip_address`, rejects anything that
      starts with `#`. */
  ghost predicate RejectsComments(isValidIp: IpCheck) {
    forall s: string :: |s| > 0 && s[0] == '#' ==> !isValidIp(s)
  }

  // ---------------------------------------------------------------------------
  // Specification of parse_records
  // ---------------------------------------------------------------------------

  /** A record as the parser promises it: a valid address as `content`, and
      non-empty, whitespace-free `content` and `name`. */
  predicate WellFormed(isValidIp: IpCheck, r: Record) {
    isValidIp(r.content) && IsToken(r.content) && IsToken(r.name)
  }

  predicate AllWellFormed(isValidIp: IpCheck, rs: seq<Record>) {
    forall k :: 0 <= k < |rs| ==> WellFormed(isValidIp, rs[k])
  }

  /** One record per domain name, all pointing at `ip`, in the given order. */
  function RecordsFor(ip: string, domainNames: seq<string>): seq<Record> {
    if domainNames == [] then []
    else RecordsFor(ip, domainNames[..|domainNames| - 1]) + [Record(ip, domainNames[|domainNames| - 1])]
  }

  /** The k-th record is the k-th domain name paired with `ip`. */
  lemma {:induction false} RecordsForAt(ip: string, domainNames: seq<string>)
    ensures |RecordsFor(ip, domainNames)| == |domainNames|
    ensures forall k :: 0 <= k < |domainNames| ==> RecordsFor(ip, domainNames)[k] == Record(ip, domainNames[k])
  {
    if domainNames != [] {
      var init := domainNames[..|domainNames| - 1];
      RecordsForAt(ip, init);
      forall k | 0 <= k < |init| ensures init[k] == domainNames[k] { }
    }
  }

  /** What a line with tokens `parts` contributes: nothing when it has fewer
      than two tokens or its first token is not an address, else one record
      per further token. */
  function PartsRecords(isValidIp: IpCheck, parts: seq<string>): seq<Record> {
    if |parts| < 2 then []
    else if !isValidIp(parts[0]) then []
    else RecordsFor(parts[0], parts[1..])
  }

  /** A line with fewer than two tokens, or whose first token is not an
      address, contributes nothing; otherwise the k-th record pairs the first
      token with the (k+1)-th. */
  lemma PartsRecordsAt(isValidIp: IpCheck, parts: seq<string>)
    ensures var rs := PartsRecords(isValidIp, parts);
            && (|parts| < 2 || !isValidIp(parts[0]) ==> rs == [])
            && (|parts| >= 2 && isValidIp(parts[0]) ==>
                  |rs| == |parts| - 1 && forall k :: 0 <= k < |rs| ==> rs[k] == Record(parts[0], parts[k + 1]))
  {
    if |parts| >= 2 && isValidIp(parts[0]) {
      RecordsForAt(parts[0], parts[1..]);
    }
  }

  /** What one line contributes: its tokens are those of `line.strip().split()`,
      which are those of `line.split()`, so a line is judged on its
      whitespace-separated tokens alone. */
  function LineRecords(isValidIp: IpCheck, line: string): (rs: seq<Record>)
    ensures rs == PartsRecords(isValidIp, Tokens(line))
  {
    TokensStrip(line);
    PartsRecords(isValidIp, Tokens(Strip(line)))
  }

  /** The contributions of the lines, in line order. */
  function ParseLines(isValidIp: IpCheck, lines: seq<string>): seq<Record> {
    if lines == [] then []
    else LineRecords(isValidIp, lines[0]) + ParseLines(isValidIp, lines[1..])
  }

  /** `parse_records(hosts_content)`: the records of the lines of
      `hosts_content.split("\n")`, in line order (what they promise is stated
      by `ParseSound`). */
  function Parse(isValidIp: IpCheck, hostsContent: string): seq<Record> {
    ParseLines(isValidIp, Split(hostsContent, '\n'))
  }

  // ---------------------------------------------------------------------------
  // parse_records as the source writes it: loops that append to a list
  // ---------------------------------------------------------------------------

  method ParseRecords(isValidIp: IpCheck, hostsContent: string) returns (records: seq<Record>)
    ensures records == Parse(isValidIp, hostsContent)
  {
    records := [];
    var lines := Split(hostsContent, '\n');
    for n := 0 to |lines|
      invariant records == ParseLines(isValidIp, lines[..n])
    {
      ghost var done := records;
      var line := lines[n];
      var parts := Tokens(Strip(line));
      if |parts| >= 2 {
        var ipAddress, domainNames := parts[0], parts[1..];
        if isValidIp(ipAddress) {
          for j := 0 to |domainNames|
            invariant records == done + RecordsFor(ipAddress, domainNames[..j])
          {
            RecordsForPrefix(ipAddress, domainNames, j);
            records := records + [Record(ipAddress, domainNames[j])];
          }
          assert domainNames[..|domainNames|] == domainNames;
        }
      }
      ParseLinesPrefix(isValidIp, lines, n);
    }
    assert lines[..|lines|] == lines;
  }

  lemma RecordsForPrefix(ip: string, domainNames: seq<string>, j: nat)
    requires j < |domainNames|
    ensures RecordsFor(ip, domainNames[..j + 1]) == RecordsFor(ip, domainNames[..j]) + [Record(ip, domainNames[j])]
  {
    assert domainNames[..j + 1][..j] == domainNames[..j];
  }

  lemma ParseLinesPrefix(isValidIp: IpCheck, lines: seq<string>, n: nat)
    requires n < |lines|
    ensures ParseLines(isValidIp, lines[..n + 1]) == ParseLines(isValidIp, lines[..n]) + LineRecords(isValidIp, lines[n])
  {
    assert lines[..n + 1] == lines[..n] + [lines[n]];
    ParseLinesSnoc(isValidIp, lines[..n], lines[n]);
  }

  lemma ParseLinesSnoc(isValidIp: IpCheck, lines: seq<string>, line: string)
    ensures ParseLines(isValidIp, lines + [line]) == ParseLines(isValidIp, lines) + LineRecords(isValidIp, line)
  {
    ParseLinesAppend(isValidIp, lines, [line]);
    assert [line][1..] == [];
  }

  // ---------------------------------------------------------------------------
  // Properties
  // ---------------------------------------------------------------------------

  /** Output order follows line order: the records of consecutive blocks of
      lines are concatenated. */
  lemma {:induction false} ParseLinesAppend(isValidIp: IpCheck, a: seq<string>, b: seq<string>)
    ensures ParseLines(isValidIp, a + b) == ParseLines(isValidIp, a) + ParseLines(isValidIp, b)
  {
    if a == [] {
      assert a + b == b;
    } else {
      assert (a + b)[0] == a[0] && (a + b)[1..] == a[1..] + b;
      ParseLinesAppend(isValidIp, a[1..], b);
    }
  }

  /** Text without a newline is one line. */
  lemma ParseOneLine(isValidIp: IpCheck, line: string)
    requires '\n' !in line
    ensures Parse(isValidIp, line) == LineRecords(isValidIp, line)
  {
    SplitNoSep(line, '\n');
    assert [line][1..] == [];
    assert ParseLines(isValidIp, [line]) == LineRecords(isValidIp, line) + ParseLines(isValidIp, []);
  }

  /** Parsing text laid out line by line gives the lines' contributions in order. */
  lemma ParseJoined(isValidIp: IpCheck, lines: seq<string>)
    requires |lines| >= 1
    requires forall i :: 0 <= i < |lines| ==> '\n' !in lines[i]
    ensures Parse(isValidIp, Join(lines, '\n')) == ParseLines(isValidIp, lines)
  {
    SplitJoin(lines, '\n');
  }

  /** A line with fewer than two tokens contributes no records. */
  lemma ShortLineDropped(isValidIp: IpCheck, line: string)
    requires '\n' !in line
    requires |Tokens(line)| < 2
    ensures Parse(isValidIp, line) == []
  {
    ParseOneLine(isValidIp, line);
  }

  /** A line whose first token is not an address contributes no records. */
  lemma InvalidAddressDropped(isValidIp: IpCheck, line: string)
    requires '\n' !in line
    requires |Tokens(line)| >= 2 && !isValidIp(Tokens(line)[0])
    ensures Parse(isValidIp, line) == []
  {
    ParseOneLine(isValidIp, line);
  }

  /** A comment line (first non-blank character `#`) contributes no records. */
  lemma CommentLineDropped(isValidIp: IpCheck, line: string)
    requires RejectsComments(isValidIp)
    requires '\n' !in line
    requires Strip(line) != [] && Strip(line)[0] == '#'
    ensures Parse(isValidIp, line) == []
  {
    ParseOneLine(isValidIp, line);
    var _, _ := StripParts(line);
    var parts := Tokens(Strip(line));
    assert parts[0][0] == '#';
  }

  /** A line `ip d1 ... dk` with a valid address contributes exactly the k
      records `{content: ip, name: di}`, in order. */
  lemma HostLine(isValidIp: IpCheck, ip: string, domainNames: seq<string>)
    requires IsToken(ip) && isValidIp(ip)
    requires |domainNames| >= 1 && forall i :: 0 <= i < |domainNames| ==> IsToken(domainNames[i])
    ensures var r := Parse(isValidIp, Join([ip] + domainNames, ' '));
            |r| == |domainNames| && forall i :: 0 <= i < |r| ==> r[i] == Record(ip, domainNames[i])
  {
    var parts := [ip] + domainNames;
    assert forall i :: 0 <= i < |parts| ==> IsToken(parts[i]);
    JoinHasNoNewline(parts);
    TokensOfJoin(parts);
    ParseOneLine(isValidIp, Join(parts, ' '));
    assert parts[1..] == domainNames;
    RecordsForAt(ip, domainNames);
  }

  /** Every record of a line is well formed. */
  lemma LineRecordsSound(isValidIp: IpCheck, line: string)
    ensures AllWellFormed(isValidIp, LineRecords(isValidIp, line))
  {
    var parts, r := Tokens(line), LineRecords(isValidIp, line);
    TokensAreTokens(line);
    PartsRecordsAt(isValidIp, parts);
    forall k | 0 <= k < |r| ensures WellFormed(isValidIp, r[k]) {
      assert r[k] == Record(parts[0], parts[k + 1]);
    }
  }

  /** Every record of a sequence of lines is well formed. */
  lemma {:induction false} ParseLinesSound(isValidIp: IpCheck, lines: seq<string>)
    ensures AllWellFormed(isValidIp, ParseLines(isValidIp, lines))
  {
    if lines != [] {
      ParseLinesSound(isValidIp, lines[1..]);
      LineRecordsSound(isValidIp, lines[0]);
      var first, rest := LineRecords(isValidIp, lines[0]), ParseLines(isValidIp, lines[1..]);
      forall k | 0 <= k < |first + rest| ensures WellFormed(isValidIp, (first + rest)[k]) {
        if k < |first| {
          assert (first + rest)[k] == first[k];
        } else {
          assert (first + rest)[k] == rest[k - |first|];
        }
      }
    }
  }

  /** Every record `parse_records` returns is well formed. */
  lemma ParseSound(isValidIp: IpCheck, hostsContent: string)
    ensures AllWellFormed(isValidIp, Parse(isValidIp, hostsContent))
  {
    ParseLinesSound(isValidIp, Split(hostsContent, '\n'));
  }

  /** Joining two texts with a newline concatenates their records. */
  lemma ParseConcat(isValidIp: IpCheck, a: string, b: string)
    ensures Parse(isValidIp, a + "\n" + b) == Parse(isValidIp, a) + Parse(isValidIp, b)
  {
    SplitConcat(a, '\n', b);
    ParseLinesAppend(isValidIp, Split(a, '\n'), Split(b, '\n'));
  }

  /** Blank text in front of the hosts text changes nothing. */
  lemma {:induction false} ParseLeadingSpace(isValidIp: IpCheck, w: string, s: string)
    requires AllSpace(w)
    ensures Parse(isValidIp, w + s) == Parse(isValidIp, s)
  {
    if w == [] {
      assert w + s == s;
    } else {
      var t := w + s;
      assert t[0] == w[0] && t[1..] == w[1..] + s;
      assert AllSpace(w[1..]) by {
        forall i | 0 <= i < |w[1..]| ensures IsSpace(w[1..][i]) { assert w[1..][i] == w[i + 1]; }
      }
      ParseLeadingSpace(isValidIp, w[1..], s);
      var rest := Split(t[1..], '\n');
      if w[0] != '\n' {
        // The blank character only widens the first line.
        var first := [w[0]] + rest[0];
        assert Split(t, '\n') == [first] + rest[1..];
        assert Tokens(first) == Tokens(rest[0]) by {
          assert first == [] + [w[0]] + rest[0];
          TokensSplitAt([], w[0], rest[0]);
        }
        assert rest == [rest[0]] + rest[1..];
      } else {
        // A newline only adds an empty line in front.
        assert Split(t, '\n') == [[]] + rest;
        assert ([[]] + rest)[1..] == rest;
      }
    }
  }

  /** Blank text after the hosts text changes nothing. */
  lemma {:induction false} ParseTrailingSpace(isValidIp: IpCheck, s: string, w: string)
    requires AllSpace(w)
    ensures Parse(isValidIp, s + w) == Parse(isValidIp, s)
    decreases |w|
  {
    if w == [] {
      assert s + w == s;
    } else {
      var c, rest := w[0], w[1..];
      assert AllSpace(rest) by {
        forall i | 0 <= i < |rest| ensures IsSpace(rest[i]) { assert rest[i] == w[i + 1]; }
      }
      assert s + w == (s + [c]) + rest;
      ParseTrailingSpace(isValidIp, s + [c], rest);
      ParseBlankAfter(isValidIp, s, c);
    }
  }

  /** One blank character after the text changes nothing. */
  lemma ParseBlankAfter(isValidIp: IpCheck, t: string, c: char)
    requires IsSpace(c)
    ensures Parse(isValidIp, t + [c]) == Parse(isValidIp, t)
  {
    if c == '\n' {
      ParseNewlineAfter(isValidIp, t);
    } else {
      ParseLineBlankAfter(isValidIp, t, c);
    }
  }

  /** A newline after the text only adds an empty last line. */
  lemma ParseNewlineAfter(isValidIp: IpCheck, t: string)
    ensures Parse(isValidIp, t + "\n") == Parse(isValidIp, t)
  {
    var empty: string := [];
    ParseConcat(isValidIp, t, empty);
    assert t + "\n" + empty == t + "\n";
    assert Split(empty, '\n') == [empty];
    assert ParseLines(isValidIp, [empty]) == [] by {
      assert [empty][1..] == [];
    }
  }

  /** Any other blank character after the text only widens the last line. */
  lemma ParseLineBlankAfter(isValidIp: IpCheck, t: string, c: char)
    requires IsSpace(c) && c != '\n'
    ensures Parse(isValidIp, t + [c]) == Parse(isValidIp, t)
  {
    var parts := Split(t, '\n');
    var init, last := parts[..|parts| - 1], parts[|parts| - 1];
    SplitSnoc(t, '\n', c);
    ParseLinesAppend(isValidIp, init, [last + [c]]);
    ParseLinesAppend(isValidIp, init, [last]);
    assert parts == init + [last];
    TokensTrailingSpace(last, [c]);
    assert [last + [c]][1..] == [] && [last][1..] == [];
  }

  /** `parse_records` ignores surrounding whitespace, so the `.strip()` applied
      to the hosts text before parsing cannot change the result. */
  lemma ParseStrip(isValidIp: IpCheck, s: string)
    ensures Parse(isValidIp, Strip(s)) == Parse(isValidIp, s)
  {
    var lead, trail := StripParts(s);
    var m := Strip(s);
    var rest := m + trail;
    assert s == lead + rest;
    ParseLeadingSpace(isValidIp, lead, rest);
    ParseTrailingSpace(isValidIp, m, trail);
  }

  // ---------------------------------------------------------------------------
  // Concrete lines
  // ---------------------------------------------------------------------------

  // Each example takes its line as a parameter fixed by a `requires`: with the
  // literal written into the `ensures`, the verifier unfolds the parser over
  // every character of it and runs out of resources.

  /** `1.2.3.4 a.example b.example` gives two records for `1.2.3.4`. */
  lemma ExampleTwoDomains(isValidIp: IpCheck, line: string)
    requires isValidIp("1.2.3.4")
    requires line == "1.2.3.4 a.example b.example"
    ensures Parse(isValidIp, line) == [Record("1.2.3.4", "a.example"), Record("1.2.3.4", "b.example")]
  {
    var domainNames := ["a.example", "b.example"];
    var parts := ["1.2.3.4"] + domainNames;
    assert parts[1..][1..] == ["b.example"];
    assert Join(parts[1..], ' ') == "a.example b.example";
    assert Join(parts, ' ') == line;
    HostLine(isValidIp, "1.2.3.4", domainNames);
    var r := Parse(isValidIp, line);
    assert r[0] == Record("1.2.3.4", "a.example") && r[1] == Record("1.2.3.4", "b.example");
  }

  /** `not-an-ip a.example` gives no record. */
  lemma ExampleInvalidAddress(isValidIp: IpCheck, line: string)
    requires !isValidIp("not-an-ip")
    requires line == "not-an-ip a.example"
    ensures Parse(isValidIp, line) == []
  {
    var parts := ["not-an-ip", "a.example"];
    assert parts[1..] == ["a.example"];
    assert Join(parts, ' ') == line;
    assert IsToken(parts[0]) && IsToken(parts[1]);
    TokensOfJoin(parts);
    JoinHasNoNewline(parts);
    InvalidAddressDropped(isValidIp, line);
  }

  /** A `#` comment after the domain names is not recognised: its words
      become records of their own. */
  lemma TrailingCommentKept(isValidIp: IpCheck, line: string)
    requires isValidIp("1.2.3.4")
    requires line == "1.2.3.4 a.example # comment"
    ensures Parse(isValidIp, line)
            == [Record("1.2.3.4", "a.example"), Record("1.2.3.4", "#"), Record("1.2.3.4", "comment")]
  {
    var domainNames := ["a.example", "#", "comment"];
    CommentLineLayout(line, domainNames);
    CommentLineTokens();
    assert forall i :: 0 <= i < |domainNames| ==> IsToken(domainNames[i]);
    HostLine(isValidIp, "1.2.3.4", domainNames);
    var r := Parse(isValidIp, line);
    assert r[0] == Record("1.2.3.4", "a.example") && r[1] == Record("1.2.3.4", "#") && r[2] == Record("1.2.3.4", "comment");
  }

  /** The four tokens of the line of `TrailingCommentKept`. */
  lemma CommentLineTokens()
    ensures IsToken("1.2.3.4") && IsToken("a.example") && IsToken("#") && IsToken("comment")
  {
  }

  /** The line of `TrailingCommentKept` is its four tokens joined by spaces. */
  lemma CommentLineLayout(line: string, domainNames: seq<string>)
    requires line == "1.2.3.4 a.example # comment" && domainNames == ["a.example", "#", "comment"]
    ensures line == Join(["1.2.3.4"] + domainNames, ' ')
  {
    var parts := ["1.2.3.4"] + domainNames;
    assert parts[1..][1..][1..] == ["comment"];
    assert Join(parts[1..][1..], ' ') == "# comment";
    assert Join(parts[1..], ' ') == "a.example # comment";
  }

  // ---------------------------------------------------------------------------
  // The hosts text of an internal run
  // ---------------------------------------------------------------------------

  /** `f"{dns4me_hosts_content}\n{CUSTOM_RECORDS}".strip()`. */
  function FullHostsContent(hostsContent: string, customRecords: string): string {
    Strip(hostsContent + "\n" + customRecords)
  }

  /** The records of an internal run are the downloaded hosts' records
      followed by the custom records' records. */
  lemma FullHostsRecords(isValidIp: IpCheck, hostsContent: string, customRecords: string)
    ensures Parse(isValidIp, FullHostsContent(hostsContent, customRecords))
            == Parse(isValidIp, hostsContent) + Parse(isValidIp, customRecords)
  {
    ParseStrip(isValidIp, hostsContent + "\n" + customRecords);
    ParseConcat(isValidIp, hostsContent, customRecords);
  }
}
