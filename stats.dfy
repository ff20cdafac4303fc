/**
 * The parser for the reply a memcached node sends to the `stats` command.
 * The reply is split into lines at '\n'; every line that starts with "STAT"
 * is split at single spaces, its second field is the statistic's key and
 * its third field, with the surrounding white space trimmed, its value.
 * Other lines (such as the closing "END") are skipped, entries keep the
 * order of the reply and repeated keys are all kept.
 */
module Stats {
  import opened Wrappers
  import opened Text

  datatype Stat = Stat(key: string, value: string)

  /** A "STAT" line with fewer than three fields, at `index` among the reply's lines. */
  datatype ParseError = MalformedStatLine(index: nat, line: string)

  const StatPrefix := "STAT"

  predicate IsStatLine(line: string) {
    HasPrefix(line, StatPrefix)
  }

  /** The fields of a line: the pieces between single spaces. */
  function Fields(line: string): seq<string> {
    Split(line, ' ')
  }

  /** A line has a key field and a value field. */
  predicate WellFormed(line: string) {
    |Fields(line)| >= 3
  }

  /** The entry of a well-formed line: field 1 as key, field 2 trimmed as value; later fields are ignored. */
  function StatOf(line: string): (stat: Stat)
    requires WellFormed(line)
    ensures ' ' !in stat.key && ' ' !in stat.value
    ensures NoEdgeSpace(stat.value)
  {
    var fields := Fields(line);
    var value := TrimSpace(fields[2]);
    assert ' ' !in value by {
      var i, j :| Trims(fields[2], i, j) && value == fields[2][i..j];
      forall k | 0 <= k < |value| ensures value[k] != ' ' {
        assert value[k] == fields[2][i + k];
      }
    }
    Stat(fields[1], value)
  }

  /** The lines of a reply that start with "STAT", in reply order. */
  function StatLines(lines: seq<string>): (r: seq<string>)
    ensures |r| <= |lines|
    ensures forall k :: 0 <= k < |r| ==> IsStatLine(r[k])
  {
    if lines == [] then []
    else
      var last := lines[|lines| - 1];
      StatLines(lines[..|lines| - 1]) + (if IsStatLine(last) then [last] else [])
  }

  /**
   * What the parsing loop produces for the given lines: the entries in
   * order, or the first "STAT" line that lacks a value field.
   */
  function ParseLines(lines: seq<string>): (r: Result<seq<Stat>, ParseError>)
    ensures r.Success? ==> |r.value| <= |lines|
  {
    if lines == [] then Success([])
    else
      var last := |lines| - 1;
      match ParseLines(lines[..last])
      case Failure(e) => Failure(e)
      case Success(stats) =>
        if !IsStatLine(lines[last]) then Success(stats)
        else if !WellFormed(lines[last]) then Failure(MalformedStatLine(last, lines[last]))
        else Success(stats + [StatOf(lines[last])])
  }

  /** The parse of a whole `stats` reply. */
  function ParseStats(response: string): (r: Result<seq<Stat>, ParseError>)
    ensures r.Success? ==> |r.value| <= Occurrences(response, '\n') + 1
    ensures r.Failure? ==> IsStatLine(r.error.line) && !WellFormed(r.error.line) && '\n' !in r.error.line
  {
    var lines := Split(response, '\n');
    ParseLinesFailure(lines);
    ParseLines(lines)
  }

  // ---------------------------------------------------------------------------
  // What the parse means
  // ---------------------------------------------------------------------------

  ghost predicate AllWellFormed(lines: seq<string>) {
    forall k :: 0 <= k < |lines| ==> WellFormed(lines[k])
  }

  /**
   * The parse succeeds exactly when every "STAT" line has a value field, and
   * then it holds one entry per "STAT" line, in order, each taken from its line.
   */
  lemma {:induction false} ParseLinesSuccess(lines: seq<string>)
    ensures ParseLines(lines).Success? <==> AllWellFormed(StatLines(lines))
    ensures ParseLines(lines).Success? ==>
      var stats, statLines := ParseLines(lines).value, StatLines(lines);
      |stats| == |statLines| && forall k :: 0 <= k < |stats| ==> stats[k] == StatOf(statLines[k])
  {
    if lines != [] {
      var init, last := lines[..|lines| - 1], lines[|lines| - 1];
      ParseLinesSuccess(init);
      var before := StatLines(init);
      assert StatLines(lines) == before + (if IsStatLine(last) then [last] else []);
      if IsStatLine(last) {
        assert StatLines(lines)[|before|] == last;
        assert AllWellFormed(StatLines(lines)) ==> AllWellFormed(before) && WellFormed(last) by {
          if AllWellFormed(StatLines(lines)) {
            forall k | 0 <= k < |before| ensures WellFormed(before[k]) {
              assert StatLines(lines)[k] == before[k];
            }
          }
        }
      } else {
        assert StatLines(lines) == before;
      }
    }
  }

  /**
   * A failed parse names a "STAT" line of the reply that lacks a value field,
   * and every "STAT" line before it is well formed.
   */
  lemma {:induction false} ParseLinesFailure(lines: seq<string>)
    ensures ParseLines(lines).Failure? ==>
      var e := ParseLines(lines).error;
      && e.index < |lines| && lines[e.index] == e.line
      && IsStatLine(e.line) && !WellFormed(e.line)
      && forall k :: 0 <= k < e.index && IsStatLine(lines[k]) ==> WellFormed(lines[k])
  {
    if lines != [] {
      var init := lines[..|lines| - 1];
      ParseLinesFailure(init);
      if ParseLines(init).Success? {
        ParseLinesSuccess(init);
        forall k | 0 <= k < |init| && IsStatLine(init[k]) ensures WellFormed(init[k]) {
          StatLinesMember(init, k);
        }
      }
    }
  }

  /** Every "STAT" line of the input is among StatLines. */
  lemma {:induction false} StatLinesMember(lines: seq<string>, k: nat)
    requires k < |lines| && IsStatLine(lines[k])
    ensures lines[k] in StatLines(lines)
  {
    var init := lines[..|lines| - 1];
    if k < |lines| - 1 {
      assert init[k] == lines[k];
      StatLinesMember(init, k);
    }
  }

  /** Selecting the "STAT" lines of a concatenation keeps each part's lines in order. */
  lemma {:induction false} StatLinesAppend(a: seq<string>, b: seq<string>)
    ensures StatLines(a + b) == StatLines(a) + StatLines(b)
    decreases |b|
  {
    if b == [] {
      assert a + b == a;
    } else {
      var init := b[..|b| - 1];
      assert (a + b)[..|a + b| - 1] == a + init;
      StatLinesAppend(a, init);
    }
  }

  /** A line that does not start with "STAT" contributes nothing, wherever it stands. */
  lemma NonStatLineIgnored(a: seq<string>, line: string, b: seq<string>)
    requires !IsStatLine(line)
    ensures StatLines(a + [line] + b) == StatLines(a + b)
  {
    StatLinesAppend(a + [line], b);
    StatLinesAppend(a, [line]);
    StatLinesAppend(a, b);
    assert [line][..0] == [];
  }

  // ---------------------------------------------------------------------------
  // The parsing loop
  // ---------------------------------------------------------------------------

  /**
   * The loop over a `stats` reply: split it at '\n' and walk the lines in
   * order, appending one entry per "STAT" line and stopping at the first
   * "STAT" line without a value field.
   */
  method GetStats(response: string) returns (r: Result<seq<Stat>, ParseError>)
    ensures r == ParseStats(response)
    ensures r.Success? <==> AllWellFormed(StatLines(Split(response, '\n')))
    ensures r.Success? ==>
      var statLines := StatLines(Split(response, '\n'));
      |r.value| == |statLines| && forall k :: 0 <= k < |r.value| ==> r.value[k] == StatOf(statLines[k])
    ensures r.Failure? ==>
      var lines := Split(response, '\n');
      r.error.index < |lines| && lines[r.error.index] == r.error.line &&
      IsStatLine(r.error.line) && !WellFormed(r.error.line)
  {
    var lines := Split(response, '\n');
    var stats: seq<Stat> := [];
    var i := 0;
    while i < |lines|
      invariant 0 <= i <= |lines|
      invariant ParseLines(lines[..i]) == Success(stats)
    {
      var line := lines[i];
      assert lines[..i + 1][..i] == lines[..i];
      if IsStatLine(line) {
        var fields := Fields(line);
        if |fields| < 3 {
          r := Failure(MalformedStatLine(i, line));
          ParseLinesPrefixFailure(lines, i + 1);
          ParseStatsMeaning(response);
          return;
        }
        stats := stats + [Stat(fields[1], TrimSpace(fields[2]))];
      }
      i := i + 1;
    }
    assert lines[..i] == lines;
    r := Success(stats);
    ParseStatsMeaning(response);
  }

  /**
   * What the parse of a whole reply means: success exactly when every "STAT"
   * line is well formed, with one entry per "STAT" line in order; a failure
   * names a malformed "STAT" line of the reply and its index.
   */
  lemma ParseStatsMeaning(response: string)
    ensures var r, lines := ParseStats(response), Split(response, '\n');
      && (r.Success? <==> AllWellFormed(StatLines(lines)))
      && (r.Success? ==>
            |r.value| == |StatLines(lines)| && forall k :: 0 <= k < |r.value| ==> r.value[k] == StatOf(StatLines(lines)[k]))
      && (r.Failure? ==>
            r.error.index < |lines| && lines[r.error.index] == r.error.line &&
            IsStatLine(r.error.line) && !WellFormed(r.error.line))
  {
    var lines := Split(response, '\n');
    ParseLinesSuccess(lines);
    ParseLinesFailure(lines);
  }

  /** Once a prefix of the lines fails to parse, so does every longer prefix, with the same error. */
  lemma {:induction false} ParseLinesPrefixFailure(lines: seq<string>, n: nat)
    requires n <= |lines|
    requires ParseLines(lines[..n]).Failure?
    ensures ParseLines(lines) == ParseLines(lines[..n])
    decreases |lines| - n
  {
    if n < |lines| {
      assert lines[..n + 1][..n] == lines[..n];
      ParseLinesPrefixFailure(lines, n + 1);
    } else {
      assert lines[..n] == lines;
    }
  }

  // ---------------------------------------------------------------------------
  // Replies
  // ---------------------------------------------------------------------------

  /** A reply with two statistics, closed by END. */
  lemma ExampleReply(reply: string)
    requires reply == "STAT pid 123\r\nSTAT uptime 456\r\nEND\r\n"
    ensures ParseStats(reply) == Success([Stat("pid", "123"), Stat("uptime", "456")])
  {
    var lines := ExampleReplyLines(reply);
    ExampleReplyEntries(lines[0], lines[1], lines[2], lines[3]);
    ExampleReplyParse(lines);
  }

  lemma ExampleReplyEntries(l0: string, l1: string, l2: string, l3: string)
    requires l0 == "STAT pid 123\r" && l1 == "STAT uptime 456\r" && l2 == "END\r" && l3 == ""
    ensures IsStatLine(l0) && WellFormed(l0) && StatOf(l0) == Stat("pid", "123")
    ensures IsStatLine(l1) && WellFormed(l1) && StatOf(l1) == Stat("uptime", "456")
    ensures !IsStatLine(l2) && !IsStatLine(l3)
  {
    ExampleStatLine(l0, "pid", "123");
    ExampleStatLine(l1, "uptime", "456");
    ExampleOtherLines(l2, l3);
  }

  lemma ExampleOtherLines(l2: string, l3: string)
    requires l2 == "END\r" && l3 == ""
    ensures !IsStatLine(l2) && !IsStatLine(l3)
  {
    assert l2[0] == 'E' && StatPrefix[0] == 'S';
  }

  lemma ExampleStatLine(line: string, key: string, value: string)
    requires line == "STAT " + key + " " + value + "\r"
    requires ' ' !in key && value != [] && AllDigits(value)
    ensures IsStatLine(line) && WellFormed(line) && StatOf(line) == Stat(key, value)
  {
    var raw := value + "\r";
    ExampleField(raw, value);
    assert ' ' !in raw by {
      forall k | 0 <= k < |raw| ensures raw[k] != ' ' {
        if k < |value| { assert IsDigit(value[k]); }
      }
    }
    ExampleLine(line, key, raw, value);
  }

  lemma ExampleReplyLines(reply: string) returns (lines: seq<string>)
    requires reply == "STAT pid 123\r\nSTAT uptime 456\r\nEND\r\n"
    ensures lines == ["STAT pid 123\r", "STAT uptime 456\r", "END\r", ""]
    ensures Split(reply, '\n') == lines
  {
    lines := ExampleReplyJoin();
    SplitJoin(lines, '\n');
  }

  lemma ExampleReplyJoin() returns (lines: seq<string>)
    ensures lines == ["STAT pid 123\r", "STAT uptime 456\r", "END\r", ""]
    ensures Join(lines, '\n') == "STAT pid 123\r\nSTAT uptime 456\r\nEND\r\n"
  {
    var l0, l1, l2, l3 := "STAT pid 123\r", "STAT uptime 456\r", "END\r", "";
    lines := [l0, l1, l2, l3];
    JoinCons(l2, [l3], '\n');
    assert [l2, l3] == [l2] + [l3];
    JoinCons(l1, [l2, l3], '\n');
    assert [l1, l2, l3] == [l1] + [l2, l3];
    JoinCons(l0, [l1, l2, l3], '\n');
    assert lines == [l0] + [l1, l2, l3];
  }

  lemma ExampleReplyParse(lines: seq<string>)
    requires |lines| == 4
    requires IsStatLine(lines[0]) && WellFormed(lines[0])
    requires IsStatLine(lines[1]) && WellFormed(lines[1])
    requires !IsStatLine(lines[2]) && !IsStatLine(lines[3])
    ensures ParseLines(lines) == Success([StatOf(lines[0]), StatOf(lines[1])])
  {
    assert lines[..1][..0] == [] && lines[..1][0] == lines[0];
    assert [] + [StatOf(lines[0])] == [StatOf(lines[0])];
    assert ParseLines(lines[..1]) == Success([StatOf(lines[0])]);
    assert lines[..2][..1] == lines[..1] && lines[..2][1] == lines[1];
    assert [StatOf(lines[0])] + [StatOf(lines[1])] == [StatOf(lines[0]), StatOf(lines[1])];
    assert ParseLines(lines[..2]) == Success([StatOf(lines[0]), StatOf(lines[1])]);
    assert lines[..3][..2] == lines[..2] && lines[..3][2] == lines[2];
    assert ParseLines(lines[..3]) == ParseLines(lines[..2]);
    assert lines[..4][..3] == lines[..3] && lines[..4] == lines;
  }

  /** TrimSpace removes the carriage return that ends a reply line. */
  lemma ExampleField(raw: string, value: string)
    requires raw == value + "\r" && value != [] && AllDigits(value)
    ensures TrimSpace(raw) == value
  {
    assert Trims(raw, 0, |value|);
    TrimSpaceUnique(raw, 0, |value|);
  }

  lemma ExampleLine(line: string, key: string, raw: string, value: string)
    requires line == "STAT " + key + " " + raw
    requires ' ' !in key && ' ' !in raw
    requires TrimSpace(raw) == value
    ensures IsStatLine(line) && WellFormed(line) && StatOf(line) == Stat(key, value)
  {
    ExampleFields(line, key, raw);
    assert line[..4] == "STAT";
  }

  lemma ExampleFields(line: string, key: string, raw: string)
    requires line == "STAT " + key + " " + raw
    requires ' ' !in key && ' ' !in raw
    ensures Fields(line) == ["STAT", key, raw]
  {
    JoinCons(key, [raw], ' ');
    assert [key, raw] == [key] + [raw];
    JoinCons("STAT", [key, raw], ' ');
    assert ["STAT", key, raw] == ["STAT"] + [key, raw];
    assert Join(["STAT", key, raw], ' ') == line;
    SplitJoin(["STAT", key, raw], ' ');
  }

  /** A "STAT" line that has a key but no value makes the whole parse fail at that line. */
  lemma ExampleMissingValue(reply: string)
    requires reply == "STAT onlykey\r\n"
    ensures ParseStats(reply) == Failure(MalformedStatLine(0, "STAT onlykey\r"))
  {
    var lines := MissingValueLines(reply);
    MissingValueLine();
    MissingValueParse(lines);
  }

  lemma MissingValueLines(reply: string) returns (lines: seq<string>)
    requires reply == "STAT onlykey\r\n"
    ensures lines == ["STAT onlykey\r", ""]
    ensures Split(reply, '\n') == lines
  {
    lines := ["STAT onlykey\r", ""];
    JoinCons("STAT onlykey\r", [""], '\n');
    assert lines == ["STAT onlykey\r"] + [""];
    assert Join(lines, '\n') == reply;
    SplitJoin(lines, '\n');
  }

  lemma MissingValueParse(lines: seq<string>)
    requires |lines| == 2
    requires IsStatLine(lines[0]) && !WellFormed(lines[0])
    ensures ParseLines(lines) == Failure(MalformedStatLine(0, lines[0]))
  {
    assert lines[..1][..0] == [] && lines[..1][0] == lines[0];
    assert ParseLines(lines[..1]) == Failure(MalformedStatLine(0, lines[0]));
    assert lines[..2][..1] == lines[..1] && lines[..2] == lines;
  }

  /** "STAT onlykey\r" passes the "STAT" prefix test but has only two fields. */
  lemma MissingValueLine()
    ensures IsStatLine("STAT onlykey\r") && |Fields("STAT onlykey\r")| == 2 && !WellFormed("STAT onlykey\r")
  {
    OnlyKeyFields();
    OnlyKeyPrefix();
  }

  lemma OnlyKeyFields()
    ensures Fields("STAT onlykey\r") == ["STAT", "onlykey\r"]
  {
    JoinCons("STAT", ["onlykey\r"], ' ');
    assert ["STAT", "onlykey\r"] == ["STAT"] + ["onlykey\r"];
    assert Join(["STAT", "onlykey\r"], ' ') == "STAT onlykey\r";
    SplitJoin(["STAT", "onlykey\r"], ' ');
  }

  lemma OnlyKeyPrefix()
    ensures IsStatLine("STAT onlykey\r")
  {
    assert "STAT onlykey\r"[..4] == "STAT";
  }
}
