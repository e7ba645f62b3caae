/**
 * Reading the device list: the names in the output of
 * `bluetoothctl paired-devices`, whose lines look like
 * "Device <address> <name>".
 */
module Devices {
  import opened Wrappers
  import opened Text

  /** `line.split(' ', 2)` and its third part, when the line splits into more than two parts. */
  function NameField(line: string): Option<string> {
    var parts := SplitN(line, " ", 2);
    if |parts| > 2 then Some(parts[2]) else None
  }

  /** The line holds at least two spaces. */
  predicate TwoSpaces(line: string) {
    exists i, j :: 0 <= i < j < |line| && line[i] == ' ' && line[j] == ' '
  }

  /** `"Device" in line`. */
  predicate MentionsDevice(line: string) {
    Contains(line, "Device")
  }

  /** What one line of the listing contributes: its name field when it mentions "Device". */
  function LineDevice(line: string): seq<string> {
    if MentionsDevice(line) then
      match NameField(line)
      case Some(name) => [name]
      case None => []
    else []
  }

  /** The names the listed lines contribute, in line order. */
  function DevicesOfLines(lines: seq<string>): seq<string> {
    if lines == [] then []
    else DevicesOfLines(lines[..|lines| - 1]) + LineDevice(lines[|lines| - 1])
  }

  /** The device list for a command that exited with `returnCode` and printed `stdout`. */
  function DeviceNames(returnCode: int, stdout: string): seq<string> {
    if returnCode != 0 then [] else DevicesOfLines(SplitLines(stdout))
  }

  /** `get_connected_devices` once the command has run: the loop over the output's lines. */
  method ParseDevices(returnCode: int, stdout: string) returns (devices: seq<string>)
    ensures returnCode != 0 ==> devices == []
    ensures devices == DeviceNames(returnCode, stdout)
  {
    devices := [];
    if returnCode == 0 {
      var lines := SplitLines(stdout);
      for i := 0 to |lines|
        invariant devices == DevicesOfLines(lines[..i])
      {
        var line := lines[i];
        if MentionsDevice(line) {
          var parts := SplitN(line, " ", 2);
          if |parts| > 2 {
            devices := devices + [parts[2]];
          }
        }
        assert lines[..i + 1][..i] == lines[..i];
      }
      assert lines[..|lines|] == lines;
    }
  }

  /** A line has a name field exactly when it holds two spaces. */
  lemma NameFieldIff(line: string)
    ensures NameField(line).Some? <==> TwoSpaces(line)
  {
    var parts := SplitN(line, " ", 2);
    SplitNMeaning(line, " ", 2);
    if |parts| == 3 {
      assert Join(parts[2..], " ") == parts[2];
      assert Join(parts[1..], " ") == parts[1] + " " + parts[2];
      assert line == parts[0] + " " + parts[1] + " " + parts[2];
      var i, j := |parts[0]|, |parts[0]| + 1 + |parts[1]|;
      assert line[i] == ' ' && line[j] == ' ';
    } else if |parts| == 1 {
      ContainsChar(parts[0], ' ');
      assert line == parts[0];
    } else {
      ContainsChar(parts[0], ' ');
      ContainsChar(parts[1], ' ');
      assert Join(parts[1..], " ") == parts[1];
      assert line == parts[0] + " " + parts[1];
      assert forall i :: 0 <= i < |parts[0]| ==> line[i] == parts[0][i];
      assert forall i :: |parts[0]| < i < |line| ==> line[i] == parts[1][i - |parts[0]| - 1];
    }
  }

  /** The name field of "<a> <b> <name>" is `name` when `a` and `b` hold no space. */
  lemma NameFieldOf(a: string, b: string, name: string)
    requires ' ' !in a && ' ' !in b
    ensures NameField(a + " " + b + " " + name) == Some(name)
  {
    var line := a + " " + b + " " + name;
    var rest := b + " " + name;
    FindFirstChar(line, ' ', |a|);
    assert line[|a| + 1..] == rest;
    FindFirstChar(rest, ' ', |b|);
    assert rest[|b| + 1..] == name;
    assert line[..|a|] == a;
    assert rest[..|b|] == b;
    assert SplitN(rest, " ", 1) == [b] + SplitN(name, " ", 0);
    assert SplitN(line, " ", 2) == [a] + SplitN(rest, " ", 1);
  }

  /** A name is listed exactly when some line mentions "Device" and carries it as its name field. */
  lemma {:induction false} DevicesOfLinesMembers(lines: seq<string>, x: string)
    ensures x in DevicesOfLines(lines) <==>
            exists k :: 0 <= k < |lines| && MentionsDevice(lines[k]) && NameField(lines[k]) == Some(x)
  {
    if lines != [] {
      var n := |lines|;
      var init := lines[..n - 1];
      DevicesOfLinesMembers(init, x);
      LineDeviceMember(lines[n - 1], x);
      if k :| 0 <= k < n && MentionsDevice(lines[k]) && NameField(lines[k]) == Some(x) {
        if k < n - 1 {
          assert init[k] == lines[k];
        }
      }
      if k :| 0 <= k < n - 1 && MentionsDevice(init[k]) && NameField(init[k]) == Some(x) {
        assert init[k] == lines[k];
      }
    }
  }

  /** A line contributes `x` exactly when it mentions "Device" and carries `x` as its name field. */
  lemma LineDeviceMember(line: string, x: string)
    ensures x in LineDevice(line) <==> MentionsDevice(line) && NameField(line) == Some(x)
  {
  }

  /** The listing line `bluetoothctl` prints for a paired device. */
  function DeviceLine(address: string, name: string): string {
    "Device " + address + " " + name
  }

  function Listing(entries: seq<(string, string)>): (lines: seq<string>)
    ensures |lines| == |entries|
  {
    seq(|entries|, k requires 0 <= k < |entries| => DeviceLine(entries[k].0, entries[k].1))
  }

  function Names(entries: seq<(string, string)>): (names: seq<string>)
    ensures |names| == |entries|
  {
    seq(|entries|, k requires 0 <= k < |entries| => entries[k].1)
  }

  predicate WellFormedEntry(e: (string, string)) {
    ' ' !in e.0 && NoLineBreak(e.0) && NoLineBreak(e.1)
  }

  /**
   * Parsing a successful listing of paired devices gives back every device
   * name, in listing order and with repetitions kept.
   */
  lemma ListingRoundTrip(entries: seq<(string, string)>)
    requires forall k :: 0 <= k < |entries| ==> WellFormedEntry(entries[k])
    ensures DeviceNames(0, JoinLines(Listing(entries))) == Names(entries)
  {
    var lines := Listing(entries);
    forall k | 0 <= k < |lines| ensures NoLineBreak(lines[k]) {
      var a, n := entries[k].0, entries[k].1;
      assert lines[k] == "Device " + a + " " + n;
      forall j | 0 <= j < |lines[k]| ensures !IsLineBreak(lines[k][j]) {
        if j < 7 + |a| + 1 {
          assert j < 7 || (7 <= j < 7 + |a| && lines[k][j] == a[j - 7]) || lines[k][j] == ' ';
        } else {
          assert lines[k][j] == n[j - 8 - |a|];
        }
      }
    }
    SplitJoinLines(lines);
    ListedDevices(entries);
  }

  lemma ListedDevices(entries: seq<(string, string)>)
    requires forall k :: 0 <= k < |entries| ==> WellFormedEntry(entries[k])
    ensures DevicesOfLines(Listing(entries)) == Names(entries)
  {
    var lines, names := Listing(entries), Names(entries);
    forall k | 0 <= k < |entries| ensures LineDevice(lines[k]) == [names[k]] {
      LineDeviceOf(entries[k].0, entries[k].1);
    }
    OneDevicePerLine(lines, names);
  }

  /** When every line contributes exactly one name, the list is those names in line order. */
  lemma {:induction false} OneDevicePerLine(lines: seq<string>, names: seq<string>)
    requires |lines| == |names|
    requires forall k :: 0 <= k < |lines| ==> LineDevice(lines[k]) == [names[k]]
    ensures DevicesOfLines(lines) == names
  {
    if lines != [] {
      var n := |lines|;
      var ls, ns := lines[..n - 1], names[..n - 1];
      OneDevicePerPrefix(lines, names, ls, ns);
      OneDevicePerLine(ls, ns);
      LastLine(lines, ns, names[n - 1]);
      assert names == ns + [names[n - 1]];
    }
  }

  /** The condition of `OneDevicePerLine` holds for the lines but the last. */
  lemma OneDevicePerPrefix(lines: seq<string>, names: seq<string>, ls: seq<string>, ns: seq<string>)
    requires 0 < |lines| == |names|
    requires forall k :: 0 <= k < |lines| ==> LineDevice(lines[k]) == [names[k]]
    requires ls == lines[..|lines| - 1] && ns == names[..|names| - 1]
    ensures |ls| == |ns| && forall k :: 0 <= k < |ls| ==> LineDevice(ls[k]) == [ns[k]]
  {
    forall k | 0 <= k < |ls| ensures LineDevice(ls[k]) == [ns[k]] {
      assert ls[k] == lines[k] && ns[k] == names[k];
    }
  }

  /** The names of all lines are those of the lines but the last, then the last line's name. */
  lemma LastLine(lines: seq<string>, init: seq<string>, name: string)
    requires 0 < |lines| && DevicesOfLines(lines[..|lines| - 1]) == init
    requires LineDevice(lines[|lines| - 1]) == [name]
    ensures DevicesOfLines(lines) == init + [name]
  {
  }

  /** A listing line for an address without spaces contributes its device name. */
  lemma LineDeviceOf(address: string, name: string)
    requires ' ' !in address
    ensures LineDevice(DeviceLine(address, name)) == [name]
  {
    var line := DeviceLine(address, name);
    assert line[0..6] == "Device";
    assert OccursAt(line, "Device", 0);
    assert MentionsDevice(line);
    NameFieldOf("Device", address, name);
    assert "Device" + " " + address + " " + name == line;
  }
}
