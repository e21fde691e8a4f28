/** What the Postgres volume holds, what the probe container prints about it, and how that print is
    read back from among whatever else was printed. */
module VolumeReport {
  import opened Wrappers
  import opened Text
  import opened Credentials

  const FINGERPRINTED := "fingerprint"
  const UNFINGERPRINTED := "initialised-without-fingerprint"
  const EMPTY := "empty"

  datatype Cause = Exited(code: int, tail: string) | Malformed | Silent

  datatype VolumeState =
    | Empty
    | Unfingerprinted
    | Fingerprinted(salt: string, digest: string)
    | Unreadable(cause: Cause)

  // ---------------------------------------------------------------- reading the report

  /** The lines that hold something, stripped. */
  function Spoken(lines: seq<string>): seq<string> {
    if lines == [] then []
    else (if Strip(lines[0]) == "" then [] else [Strip(lines[0])]) + Spoken(lines[1..])
  }

  function ReadRecord(line: string): VolumeState {
    var (salt, digest) := Partition(line, ":");
    if salt != "" && digest != "" then Fingerprinted(salt, digest) else Unreadable(Malformed)
  }

  /** The first marker decides; a fingerprint marker with no line after it is not one. */
  function Scan(lines: seq<string>): VolumeState {
    if lines == [] then Unreadable(Silent)
    else if lines[0] == FINGERPRINTED && |lines| > 1 then ReadRecord(lines[1])
    else if lines[0] == UNFINGERPRINTED then Unfingerprinted
    else if lines[0] == EMPTY then Empty
    else Scan(lines[1..])
  }

  function LastLine(text: string): string
    requires text != ""
  {
    var lines := SplitLines(text);
    lines[|lines| - 1]
  }

  function FailureTail(stdout: string, stderr: string): string {
    LastLine(if Strip(stderr) != "" then Strip(stderr) else if Strip(stdout) != "" then Strip(stdout) else "no output")
  }

  function Parsed(returncode: int, stdout: string, stderr: string): VolumeState {
    if returncode != 0 then Unreadable(Exited(returncode, FailureTail(stdout, stderr)))
    else Scan(Spoken(SplitLines(stdout)))
  }

  method ParseVolumeReport(returncode: int, stdout: string, stderr: string) returns (state: VolumeState)
    ensures state == Parsed(returncode, stdout, stderr)
  {
    if returncode != 0 {
      return Unreadable(Exited(returncode, FailureTail(stdout, stderr)));
    }
    var lines := Spoken(SplitLines(stdout));
    for index := 0 to |lines|
      invariant Scan(lines) == Scan(lines[index..])
    {
      var line := lines[index];
      if line == FINGERPRINTED && index + 1 < |lines| {
        var (salt, digest) := Partition(lines[index + 1], ":");
        if salt != "" && digest != "" {
          return Fingerprinted(salt, digest);
        }
        return Unreadable(Malformed);
      }
      if line == UNFINGERPRINTED {
        return Unfingerprinted;
      }
      if line == EMPTY {
        return Empty;
      }
    }
    state := Unreadable(Silent);
  }

  // ---------------------------------------------------------------- writing it

  /** The report script, over what is in the data directory: the credentials record, if there is
      one, and whether the directory was initialised. The record has no final newline. */
  function Report(record: Option<string>, initialised: bool): string {
    if record.Some? then FINGERPRINTED + "\n" + record.value
    else if initialised then UNFINGERPRINTED + "\n"
    else EMPTY + "\n"
  }

  /** What the first initialisation records: nothing, if either half came out empty. */
  function InitRecord(hash: Digest, salt: string, user: string, password: string): Option<string> {
    var digest := Fingerprint(hash, salt, user, password);
    if salt != "" && digest != "" then Some(salt + ":" + digest) else None
  }

  predicate Hex(s: string) {
    s != "" && forall i | 0 <= i < |s| :: '0' <= s[i] <= '9' || 'a' <= s[i] <= 'f'
  }

  ghost predicate HexDigest(hash: Digest) {
    forall text :: Hex(hash(text))
  }

  /** The record is the salt, a colon and the digest of salt, user and password with colons between. */
  lemma RecordIsSaltAndDigest(hash: Digest, salt: string, user: string, password: string, record: string)
    ensures InitRecord(hash, salt, user, password) == Some(record) <==>
            var digest := hash(salt + ":" + user + ":" + password);
            salt != "" && digest != "" && record == salt + ":" + digest
  {
  }

  // ---------------------------------------------------------------- what is heard

  function Heard(text: string): seq<string> {
    Spoken(SplitLines(text))
  }

  predicate IsMarker(line: string) {
    line == FINGERPRINTED || line == UNFINGERPRINTED || line == EMPTY
  }

  predicate NoMarks(lines: seq<string>) {
    forall i | 0 <= i < |lines| :: !IsMarker(lines[i])
  }

  /** Whole lines of something else's output, none of them a marker, and at most blanks after them. */
  predicate Narration(noise: string) {
    NoMarks(Heard(Whole(noise))) && AllSpace(Begun(noise))
  }

  lemma {:induction false} SpokenConcat(a: seq<string>, b: seq<string>)
    ensures Spoken(a + b) == Spoken(a) + Spoken(b)
  {
    hide Strip;
    if a == [] {
      assert a + b == b;
    } else {
      SpokenConcat(a[1..], b);
      assert (a + b)[1..] == a[1..] + b;
      Regroup(if Strip(a[0]) == "" then [] else [Strip(a[0])], Spoken(a[1..]), Spoken(b));
    }
  }

  lemma SpokenCons(line: string, rest: seq<string>)
    requires Strip(line) != ""
    ensures Spoken([line] + rest) == [Strip(line)] + Spoken(rest)
  {
    hide Strip;
    assert ([line] + rest)[1..] == rest;
  }

  predicate WordChar(c: char) {
    '0' <= c <= '9' || 'a' <= c <= 'z' || c == '-'
  }

  lemma WordIsPlain(s: string)
    requires forall i | 0 <= i < |s| :: WordChar(s[i])
    ensures NoBreak(s) && Trimmed(s) && ':' !in s
  {
  }

  lemma MarkersArePlain(marker: string)
    requires IsMarker(marker)
    ensures marker != "" && NoBreak(marker) && Trimmed(marker) && ':' !in marker
  {
    WordIsPlain(marker);
  }

  /** A report among other output is heard as its own lines, but for what its first line runs on from. */
  lemma ReportIsHeard(noise: string, marker: string, after: string)
    requires IsMarker(marker)
    ensures Heard(noise + (marker + "\n" + after))
         == Heard(Whole(noise)) + ([LStrip(Begun(noise)) + marker] + Heard(after))
  {
    hide IsMarker, SplitLines, Spoken, NoBreak, Trimmed, Strip, LStrip, IsBreak, AllSpace, Whole, Begun;
    MarkersArePlain(marker);
    WholeAndBegun(noise);
    var whole, begun := Whole(noise), Begun(noise);
    var line := begun + marker;
    StripBefore(begun, marker);
    LineIsBegun(whole, begun, marker, after);
    SplitLinesWhole(whole, line + "\n" + after);
    SplitLinesCons(line, after);
    SpokenConcat(SplitLines(whole), [line] + SplitLines(after));
    SpokenCons(line, SplitLines(after));
  }

  lemma WholeAndBegun(s: string)
    ensures s == Whole(s) + Begun(s) && NoBreak(Begun(s))
    ensures Whole(s) != "" ==> IsBreak(Whole(s)[|Whole(s)| - 1])
  {
    hide IsBreak, LastStart;
    var n := LastStart(s);
    assert s == s[..n] + s[n..];
    assert forall i | 0 <= i < |s| - n :: s[n..][i] == s[n + i];
    assert n > 0 ==> s[..n][n - 1] == s[n - 1];
  }

  lemma LineIsBegun(whole: string, begun: string, marker: string, after: string)
    requires NoBreak(begun) && NoBreak(marker) && marker != ""
    ensures NoBreak(begun + marker)
    ensures whole + begun + (marker + "\n" + after) == whole + (begun + marker + "\n" + after)
    ensures (begun + marker + "\n" + after)[0] != '\n'
  {
    assert (begun + marker)[0] in begun + marker;
  }

  lemma {:induction false} ScanSkips(lines: seq<string>, rest: seq<string>)
    requires NoMarks(lines)
    ensures Scan(lines + rest) == Scan(rest)
  {
    if lines == [] {
      assert lines + rest == rest;
    } else {
      ScanSkips(lines[1..], rest);
      assert !IsMarker(lines[0]);
      assert (lines + rest)[1..] == lines[1..] + rest;
    }
  }

  /** Behind narration, a report is read as if it stood alone. */
  lemma NarrationIsSkipped(noise: string, marker: string, after: string, stderr: string)
    requires Narration(noise) && IsMarker(marker)
    ensures Parsed(0, noise + (marker + "\n" + after), stderr) == Scan([marker] + Heard(after))
  {
    hide Heard, Scan, IsMarker, NoMarks, SplitLines;
    ReportIsHeard(noise, marker, after);
    MarkersArePlain(marker);
    StripBefore(Begun(noise), marker);
    assert "" + marker == marker;
    assert Parsed(0, noise + (marker + "\n" + after), stderr) == Scan(Heard(noise + (marker + "\n" + after))) by {
      ParsedIsScanned(noise + (marker + "\n" + after), stderr);
    }
    ScanSkips(Heard(Whole(noise)), [marker] + Heard(after));
  }

  lemma ParsedIsScanned(stdout: string, stderr: string)
    ensures Parsed(0, stdout, stderr) == Scan(Heard(stdout))
  {
  }

  // ---------------------------------------------------------------- what a record is read as

  /** Two non-empty halves around the first colon. */
  ghost predicate TwoHalves(line: string) {
    exists salt, digest :: IsHalved(line, salt, digest)
  }

  ghost predicate IsHalved(line: string, salt: string, digest: string) {
    line == salt + ":" + digest && salt != "" && ':' !in salt && digest != ""
  }

  lemma RecordIsHalved(line: string)
    ensures forall salt, digest :: ReadRecord(line) == Fingerprinted(salt, digest) <==> IsHalved(line, salt, digest)
    ensures !TwoHalves(line) ==> ReadRecord(line) == Unreadable(Malformed)
  {
    var parts := Partition(line, ":");
    BeforeTheMark(line, ':');
    forall salt, digest | IsHalved(line, salt, digest) ensures parts == (salt, digest) {
      PartitionAt(salt, ':', digest);
    }
    assert ReadRecord(line).Fingerprinted? ==> IsHalved(line, parts.0, parts.1);
  }

  /** Whatever a record file holds, behind any narration: its first line that is not blank decides, and
      a file of blanks is no report. */
  lemma RecordIsHeard(noise: string, record: string, initialised: bool, stderr: string)
    requires Narration(noise)
    ensures Parsed(0, noise + Report(Some(record), initialised), stderr) ==
            if Heard(record) == [] then Unreadable(Silent) else ReadRecord(Heard(record)[0])
  {
    hide Heard, ReadRecord, Parsed, Narration;
    NarrationIsSkipped(noise, FINGERPRINTED, record, stderr);
    assert ([FINGERPRINTED] + Heard(record))[1..] == Heard(record);
  }

  /** Malformed exactly when that line is not two non-empty halves around its first colon. */
  lemma MalformedRecordIsUnreadable(noise: string, record: string, initialised: bool, stderr: string)
    requires Narration(noise)
    ensures Parsed(0, noise + Report(Some(record), initialised), stderr).Unreadable? <==>
            Heard(record) == [] || !TwoHalves(Heard(record)[0])
    ensures forall salt, digest ::
              Parsed(0, noise + Report(Some(record), initialised), stderr) == Fingerprinted(salt, digest) <==>
              Heard(record) != [] && IsHalved(Heard(record)[0], salt, digest)
  {
    hide Heard, Parsed, Narration, Report, ReadRecord, IsHalved;
    RecordIsHeard(noise, record, initialised, stderr);
    if Heard(record) != [] {
      RecordIsHalved(Heard(record)[0]);
      if TwoHalves(Heard(record)[0]) {
        var salt, digest :| IsHalved(Heard(record)[0], salt, digest);
        assert ReadRecord(Heard(record)[0]) == Fingerprinted(salt, digest);
      }
    }
  }

  lemma RecordIsPlain(salt: string, digest: string)
    requires Hex(salt) && Hex(digest)
    ensures var record := salt + ":" + digest;
            && NoBreak(record) && Trimmed(record) && record != "" && Strip(record) == record
            && IsHalved(record, salt, digest)
  {
    WordIsPlain(salt);
    WordIsPlain(digest);
  }

  lemma RecordLine(salt: string, digest: string, after: string)
    requires Hex(salt) && Hex(digest)
    ensures Heard(salt + ":" + digest) == [salt + ":" + digest]
    ensures Heard(salt + ":" + digest + "\n" + after) == [salt + ":" + digest] + Heard(after)
  {
    var record := salt + ":" + digest;
    RecordIsPlain(salt, digest);
    hide SplitLines, Strip, NoBreak, Trimmed, Hex;
    SplitLinesLast(record);
    SplitLinesCons(record, after);
    SpokenCons(record, SplitLines(after));
    SpokenCons(record, []);
    assert [record] + [] == [record];
  }

  /** A recorded fingerprint is read back as recorded, behind any narration. */
  lemma RecordIsRead(noise: string, salt: string, digest: string, initialised: bool, stderr: string)
    requires Narration(noise) && Hex(salt) && Hex(digest)
    ensures Parsed(0, noise + Report(Some(salt + ":" + digest), initialised), stderr) == Fingerprinted(salt, digest)
    ensures Parsed(0, noise + ("fingerprint\n" + (salt + ":" + digest)), stderr) == Fingerprinted(salt, digest)
  {
    assert Report(Some(salt + ":" + digest), initialised) == "fingerprint\n" + (salt + ":" + digest);
    hide Heard, Parsed, Narration, Report, Hex;
    RecordIsPlain(salt, digest);
    RecordLine(salt, digest, "");
    MalformedRecordIsUnreadable(noise, salt + ":" + digest, initialised, stderr);
  }

  /** Without a record the report says which of the other two states the volume is in. */
  lemma AbsenceIsRead(noise: string, initialised: bool, stderr: string)
    requires Narration(noise)
    ensures Parsed(0, noise + Report(None, initialised), stderr) == if initialised then Unfingerprinted else Empty
    ensures Parsed(0, noise + "empty\n", stderr) == Empty
    ensures Parsed(0, noise + "initialised-without-fingerprint\n", stderr) == Unfingerprinted
  {
    hide Heard, Parsed, Narration;
    NarrationIsSkipped(noise, EMPTY, "", stderr);
    NarrationIsSkipped(noise, UNFINGERPRINTED, "", stderr);
    assert EMPTY + "\n" + "" == "empty\n" && UNFINGERPRINTED + "\n" + "" == "initialised-without-fingerprint\n";
    var marker := if initialised then UNFINGERPRINTED else EMPTY;
    NarrationIsSkipped(noise, marker, "", stderr);
    assert marker + "\n" + "" == marker + "\n";
  }

  /** The first marker decides: nothing printed after a report changes how it is read. */
  lemma FirstMarkerDecides(
    noise: string, salt: string, digest: string, initialised: bool, after: string, stderr: string)
    requires Narration(noise) && Hex(salt) && Hex(digest)
    ensures Parsed(0, noise + (Report(Some(salt + ":" + digest), initialised) + "\n" + after), stderr)
         == Fingerprinted(salt, digest)
    ensures Parsed(0, noise + (Report(None, initialised) + after), stderr)
         == if initialised then Unfingerprinted else Empty
  {
    hide Heard, Parsed, Narration, Hex, ReadRecord;
    var record, marker := salt + ":" + digest, if initialised then UNFINGERPRINTED else EMPTY;
    RecordLine(salt, digest, after);
    RecordIsPlain(salt, digest);
    RecordIsHalved(record);
    assert FINGERPRINTED + "\n" + record + "\n" + after == FINGERPRINTED + "\n" + (record + "\n" + after);
    NarrationIsSkipped(noise, FINGERPRINTED, record + "\n" + after, stderr);
    NarrationIsSkipped(noise, marker, after, stderr);
    assert [FINGERPRINTED] + ([record] + Heard(after)) == [FINGERPRINTED, record] + Heard(after);
  }

  /** A failed probe, and output without a marker line, are unreadable: never a match, never a mismatch,
      and never an empty volume. */
  lemma FailuresAreUnreadable(returncode: int, stdout: string, stderr: string)
    ensures returncode != 0 || NoMarks(Heard(stdout)) ==> Parsed(returncode, stdout, stderr).Unreadable?
  {
    if returncode == 0 && NoMarks(Heard(stdout)) {
      ScanSkips(Heard(stdout), []);
      assert Heard(stdout) + [] == Heard(stdout);
    }
  }

  /** A failed probe is told by the last line of what it said on stderr, or else on stdout. */
  lemma FailuresAreTold(returncode: int, stdout: string, stderr: string)
    requires returncode != 0
    ensures var said := if !AllSpace(stderr) then Strip(stderr) else Strip(stdout);
            exists tail :: Parsed(returncode, stdout, stderr) == Unreadable(Exited(returncode, tail))
              && (AllSpace(stderr) && AllSpace(stdout) ==> tail == "no output")
              && (!AllSpace(stderr) || !AllSpace(stdout) ==>
                    SplitLines(said) != [] && tail == SplitLines(said)[|SplitLines(said)| - 1])
  {
    BlankIsStripped(stderr);
    BlankIsStripped(stdout);
    SplitLinesLast("no output");
    hide Strip, AllSpace, SplitLines;
    assert Parsed(returncode, stdout, stderr) == Unreadable(Exited(returncode, FailureTail(stdout, stderr)));
  }

  // ---------------------------------------------------------------- when the report gets through

  /** The other output happens to say what the report would have said. */
  ghost predicate Echoes(lines: seq<string>, record: string) {
    exists i :: 0 <= i && i + 1 < |lines| && NoMarks(lines[..i]) && lines[i] == FINGERPRINTED && lines[i + 1] == record
  }

  /** The exact condition: the volume's own record is what is read if and only if the probe exited 0, and
      what was printed before the report is narration or a report of the very same record. */
  lemma RecordIsReadExactly(
    returncode: int, noise: string, salt: string, digest: string, initialised: bool, stderr: string)
    requires Hex(salt) && Hex(digest)
    ensures Parsed(returncode, noise + Report(Some(salt + ":" + digest), initialised), stderr)
            == Fingerprinted(salt, digest)
       <==> returncode == 0 && (Narration(noise) || Echoes(Heard(Whole(noise)), salt + ":" + digest))
  {
    hide Heard, Hex, Echoes, NoMarks, Scan, FailureTail, SplitLines;
    if returncode == 0 {
      var record := salt + ":" + digest;
      ParsedIsScanned(noise + Report(Some(record), initialised), stderr);
      ReportIsHeard(noise, FINGERPRINTED, record);
      RecordLine(salt, digest, "");
      MarkersArePlain(FINGERPRINTED);
      StripBefore(Begun(noise), FINGERPRINTED);
      ScanTells(Heard(Whole(noise)), LStrip(Begun(noise)), salt, digest);
    }
  }

  lemma {:induction false} ScanTells(lines: seq<string>, begun: string, salt: string, digest: string)
    requires Hex(salt) && Hex(digest)
    ensures Scan(lines + ([begun + FINGERPRINTED] + [salt + ":" + digest])) == Fingerprinted(salt, digest)
       <==> (NoMarks(lines) && begun == "") || Echoes(lines, salt + ":" + digest)
    decreases |lines|
  {
    var record, line := salt + ":" + digest, begun + FINGERPRINTED;
    var all := lines + ([line] + [record]);
    RecordIsPlain(salt, digest);
    assert line[|line| - 1] == 't' && record[|record| - 1] == digest[|digest| - 1];
    hide Hex, ReadRecord;
    if lines == [] {
      assert all == [line, record];
      LastScan(line, salt, digest);
      assert begun == "" <==> |line| == |FINGERPRINTED|;
      assert begun == "" ==> line == FINGERPRINTED;
    } else if lines[0] == FINGERPRINTED {
      RecordIsHalved(all[1]);
      assert !NoMarks(lines);
      NextDecides(lines, record);
      assert all[1] == if |lines| > 1 then lines[1] else line;
    } else {
      ScanTells(lines[1..], begun, salt, digest);
      assert all[1..] == lines[1..] + ([line] + [record]);
      EchoesRest(lines, record);
    }
  }

  lemma LastScan(line: string, salt: string, digest: string)
    requires Hex(salt) && Hex(digest)
    ensures Scan([line, salt + ":" + digest]) == Fingerprinted(salt, digest) <==> line == FINGERPRINTED
    ensures !IsMarker(line) ==> Scan([line, salt + ":" + digest]) == Unreadable(Silent)
  {
    var record := salt + ":" + digest;
    RecordIsPlain(salt, digest);
    hide Hex, ReadRecord;
    RecordIsHalved(record);
    assert ':' in record by { assert record[|salt|] == ':'; }
    assert !IsMarker(record) by { if IsMarker(record) { MarkersArePlain(record); } }
    hide IsMarker;
    ScanOfTwo(line, record);
  }

  lemma ScanOfTwo(line: string, record: string)
    requires !IsMarker(record)
    ensures Scan([line, record]) ==
            if line == FINGERPRINTED then ReadRecord(record)
            else if line == UNFINGERPRINTED then Unfingerprinted
            else if line == EMPTY then Empty
            else Unreadable(Silent)
    ensures IsMarker(line) <==> line == FINGERPRINTED || line == UNFINGERPRINTED || line == EMPTY
  {
    hide ReadRecord;
    var both, one: seq<string> := [line, record], [record];
    assert both[1..] == one && one[1..] == [];
    assert Scan(one) == Unreadable(Silent);
  }

  lemma NextDecides(lines: seq<string>, record: string)
    requires lines != [] && lines[0] == FINGERPRINTED
    ensures Echoes(lines, record) <==> |lines| > 1 && lines[1] == record
  {
    if |lines| > 1 && lines[1] == record {
      assert NoMarks(lines[..0]) && lines[0 + 1] == record;
    }
  }

  lemma EchoesRest(lines: seq<string>, record: string)
    requires lines != [] && lines[0] != FINGERPRINTED
    ensures Echoes(lines, record) <==> !IsMarker(lines[0]) && Echoes(lines[1..], record)
    ensures NoMarks(lines) <==> !IsMarker(lines[0]) && NoMarks(lines[1..])
  {
    var rest := lines[1..];
    if Echoes(lines, record) {
      var i :| 0 <= i && i + 1 < |lines| && NoMarks(lines[..i]) && lines[i] == FINGERPRINTED && lines[i + 1] == record;
      assert lines[..i][0] == lines[0] && rest[..i - 1] == lines[..i][1..];
      assert rest[i - 1] == lines[i] && rest[i - 1 + 1] == lines[i + 1];
    }
    if !IsMarker(lines[0]) && Echoes(rest, record) {
      var i :| 0 <= i && i + 1 < |rest| && NoMarks(rest[..i]) && rest[i] == FINGERPRINTED && rest[i + 1] == record;
      assert lines[..i + 1] == [lines[0]] + rest[..i];
      assert lines[i + 1] == rest[i] && lines[i + 1 + 1] == rest[i + 1];
    }
  }

  /** A line begun and not ended before the report hides it, though the probe exited 0. */
  lemma BegunLineHidesTheReport(noise: string, salt: string, digest: string, initialised: bool, stderr: string)
    requires NoMarks(Heard(Whole(noise))) && !IsMarker(LStrip(Begun(noise)) + FINGERPRINTED)
    requires Hex(salt) && Hex(digest)
    ensures Parsed(0, noise + Report(Some(salt + ":" + digest), initialised), stderr) == Unreadable(Silent)
  {
    hide Heard, Hex, NoMarks, Scan, SplitLines;
    var record, line := salt + ":" + digest, LStrip(Begun(noise)) + FINGERPRINTED;
    ParsedIsScanned(noise + Report(Some(record), initialised), stderr);
    ReportIsHeard(noise, FINGERPRINTED, record);
    RecordLine(salt, digest, "");
    assert [line] + [record] == [line, record];
    ScanSkips(Heard(Whole(noise)), [line, record]);
    LastScan(line, salt, digest);
  }
}
