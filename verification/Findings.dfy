/** The advisory gate: what a report gates, what a baseline file names, and the two runs that write
    and compare them. */
module Findings {
  import opened Wrappers
  import opened Text
  import opened Ordering
  import opened Json

  const GATED := {"Critical", "High"}
  const ACCEPT := "--accept"

  datatype Fault = NotAnObject | NoVulnerability | NoId | SeverityNotAString

  datatype Error =
    | NotAReport | NoMatchesKey | MatchesNotAList | BadMatch(index: nat, fault: Fault)
    | Unreadable | BadLine(number: nat)

  // ---------------------------------------------------------------- the shape of an identifier

  predicate Upper(c: char) { 'A' <= c <= 'Z' }

  predicate Digit(c: char) { '0' <= c <= '9' }

  predicate Alnum(c: char) { Upper(c) || Digit(c) || 'a' <= c <= 'z' }

  /** The fields of a text between its dashes: `str.split("-")`. */
  function Fields(s: string): (fields: seq<string>)
    ensures fields != []
  {
    if s == "" then [""]
    else
      var rest := Fields(s[1..]);
      if s[0] == '-' then [""] + rest else [[s[0]] + rest[0]] + rest[1..]
  }

  predicate HeadField(field: string) {
    && field != "" && Upper(field[0])
    && forall i | 0 <= i < |field| :: Upper(field[i]) || Digit(field[i])
  }

  predicate BodyField(field: string) {
    field != "" && forall i | 0 <= i < |field| :: Alnum(field[i])
  }

  /** An advisory identifier: a capital followed by capitals and digits, then one or more fields of
      letters and digits, each behind a dash. */
  predicate Advisory(s: string) {
    && |Fields(s)| > 1
    && HeadField(Fields(s)[0])
    && forall i | 0 < i < |Fields(s)| :: BodyField(Fields(s)[i])
  }

  /** The fields hold no dash, and with dashes between them are the text. */
  lemma {:induction false} FieldsJoin(s: string)
    ensures Join(Fields(s), "-") == s
    ensures forall i | 0 <= i < |Fields(s)| :: '-' !in Fields(s)[i]
  {
    if s != "" {
      FieldsJoin(s[1..]);
      var rest := Fields(s[1..]);
      assert s == [s[0]] + s[1..];
      if s[0] == '-' {
        assert ([""] + rest)[1..] == rest;
      } else {
        assert ([[s[0]] + rest[0]] + rest[1..])[1..] == rest[1..];
        assert |rest| > 1 ==>
            [s[0]] + rest[0] + "-" + Join(rest[1..], "-") == [s[0]] + (rest[0] + "-" + Join(rest[1..], "-"));
      }
    }
  }

  /** Where a left-to-right match of the shape has got to. */
  datatype Place = Start | InHead | AfterDash | InBody | Rejected

  function Advance(place: Place, c: char): Place {
    match place
    case Start => if Upper(c) then InHead else Rejected
    case InHead => if Upper(c) || Digit(c) then InHead else if c == '-' then AfterDash else Rejected
    case AfterDash => if Alnum(c) then InBody else Rejected
    case InBody => if Alnum(c) then InBody else if c == '-' then AfterDash else Rejected
    case Rejected => Rejected
  }

  /** Whether the rest of a text completes a match from a place. */
  predicate Completes(place: Place, rest: string)
    decreases |rest|
  {
    if rest == "" then place == InBody else Completes(Advance(place, rest[0]), rest[1..])
  }

  method Matches(s: string) returns (matched: bool)
    ensures matched <==> Advisory(s)
  {
    var place := Start;
    for i := 0 to |s|
      invariant Completes(place, s[i..]) <==> Completes(Start, s)
    {
      assert s[i..][1..] == s[i + 1..];
      place := Advance(place, s[i]);
    }
    matched := place == InBody;
    MatcherIsTheShape(s);
  }

  predicate BodiesFrom(fields: seq<string>, from: nat) {
    forall i | from <= i < |fields| :: BodyField(fields[i])
  }

  lemma ConsBodies(field: string, fields: seq<string>)
    ensures BodiesFrom([field] + fields, 1) <==> BodiesFrom(fields, 0)
  {
    var all := [field] + fields;
    assert forall i | 0 <= i < |fields| :: all[i + 1] == fields[i];
    assert forall i | 1 <= i < |all| :: all[i] == fields[i - 1];
  }

  predicate AllAlnum(field: string) {
    forall i | 0 <= i < |field| :: Alnum(field[i])
  }

  predicate AllHead(field: string) {
    forall i | 0 <= i < |field| :: Upper(field[i]) || Digit(field[i])
  }

  lemma ConsChar(c: char, field: string)
    ensures AllAlnum([c] + field) <==> Alnum(c) && AllAlnum(field)
    ensures AllHead([c] + field) <==> (Upper(c) || Digit(c)) && AllHead(field)
    ensures BodyField([c] + field) <==> Alnum(c) && AllAlnum(field)
    ensures HeadField([c] + field) <==> Upper(c) && AllHead(field)
  {
    var all := [c] + field;
    assert forall i | 1 <= i < |all| :: all[i] == field[i - 1];
    forall i | 0 <= i < |field|
      ensures AllAlnum(all) ==> Alnum(field[i])
      ensures AllHead(all) ==> Upper(field[i]) || Digit(field[i])
    {
      assert all[i + 1] == field[i];
    }
    assert all[0] == c;
  }

  /** What each place of the matcher still asks of the fields ahead. */
  lemma {:induction false} PlacesMean(s: string)
    ensures Completes(InBody, s) <==> AllAlnum(Fields(s)[0]) && BodiesFrom(Fields(s), 1)
    ensures Completes(AfterDash, s) <==> BodiesFrom(Fields(s), 0)
    ensures Completes(InHead, s) <==> AllHead(Fields(s)[0]) && |Fields(s)| > 1 && BodiesFrom(Fields(s), 1)
    ensures !Completes(Rejected, s)
  {
    if s == "" {
      assert !BodyField(Fields(s)[0]);
    } else {
      PlacesMean(s[1..]);
      hide BodyField, HeadField, AllAlnum, AllHead, BodiesFrom;
      var rest := Fields(s[1..]);
      if s[0] == '-' {
        DashFields(rest);
      } else {
        CharFields(s[0], rest);
      }
    }
  }

  lemma DashFields(rest: seq<string>)
    requires rest != []
    ensures BodiesFrom([""] + rest, 1) <==> BodiesFrom(rest, 0)
    ensures !BodiesFrom([""] + rest, 0)
    ensures AllAlnum(([""] + rest)[0]) && AllHead(([""] + rest)[0])
  {
    ConsBodies("", rest);
    assert !BodyField(([""] + rest)[0]);
  }

  lemma CharFields(c: char, rest: seq<string>)
    requires rest != []
    ensures var fields := [[c] + rest[0]] + rest[1..];
            && (BodiesFrom(fields, 1) <==> BodiesFrom(rest, 1))
            && (BodiesFrom(fields, 0) <==> Alnum(c) && AllAlnum(rest[0]) && BodiesFrom(rest, 1))
            && (AllAlnum(fields[0]) <==> Alnum(c) && AllAlnum(rest[0]))
            && (AllHead(fields[0]) <==> (Upper(c) || Digit(c)) && AllHead(rest[0]))
            && |fields| == |rest|
  {
    var fields := [[c] + rest[0]] + rest[1..];
    ConsChar(c, rest[0]);
    hide BodyField, AllAlnum, AllHead;
    ConsBodies([c] + rest[0], rest[1..]);
    ConsBodies(rest[0], rest[1..]);
    assert [rest[0]] + rest[1..] == rest;
    assert BodiesFrom(fields, 0) <==> BodyField(fields[0]) && BodiesFrom(fields, 1);
  }

  /** The hand-written matcher accepts exactly the shape. */
  lemma MatcherIsTheShape(s: string)
    ensures Completes(Start, s) <==> Advisory(s)
  {
    if s != "" {
      PlacesMean(s[1..]);
      var rest := Fields(s[1..]);
      if s[0] != '-' {
        ConsChar(s[0], rest[0]);
        CharFields(s[0], rest);
        assert Fields(s) == [[s[0]] + rest[0]] + rest[1..];
      } else {
        assert !HeadField(Fields(s)[0]);
      }
    } else {
      assert Fields(s) == [""];
    }
  }

  // ---------------------------------------------------------------- the report

  datatype Finding = Gates(id: string) | Passes | Refused(fault: Fault)

  function Weigh(entry: Value): Finding {
    if !entry.Object? then Refused(NotAnObject)
    else
      var vulnerability := Get(entry.members, "vulnerability");
      if !vulnerability.Object? then Refused(NoVulnerability)
      else
        var id, severity := Get(vulnerability.members, "id"), Get(vulnerability.members, "severity");
        if !id.String? || id.text == "" then Refused(NoId)
        else if !severity.String? then Refused(SeverityNotAString)
        else if severity.text in GATED then Gates(id.text)
        else Passes
  }

  function MatchesOf(document: Value): Result<seq<Value>, Error> {
    if !document.Object? then Err(NotAReport)
    else match Get(document.members, "matches")
      case Null => Err(NoMatchesKey)
      case List(items) => Ok(items)
      case _ => Err(MatchesNotAList)
  }

  /** The matches of a report are its list of them, all of it. */
  lemma MatchesAreTheList(document: Value, items: seq<Value>)
    ensures MatchesOf(document) == Ok(items) <==>
            document.Object? && "matches" in document.members && document.members["matches"] == List(items)
  {
  }

  function FirstRefused(entries: seq<Value>): (n: nat)
    ensures n <= |entries| && (forall i | 0 <= i < n :: !Weigh(entries[i]).Refused?)
    ensures n < |entries| ==> Weigh(entries[n]).Refused?
  {
    if entries == [] || Weigh(entries[0]).Refused? then 0 else 1 + FirstRefused(entries[1..])
  }

  function IdsOf(entries: seq<Value>): set<string> {
    set entry | entry in entries && Weigh(entry).Gates? :: Weigh(entry).id
  }

  /** The gated identifiers of a report. */
  function Gated(document: Value): Result<set<string>, Error> {
    match MatchesOf(document)
    case Err(error) => Err(error)
    case Ok(entries) =>
      var bad := FirstRefused(entries);
      if bad < |entries| then Err(BadMatch(bad, Weigh(entries[bad]).fault)) else Ok(IdsOf(entries))
  }

  method Advisories(document: Value) returns (r: Result<seq<string>, Error>)
    ensures r.Err? <==> Gated(document).Err?
    ensures r.Err? ==> r.error == Gated(document).error
    ensures r.Ok? ==> r.value == SortedOf(Gated(document).value)
  {
    var matches := MatchesOf(document);
    if matches.Err? {
      return Err(matches.error);
    }
    var entries := matches.value;
    hide Weigh;
    var found: set<string> := {};
    for index := 0 to |entries|
      invariant found == IdsOf(entries[..index])
      invariant forall i | 0 <= i < index :: !Weigh(entries[i]).Refused?
    {
      assert entries[..index + 1] == entries[..index] + [entries[index]];
      match Weigh(entries[index])
      case Refused(fault) => return Err(BadMatch(index, fault));
      case Gates(id) => found := found + {id};
      case Passes =>
    }
    assert entries[..|entries|] == entries;
    var list := Sorted(found);
    r := Ok(list);
  }

  /** A match of the report, by identifier and severity. */
  ghost predicate Matched(entry: Value, id: string, severity: string) {
    && entry.Object?
    && var vulnerability := Get(entry.members, "vulnerability");
       vulnerability.Object?
       && Get(vulnerability.members, "id") == String(id) && Get(vulnerability.members, "severity") == String(severity)
  }

  ghost predicate CanBeWeighed(entry: Value) {
    exists id, severity :: id != "" && Matched(entry, id, severity)
  }

  /** A report is gated when every match has an identifier and a severity; and what is gated is then
      exactly the identifiers matched at Critical or High. */
  lemma GatedIsExact(document: Value)
    requires MatchesOf(document).Ok?
    ensures Gated(document).Ok? <==> forall entry | entry in MatchesOf(document).value :: CanBeWeighed(entry)
    ensures Gated(document).Ok? ==> forall id :: id in Gated(document).value <==>
              exists entry :: entry in MatchesOf(document).value
                  && (Matched(entry, id, "Critical") || Matched(entry, id, "High"))
  {
    var entries := MatchesOf(document).value;
    forall entry ensures !Weigh(entry).Refused? <==> CanBeWeighed(entry) {
      WeighedIsMatched(entry);
    }
    forall entry, id | !Weigh(entry).Refused?
      ensures Weigh(entry) == Gates(id) <==> Matched(entry, id, "Critical") || Matched(entry, id, "High")
    {
      GatesExactly(entry, id);
    }
    hide Weigh, Matched, CanBeWeighed;
    var bad := FirstRefused(entries);
    if bad < |entries| {
      assert entries[bad] in entries;
    }
    if Gated(document).Ok? {
      forall entry | entry in entries ensures !Weigh(entry).Refused? {
        var i :| 0 <= i < |entries| && entries[i] == entry;
      }
      forall id ensures id in Gated(document).value <==> exists entry :: entry in entries && Weigh(entry) == Gates(id) {
      }
    }
  }

  lemma WeighedIsMatched(entry: Value)
    ensures !Weigh(entry).Refused? <==> CanBeWeighed(entry)
  {
    if !Weigh(entry).Refused? {
      var vulnerability := Get(entry.members, "vulnerability").members;
      assert Matched(entry, Get(vulnerability, "id").text, Get(vulnerability, "severity").text);
    }
  }

  /** Otherwise the first match that has not is refused, for what it lacks. */
  lemma FirstMatchIsRefused(document: Value, items: seq<Value>)
    requires MatchesOf(document) == Ok(items) && Gated(document).Err?
    ensures exists n, fault :: 0 <= n < |items| && Gated(document) == Err(BadMatch(n, fault))
              && !CanBeWeighed(items[n]) && Lacks(items[n], fault)
              && forall i | 0 <= i < n :: CanBeWeighed(items[i])
  {
    forall entry ensures !Weigh(entry).Refused? <==> CanBeWeighed(entry) {
      WeighedIsMatched(entry);
    }
    var n := FirstRefused(items);
    assert Lacks(items[n], Weigh(items[n]).fault);
    hide Weigh, CanBeWeighed, Lacks;
  }

  /** The first thing a match lacks. */
  predicate Lacks(entry: Value, fault: Fault) {
    if !entry.Object? then fault == NotAnObject
    else if !Get(entry.members, "vulnerability").Object? then fault == NoVulnerability
    else
      var id := Get(Get(entry.members, "vulnerability").members, "id");
      fault == if id.String? && id.text != "" then SeverityNotAString else NoId
  }

  lemma GatesExactly(entry: Value, id: string)
    requires !Weigh(entry).Refused?
    ensures Weigh(entry) == Gates(id) <==> Matched(entry, id, "Critical") || Matched(entry, id, "High")
  {
  }

  // ---------------------------------------------------------------- the baseline file

  predicate IsRemark(entry: string) {
    entry == "" || entry[0] == '#'
  }

  /** A line a baseline may hold: a remark, or an identifier. */
  predicate Readable(line: string) {
    IsRemark(Strip(line)) || Advisory(Strip(line))
  }

  /** The index of the first line that is neither, or the number of lines. */
  function FirstBad(lines: seq<string>): (n: nat)
    ensures n <= |lines| && forall i | 0 <= i < n :: Readable(lines[i])
    ensures n < |lines| ==> !Readable(lines[n])
  {
    hide Readable;
    if lines == [] || !Readable(lines[0]) then 0 else 1 + FirstBad(lines[1..])
  }

  function EntriesOf(lines: seq<string>): set<string> {
    set line | line in lines && !IsRemark(Strip(line)) :: Strip(line)
  }

  /** The identifiers a baseline file names; a missing file is an error and not an empty set. */
  function BaselineOf(file: Option<string>): Result<set<string>, Error> {
    if file.None? then Err(Unreadable)
    else
      var lines := SplitLines(file.value);
      var bad := FirstBad(lines);
      if bad < |lines| then Err(BadLine(bad + 1)) else Ok(EntriesOf(lines))
  }

  /** As the file is read: white space at its ends does not count, nor does a blank or a comment. */
  predicate Mentions(line: string, id: string) {
    Strip(line) == id && id != "" && id[0] != '#'
  }

  /** A baseline is readable when there is one and every line that says something holds an identifier;
      and it is then what those lines say. Otherwise the first line that does not is named. */
  lemma BaselineIsExact(text: string)
    ensures BaselineOf(None) == Err(Unreadable)
    ensures BaselineOf(Some(text)).Ok? <==>
            forall line, id | line in SplitLines(text) && Mentions(line, id) :: Advisory(id)
    ensures BaselineOf(Some(text)).Ok? ==>
              forall id :: id in BaselineOf(Some(text)).value <==>
                exists line :: line in SplitLines(text) && Mentions(line, id)
    ensures BaselineOf(Some(text)).Err? ==>
              exists i, id :: 0 <= i < |SplitLines(text)| && Mentions(SplitLines(text)[i], id) && !Advisory(id)
                && BaselineOf(Some(text)) == Err(BadLine(i + 1))
                && forall k, other | 0 <= k < i && Mentions(SplitLines(text)[k], other) :: Advisory(other)
  {
    hide Advisory, Strip, SplitLines;
    var lines := SplitLines(text);
    forall line ensures Readable(line) <==> forall id | Mentions(line, id) :: Advisory(id) {
      assert !IsRemark(Strip(line)) ==> Mentions(line, Strip(line));
    }
    hide Readable;
    var bad := FirstBad(lines);
    if bad < |lines| {
      assert lines[bad] in lines;
      var id :| Mentions(lines[bad], id) && !Advisory(id);
    } else {
      forall line | line in lines ensures Readable(line) {
        var i :| 0 <= i < |lines| && lines[i] == line;
      }
    }
  }

  method Baseline(file: Option<string>) returns (r: Result<set<string>, Error>)
    ensures r == BaselineOf(file)
    ensures file == None ==> r == Err(Unreadable)
  {
    hide Advisory, Strip, SplitLines;
    if file.None? {
      return Err(Unreadable);
    }
    var found: set<string> := {};
    var lines := SplitLines(file.value);
    for i := 0 to |lines|
      invariant found == EntriesOf(lines[..i])
      invariant forall k | 0 <= k < i :: Readable(lines[k])
    {
      assert lines[..i + 1] == lines[..i] + [lines[i]];
      var entry := Strip(lines[i]);
      if IsRemark(entry) {
        continue;
      }
      var matched := Matches(entry);
      if !matched {
        return Err(BadLine(i + 1));
      }
      found := found + {entry};
    }
    assert lines[..|lines|] == lines;
    r := Ok(found);
  }

  /** A written baseline: the header's lines, then one identifier a line. */
  function Written(header: seq<string>, ids: seq<string>): string {
    Unlines(header) + Join(ids, "\n") + "\n"
  }

  /** A header of comment lines. */
  predicate CommentLines(header: seq<string>) {
    EveryNoBreak(header) && forall i | 0 <= i < |header| :: header[i] != "" && header[i][0] == '#'
  }

  lemma CommentIsRemark(line: string)
    requires line != "" && line[0] == '#'
    ensures IsRemark(Strip(line))
  {
    assert LStrip(line) == line;
    var r := Strip(line);
    assert r != "" ==> r[0] == line[0];
  }

  lemma AlnumIsPlain(c: char)
    requires Alnum(c) || c == '-'
    ensures !IsSpace(c) && !IsBreak(c) && c != '#'
  {
  }

  /** Every character of an identifier is a letter, a digit or a dash. */
  lemma {:induction false} BodyChars(s: string)
    requires forall i | 0 <= i < |Fields(s)| :: AllAlnum(Fields(s)[i])
    ensures forall i | 0 <= i < |s| :: Alnum(s[i]) || s[i] == '-'
  {
    if s != "" {
      var rest := Fields(s[1..]);
      var fields := Fields(s);
      if s[0] == '-' {
        assert forall i | 0 <= i < |rest| :: fields[i + 1] == rest[i];
      } else {
        ConsChar(s[0], rest[0]);
        assert forall i | 1 <= i < |rest| :: fields[i] == rest[i];
        assert AllAlnum(fields[0]);
      }
      BodyChars(s[1..]);
      assert forall i | 1 <= i < |s| :: s[i] == s[1..][i - 1];
    }
  }

  lemma AdvisoryIsPlain(s: string)
    requires Advisory(s)
    ensures s != "" && NoBreak(s) && Trimmed(s) && !IsRemark(s)
  {
    forall i | 0 <= i < |Fields(s)| ensures AllAlnum(Fields(s)[i]) {
      assert i > 0 ==> BodyField(Fields(s)[i]);
    }
    BodyChars(s);
    assert s != "" by { assert Fields("") == [""]; }
    hide Alnum, IsSpace, IsBreak;
    forall i | 0 <= i < |s| ensures !IsSpace(s[i]) && !IsBreak(s[i]) && s[i] != '#' {
      AlnumIsPlain(s[i]);
    }
  }

  lemma {:induction false} RemarksVanish(header: seq<string>, lines: seq<string>)
    requires forall i | 0 <= i < |header| :: IsRemark(Strip(header[i]))
    ensures EntriesOf(header + lines) == EntriesOf(lines)
    ensures FirstBad(header + lines) == |header + lines| <==> FirstBad(lines) == |lines|
  {
    RemarksAreNoEntries(header, lines);
    hide Strip, Advisory, IsRemark, EntriesOf;
    assert forall i | 0 <= i < |header| :: Readable(header[i]);
    hide Readable;
    if header == [] {
      assert header + lines == lines;
    } else {
      RemarksVanish(header[1..], lines);
      Unshift(header, lines);
      assert (header + lines)[1..] == header[1..] + lines;
    }
  }

  lemma RemarksAreNoEntries(header: seq<string>, lines: seq<string>)
    requires forall i | 0 <= i < |header| :: IsRemark(Strip(header[i]))
    ensures EntriesOf(header + lines) == EntriesOf(lines)
  {
    hide Strip, IsRemark;
    forall line | line in header ensures IsRemark(Strip(line)) {
      var i :| 0 <= i < |header| && header[i] == line;
    }
  }

  /** What was written reads back: for identifiers of the right shape the baseline is exactly the
      set that was written, the header having vanished. */
  lemma WrittenReadsBack(header: seq<string>, ids: seq<string>)
    requires CommentLines(header) && forall i | 0 <= i < |ids| :: Advisory(ids[i])
    ensures BaselineOf(Some(Written(header, ids))) == Ok(Elements(ids))
  {
    WrittenLines(header, ids);
    var tail := if ids == [] then [""] else ids;
    forall i | 0 <= i < |header| ensures IsRemark(Strip(header[i])) {
      CommentIsRemark(header[i]);
    }
    RemarksVanish(header, tail);
    TailReads(ids, tail);
  }

  lemma TailReads(ids: seq<string>, tail: seq<string>)
    requires tail == if ids == [] then [""] else ids
    requires forall i | 0 <= i < |ids| :: Advisory(ids[i])
    ensures FirstBad(tail) == |tail| && EntriesOf(tail) == Elements(ids)
  {
    hide Advisory, Strip, IsRemark;
    forall i | 0 <= i < |tail|
      ensures ids == [] ==> IsRemark(Strip(tail[i]))
      ensures ids != [] ==> Strip(tail[i]) == ids[i] && !IsRemark(ids[i])
    {
      if ids == [] {
        EmptyIsRemark();
      } else {
        AdvisoryIsPlain(ids[i]);
      }
    }
    forall id | id in ids ensures id in EntriesOf(tail) {
      var i :| 0 <= i < |ids| && ids[i] == id;
      assert tail[i] in tail;
    }
  }

  lemma EmptyIsRemark()
    ensures IsRemark(Strip("")) && NoBreak("")
  {
  }

  lemma WrittenLines(header: seq<string>, ids: seq<string>)
    requires CommentLines(header) && forall i | 0 <= i < |ids| :: Advisory(ids[i])
    ensures SplitLines(Written(header, ids)) == header + if ids == [] then [""] else ids
  {
    forall i | 0 <= i < |ids| ensures NoBreak(ids[i]) {
      AdvisoryIsPlain(ids[i]);
    }
    hide SplitLines, Advisory, NoBreak;
    var tail := Join(ids, "\n") + "\n";
    assert Written(header, ids) == Unlines(header) + tail;
    UnlinesPrefix(header, tail);
    if ids == [] {
      assert tail == "" + "\n" + "";
      EmptyIsRemark();
      SplitLinesCons("", "");
      SplitLinesEmpty();
    } else {
      JoinIsUnlines(ids);
      UnlinesReadBack(ids);
    }
  }

  // ---------------------------------------------------------------- the two runs

  type Decoder = string -> Option<Value>

  class Disk {
    var files: map<string, string>

    constructor (files: map<string, string>)
      ensures this.files == files
    {
      this.files := files;
    }
  }

  function FileAt(files: map<string, string>, path: string): Option<string> {
    if path in files then Some(files[path]) else None
  }

  function Kept(argument: string): seq<string> {
    if argument == ACCEPT then [] else [argument]
  }

  function Positional(argv: seq<string>): seq<string> {
    if argv == [] then []
    else Kept(argv[0]) + Positional(argv[1..])
  }

  /** The positional arguments are the arguments without the flag, in the order written. */
  lemma PositionalOne(argument: string, argv: seq<string>)
    ensures Positional([argument] + argv)
         == if argument == "--accept" then Positional(argv) else [argument] + Positional(argv)
  {
    assert ([argument] + argv)[1..] == argv;
  }

  lemma {:induction false} PositionalIsInOrder(before: seq<string>, after: seq<string>)
    ensures Positional(before + after) == Positional(before) + Positional(after)
  {
    if before == [] {
      assert before + after == after;
    } else {
      hide Positional;
      var first, rest := before[0], before[1..];
      PositionalIsInOrder(rest, after);
      PositionalOne(first, rest);
      PositionalOne(first, rest + after);
      Unshift(before, after);
      Regroup([first], Positional(rest), Positional(after));
    }
  }

  lemma {:induction false} PositionalCount(argv: seq<string>)
    ensures |Positional(argv)| == |argv| - multiset(argv)["--accept"]
  {
    if argv != [] {
      PositionalCount(argv[1..]);
      assert argv == [argv[0]] + argv[1..];
    }
  }

  lemma PositionalPair(known: string, report: string)
    requires known != "--accept" && report != "--accept"
    ensures Positional([known, report]) == [known, report]
    ensures Positional(["--accept", known, report]) == [known, report]
    ensures Positional([known, "--accept", report]) == [known, report]
    ensures Positional([known, report, "--accept"]) == [known, report]
  {
    PositionalTriple("--accept", known, report);
    PositionalTriple(known, "--accept", report);
    PositionalTriple(known, report, "--accept");
  }

  lemma PositionalTriple(a: string, b: string, c: string)
    ensures Positional([b, c]) == Kept(b) + Kept(c)
    ensures Positional([a, b, c]) == Kept(a) + (Kept(b) + Kept(c))
  {
    assert [a, b, c][1..] == [b, c] && [b, c][1..] == [c];
    assert Positional([c]) == Kept(c) by { assert [c][1..] == []; }
  }

  /** The flag in each of its three places. */
  predicate FlagAt(argv: seq<string>, place: nat) {
    |argv| == 3 && forall i | 0 <= i < 3 :: argv[i] == "--accept" <==> i == place
  }

  lemma PathsMean(argv: seq<string>)
    ensures |argv| == 2 && argv[0] != "--accept" && argv[1] != "--accept" ==> Positional(argv) == [argv[0], argv[1]]
    ensures FlagAt(argv, 0) ==> Positional(argv) == [argv[1], argv[2]]
    ensures FlagAt(argv, 1) ==> Positional(argv) == [argv[0], argv[2]]
    ensures FlagAt(argv, 2) ==> Positional(argv) == [argv[0], argv[1]]
  {
    hide Positional;
    if |argv| == 2 {
      assert argv == [argv[0], argv[1]];
      PositionalTriple("", argv[0], argv[1]);
    } else if |argv| == 3 {
      assert argv == [argv[0], argv[1], argv[2]];
      PositionalTriple(argv[0], argv[1], argv[2]);
    }
  }

  /** A report passes over a baseline when it is gated and nothing gated is unknown. */
  predicate Passing(document: Value, known: set<string>) {
    Gated(document).Ok? && Gated(document).value <= known
  }

  /** A scan passes when the report and the baseline are readable and the one passes over the other. */
  predicate ScanPasses(decode: Decoder, files: map<string, string>, known: string, report: string) {
    && known in files && BaselineOf(Some(files[known])).Ok?
    && report in files && decode(files[report]).Some?
    && Passing(decode(files[report]).value, BaselineOf(Some(files[known])).value)
  }

  /** What an accept leaves: a written baseline if the report can be gated, and nothing otherwise. */
  ghost predicate Accepts(
    decode: Decoder, header: seq<string>, before: map<string, string>, known: string, report: string,
    status: int, after: map<string, string>)
  {
    if report in before && decode(before[report]).Some? && Gated(decode(before[report]).value).Ok? then
      var ids := Gated(decode(before[report]).value).value;
      status == 0 && after == before[known := Written(header, SortedOf(ids))]
    else
      status == 1 && after == before
  }

  /** With other than two positional arguments: a usage error. Without the flag: a scan, which writes
      nothing. With the flag, in any of the three places: an accept. */
  method Run(disk: Disk, decode: Decoder, header: seq<string>, argv: seq<string>) returns (status: int)
    modifies disk
    ensures |argv| - multiset(argv)["--accept"] != 2 ==> status == 2 && disk.files == old(disk.files)
    ensures |argv| == 2 && argv[0] != "--accept" && argv[1] != "--accept" ==>
              && status == (if ScanPasses(decode, old(disk.files), argv[0], argv[1]) then 0 else 1)
              && disk.files == old(disk.files)
    ensures FlagAt(argv, 0) ==> Accepts(decode, header, old(disk.files), argv[1], argv[2], status, disk.files)
    ensures FlagAt(argv, 1) ==> Accepts(decode, header, old(disk.files), argv[0], argv[2], status, disk.files)
    ensures FlagAt(argv, 2) ==> Accepts(decode, header, old(disk.files), argv[0], argv[1], status, disk.files)
    ensures |Positional(argv)| == 2 && "--accept" in argv ==>
              Accepts(decode, header, old(disk.files), Positional(argv)[0], Positional(argv)[1], status, disk.files)
  {
    var paths := Positional(argv);
    PathsMean(argv);
    PositionalCount(argv);
    hide Gated, BaselineOf, Positional;
    if |paths| != 2 {
      return 2;
    }
    var report := FileAt(disk.files, paths[1]);
    if report.None? || decode(report.value).None? {
      return 1;
    }
    var current := Advisories(decode(report.value).value);
    if current.Err? {
      return 1;
    }
    if ACCEPT in argv {
      disk.files := disk.files[paths[0] := Written(header, current.value)];
      return 0;
    }
    var known := Baseline(FileAt(disk.files, paths[0]));
    if known.Err? {
      return 1;
    }
    var unknown := Elements(current.value) - known.value;
    NothingUnknown(Elements(current.value), known.value);
    status := if unknown != {} then 1 else 0;
  }

  lemma NothingUnknown(current: set<string>, known: set<string>)
    ensures current - known == {} <==> current <= known
  {
    if current - known == {} {
      forall id | id in current ensures id in known {
        assert id !in current - known;
      }
    }
  }

  // ---------------------------------------------------------------- what the gate guarantees

  /** Accepting a report and scanning the same report passes exactly when every gated identifier
      has the shape of one. Whatever else an identifier holds, the file cannot carry it. */
  lemma AcceptThenScan(
    decode: Decoder, header: seq<string>, files: map<string, string>, known: string, report: string,
    accepted: map<string, string>)
    requires known != report && CommentLines(header)
    requires Accepts(decode, header, files, known, report, 0, accepted)
    ensures ScanPasses(decode, accepted, known, report) <==>
            forall id | id in Gated(decode(files[report]).value).value :: Advisory(id)
  {
    hide Gated, Advisory, CommentLines, Written;
    var ids := Gated(decode(files[report]).value).value;
    var list := SortedOf(ids);
    if forall id | id in ids :: Advisory(id) {
      forall i | 0 <= i < |list| ensures Advisory(list[i]) {
        assert list[i] in Elements(list);
      }
      WrittenReadsBack(header, list);
    }
    if ScanPasses(decode, accepted, known, report) {
      forall id | id in ids ensures Advisory(id) {
        BaselinesHoldAdvisories(Some(accepted[known]), id);
      }
    }
  }

  /** Which of its matches gate an identifier, and whether every one of them can be weighed. */
  ghost predicate GatesIn(items: seq<Value>, id: string) {
    exists entry :: entry in items && (Matched(entry, id, "Critical") || Matched(entry, id, "High"))
  }

  ghost predicate Weighable(items: seq<Value>) {
    forall entry | entry in items :: CanBeWeighed(entry)
  }

  /** A scan passes when both files can be read and every identifier the report gates is on a line of the
      baseline. */
  lemma ScanPassesExactly(
    decode: Decoder, files: map<string, string>, known: string, report: string, items: seq<Value>)
    requires known in files && report in files && decode(files[report]).Some?
    requires var document := decode(files[report]).value;
             document.Object? && "matches" in document.members && document.members["matches"] == List(items)
    ensures ScanPasses(decode, files, known, report) <==>
            && Weighable(items)
            && (forall line, id | line in SplitLines(files[known]) && Mentions(line, id) :: Advisory(id))
            && (forall id | GatesIn(items, id) ::
                  exists line :: line in SplitLines(files[known]) && Mentions(line, id))
  {
    hide Matched, Mentions, Advisory, Gated, BaselineOf, SplitLines;
    var document := decode(files[report]).value;
    MatchesAreTheList(document, items);
    GatedIsExact(document);
    BaselineIsExact(files[known]);
    if Gated(document).Ok? {
      forall id ensures id in Gated(document).value <==> GatesIn(items, id) {
      }
    }
  }

  lemma ScanNeedsFiles(decode: Decoder, files: map<string, string>, known: string, report: string)
    requires ScanPasses(decode, files, known, report)
    ensures known in files && report in files && decode(files[report]).Some?
            && exists items :: decode(files[report]).value.Object?
                 && Get(decode(files[report]).value.members, "matches") == List(items)
  {
    hide BaselineOf;
    var document := decode(files[report]).value;
    assert Get(document.members, "matches") == List(MatchesOf(document).value);
  }

  lemma BaselinesHoldAdvisories(file: Option<string>, id: string)
    requires BaselineOf(file).Ok? && id in BaselineOf(file).value
    ensures Advisory(id)
  {
    hide Advisory, Strip, SplitLines;
    var lines := SplitLines(file.value);
    var line :| line in lines && !IsRemark(Strip(line)) && Strip(line) == id;
    var i :| 0 <= i < |lines| && lines[i] == line;
  }

  /** Dropping matches never turns a pass into a failure; so neither order nor repeats matter. */
  lemma FewerMatchesStillPass(more: Value, fewer: Value, known: set<string>)
    requires MatchesOf(more).Ok? && MatchesOf(fewer).Ok?
    requires forall entry | entry in MatchesOf(fewer).value :: entry in MatchesOf(more).value
    requires Passing(more, known)
    ensures Passing(fewer, known)
  {
    hide Weigh;
    var a, b := MatchesOf(more).value, MatchesOf(fewer).value;
    forall i | 0 <= i < |b| ensures !Weigh(b[i]).Refused? {
      assert b[i] in a;
    }
    assert IdsOf(b) <= IdsOf(a);
  }

  lemma OrderAndRepeatsDoNotMatter(a: Value, b: Value, known: set<string>)
    requires MatchesOf(a).Ok? && MatchesOf(b).Ok?
    requires forall entry :: entry in MatchesOf(a).value <==> entry in MatchesOf(b).value
    ensures Passing(a, known) <==> Passing(b, known)
  {
    if Passing(a, known) {
      FewerMatchesStillPass(a, b, known);
    }
    if Passing(b, known) {
      FewerMatchesStillPass(b, a, known);
    }
  }

  /** A match rescored below the gate never turns a pass into a failure. */
  lemma LoweringStillPasses(
    document: map<string, Value>, entries: seq<Value>, i: nat, lowered: Value, known: set<string>)
    requires i < |entries| && Weigh(entries[i]).Gates? && Weigh(lowered).Passes?
    requires Passing(Object(document["matches" := List(entries)]), known)
    ensures Passing(Object(document["matches" := List(entries[i := lowered])]), known)
  {
    hide Weigh;
    var after := entries[i := lowered];
    forall k | 0 <= k < |after| ensures !Weigh(after[k]).Refused? {
      assert k != i ==> after[k] == entries[k];
    }
    assert IdsOf(after) <= IdsOf(entries) by {
      forall id | id in IdsOf(after) ensures id in IdsOf(entries) {
        var k :| 0 <= k < |after| && Weigh(after[k]).Gates? && Weigh(after[k]).id == id;
        assert after[k] == entries[k] && entries[k] in entries;
      }
    }
  }

  /** A swap cannot hide: if as many identifiers are gated as are known and they are not the same
      ones, the gate fails. */
  lemma SwapsFail(document: Value, known: set<string>)
    requires Gated(document).Ok? && |Gated(document).value| == |known| && Gated(document).value != known
    ensures !Passing(document, known)
  {
    var current := Gated(document).value;
    if current <= known {
      SubsetOfSameSize(current, known);
    }
  }

  lemma SubsetOfSameSize(some: set<string>, all: set<string>)
    requires some <= all && |some| == |all|
    ensures some == all
  {
    assert |all - some| == |all| - |some|;
  }
}
