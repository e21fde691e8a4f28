/** Reading a Dockerfile: comments and blank lines dropped, lines joined where a backslash continues
    them. What the joining means is a grouping of the lines that are kept. */
module Dockerfile {
  import opened Text
  import opened Wrappers

  /** A line that is kept, with its number in the file. */
  datatype Line = Line(number: nat, text: string)

  datatype Instruction = Instruction(directive: string, argument: string, start: nat)

  predicate Continues(text: string) {
    text != "" && text[|text| - 1] == '\\'
  }

  predicate Dropped(text: string) {
    text == "" || text[0] == '#'
  }

  /** The stripped lines that are neither blank nor a comment, numbered from `number`. */
  function Kept(lines: seq<string>, number: nat): seq<Line> {
    if lines == [] then []
    else (if Dropped(Strip(lines[0])) then [] else [Line(number, Strip(lines[0]))]) + Kept(lines[1..], number + 1)
  }

  // ---------------------------------------------------------------- grouping

  /** The first line that does not continue. */
  function GroupEnd(kept: seq<Line>): (end: Option<nat>)
    ensures end.Some? ==> end.value < |kept| && !Continues(kept[end.value].text)
    ensures forall i | 0 <= i < if end.Some? then end.value else |kept| :: Continues(kept[i].text)
  {
    if kept == [] then None
    else if !Continues(kept[0].text) then Some(0)
    else
      match GroupEnd(kept[1..])
      case None => None
      case Some(k) => Some(k + 1)
  }

  function Groups(kept: seq<Line>): seq<seq<Line>>
    decreases |kept|
  {
    match GroupEnd(kept)
    case None => []
    case Some(k) => [kept[..k + 1]] + Groups(kept[k + 1..])
  }

  /** What a line gives to its instruction. */
  function Piece(text: string): string {
    if Continues(text) then RStrip(text[..|text| - 1]) + " " else text
  }

  function Joined(group: seq<Line>): string {
    if group == [] then "" else Piece(group[0].text) + Joined(group[1..])
  }

  function Read(group: seq<Line>, upper: string -> string): Instruction
    requires group != []
  {
    var (directive, argument) := Partition(Joined(group), " ");
    Instruction(upper(directive), Strip(argument), group[0].number)
  }

  function ReadAll(kept: seq<Line>, upper: string -> string): seq<Instruction>
    decreases |kept|
  {
    match GroupEnd(kept)
    case None => []
    case Some(k) => [Read(kept[..k + 1], upper)] + ReadAll(kept[k + 1..], upper)
  }

  method Instructions(text: string, upper: string -> string) returns (joined: seq<Instruction>)
    ensures joined == ReadAll(Kept(SplitLines(text), 1), upper)
  {
    hide SplitLines, Kept, ReadAll, Strip, RStrip, Partition, Joined, Resume;
    var lines := SplitLines(text);
    joined := [];
    NothingReadYet(lines, upper);
    var pending, start := "", 0;
    ghost var open: seq<Line> := [];
    for i := 0 to |lines|
      invariant Dangles(open)
      invariant pending == Joined(open) && (pending == "" <==> open == [])
      invariant open != [] ==> start == open[0].number
      invariant ReadAll(Kept(lines, 1), upper) == Resume(joined, open, lines, i, upper)
    {
      var line := Strip(lines[i]);
      ResumeStep(joined, open, lines, i, upper);
      if Dropped(line) {
        continue;
      }
      if pending == "" {
        start := i + 1;
      }
      JoinedSnoc(open, Line(i + 1, line));
      assert Piece(line) != "";
      pending := pending + if Continues(line) then RStrip(line[..|line| - 1]) + " " else line;
      open := open + [Line(i + 1, line)];
      assert |pending| > 0;
      if Continues(line) {
        continue;
      }
      var (directive, argument) := Partition(pending, " ");
      joined := joined + [Instruction(upper(directive), Strip(argument), start)];
      pending := "";
      open := [];
      assert Joined([]) == "" by { JoinedOfNone(); }
    }
    NothingLeft(joined, open, lines, upper);
  }

  /** What will have been read at the end, from what is read before line `i` and what is pending. */
  ghost function Resume(
    joined: seq<Instruction>, open: seq<Line>, lines: seq<string>, i: nat, upper: string -> string): seq<Instruction>
    requires i <= |lines|
  {
    joined + ReadAll(open + Kept(lines[i..], i + 1), upper)
  }

  lemma NothingReadYet(lines: seq<string>, upper: string -> string)
    ensures Joined([]) == "" && ReadAll(Kept(lines, 1), upper) == Resume([], [], lines, 0, upper)
  {
    hide ReadAll;
    assert lines[0..] == lines && [] + Kept(lines, 1) == Kept(lines, 1);
    assert [] + ReadAll(Kept(lines, 1), upper) == ReadAll(Kept(lines, 1), upper);
  }

  lemma NothingLeft(joined: seq<Instruction>, open: seq<Line>, lines: seq<string>, upper: string -> string)
    requires Dangles(open)
    ensures Resume(joined, open, lines, |lines|, upper) == joined
  {
    assert lines[|lines|..] == [] && open + [] == open;
    NothingCloses(open);
    assert joined + [] == joined;
  }

  lemma JoinedOfNone()
    ensures Joined([]) == ""
  {
  }

  /** What one line does to it. */
  lemma ResumeStep(joined: seq<Instruction>, open: seq<Line>, lines: seq<string>, i: nat, upper: string -> string)
    requires i < |lines| && Dangles(open)
    ensures var line, more := Strip(lines[i]), open + [Line(i + 1, Strip(lines[i]))];
            Resume(joined, open, lines, i, upper) ==
            if Dropped(line) then Resume(joined, open, lines, i + 1, upper)
            else if Continues(line) then Resume(joined, more, lines, i + 1, upper)
            else Resume(joined + [Read(more, upper)], [], lines, i + 1, upper)
    ensures Continues(Strip(lines[i])) ==> Dangles(open + [Line(i + 1, Strip(lines[i]))])
  {
    hide Strip, Dropped, Kept, ReadAll, Read;
    KeptStep(lines, i, open);
    var line, more := Strip(lines[i]), open + [Line(i + 1, Strip(lines[i]))];
    if !Dropped(line) && !Continues(line) {
      var rest := Kept(lines[i + 1..], i + 2);
      CloseGroup(more, rest, upper);
      assert [] + rest == rest;
      assert joined + ([Read(more, upper)] + ReadAll(rest, upper))
          == joined + [Read(more, upper)] + ReadAll(rest, upper);
    }
  }

  lemma KeptStep(lines: seq<string>, i: nat, open: seq<Line>)
    requires i < |lines|
    ensures var rest := Kept(lines[i + 1..], i + 2);
            open + Kept(lines[i..], i + 1) ==
            if Dropped(Strip(lines[i])) then open + rest else open + [Line(i + 1, Strip(lines[i]))] + rest
  {
    hide Strip, Dropped;
    assert lines[i..][1..] == lines[i + 1..];
    var rest := Kept(lines[i + 1..], i + 2);
    if Dropped(Strip(lines[i])) {
      assert [] + rest == rest;
    } else {
      var x := [Line(i + 1, Strip(lines[i]))];
      assert open + (x + rest) == open + x + rest;
    }
  }

  lemma {:induction false} JoinedSnoc(group: seq<Line>, last: Line)
    ensures Joined(group + [last]) == Joined(group) + Piece(last.text)
  {
    hide Piece;
    if group == [] {
      assert [] + [last] == [last] && Joined([last][1..]) == "";
      assert Piece(last.text) + "" == Piece(last.text);
    } else {
      var rest := group[1..];
      JoinedSnoc(rest, last);
      assert (group + [last])[1..] == rest + [last];
      assert Piece(group[0].text) + (Joined(rest) + Piece(last.text))
          == Piece(group[0].text) + Joined(rest) + Piece(last.text);
    }
  }

  lemma {:induction false} EndAt(kept: seq<Line>, k: nat)
    requires k < |kept| && !Continues(kept[k].text)
    requires forall i | 0 <= i < k :: Continues(kept[i].text)
    ensures GroupEnd(kept) == Some(k)
  {
    hide Continues;
    if k > 0 {
      EndAt(kept[1..], k - 1);
    }
  }

  lemma NothingCloses(kept: seq<Line>)
    requires forall i | 0 <= i < |kept| :: Continues(kept[i].text)
    ensures GroupEnd(kept) == None
  {
  }

  lemma CloseGroup(group: seq<Line>, rest: seq<Line>, upper: string -> string)
    requires IsRun(group)
    ensures ReadAll(group + rest, upper) == [Read(group, upper)] + ReadAll(rest, upper)
  {
    EndAt(group + rest, |group| - 1);
    assert (group + rest)[..|group|] == group && (group + rest)[|group|..] == rest;
  }

  // ---------------------------------------------------------------- what the groups are

  function Flatten(groups: seq<seq<Line>>): seq<Line> {
    if groups == [] then [] else groups[0] + Flatten(groups[1..])
  }

  /** A run of continued lines and the line that ends it. */
  ghost predicate IsRun(group: seq<Line>) {
    && group != [] && !Continues(group[|group| - 1].text)
    && forall i | 0 <= i < |group| - 1 :: Continues(group[i].text)
  }

  ghost predicate AllRuns(groups: seq<seq<Line>>) {
    forall i | 0 <= i < |groups| :: IsRun(groups[i])
  }

  ghost predicate Dangles(tail: seq<Line>) {
    forall i | 0 <= i < |tail| :: Continues(tail[i].text)
  }

  /** The grouping is the only way to cut the kept lines into runs with a dangling rest. */
  lemma {:induction false} GroupingIsUnique(groups: seq<seq<Line>>, tail: seq<Line>)
    requires AllRuns(groups) && Dangles(tail)
    ensures Groups(Flatten(groups) + tail) == groups
  {
    if groups == [] {
      assert [] + tail == tail;
      NothingCloses(tail);
    } else {
      hide Groups, IsRun;
      GroupingIsUnique(groups[1..], tail);
      GroupsOfRun(groups[0], Flatten(groups[1..]) + tail);
      assert Flatten(groups) + tail == groups[0] + (Flatten(groups[1..]) + tail);
      assert [groups[0]] + groups[1..] == groups;
    }
  }

  lemma GroupsOfRun(group: seq<Line>, rest: seq<Line>)
    requires IsRun(group)
    ensures Groups(group + rest) == [group] + Groups(rest)
  {
    EndAt(group + rest, |group| - 1);
    assert (group + rest)[..|group|] == group && (group + rest)[|group|..] == rest;
  }

  /** The lines after the last group. */
  function Tail(kept: seq<Line>): seq<Line>
    decreases |kept|
  {
    match GroupEnd(kept)
    case None => kept
    case Some(k) => Tail(kept[k + 1..])
  }

  /** And it does cut them so: nothing kept is lost but a dangling end. */
  lemma {:induction false} GroupingCutsTheLines(kept: seq<Line>)
    ensures AllRuns(Groups(kept)) && Dangles(Tail(kept))
    ensures Flatten(Groups(kept)) + Tail(kept) == kept
    decreases |kept|
  {
    hide Continues, Flatten, Groups, AllRuns, GroupEnd, IsRun;
    GroupsStep(kept);
    match GroupEnd(kept)
    case None =>
      assert AllRuns([]) by { RunsNil(); }
      assert [] + kept == kept;
    case Some(k) =>
      FirstIsRun(kept);
      GroupingCutsTheLines(kept[k + 1..]);
      RunsCons(kept[..k + 1], Groups(kept[k + 1..]));
      Reassemble(kept, k, Flatten(Groups(kept[k + 1..])), Tail(kept));
  }

  lemma FirstIsRun(kept: seq<Line>)
    requires GroupEnd(kept).Some?
    ensures IsRun(kept[..GroupEnd(kept).value + 1])
  {
    hide Continues;
  }

  lemma Reassemble(kept: seq<Line>, k: nat, middle: seq<Line>, tail: seq<Line>)
    requires k < |kept| && middle + tail == kept[k + 1..]
    ensures kept[..k + 1] + middle + tail == kept
  {
    assert kept[..k + 1] + middle + tail == kept[..k + 1] + (middle + tail);
  }

  lemma RunsNil()
    ensures AllRuns([])
  {
  }

  lemma RunsCons(first: seq<Line>, groups: seq<seq<Line>>)
    requires IsRun(first) && AllRuns(groups)
    ensures AllRuns([first] + groups)
  {
  }

  lemma GroupsStep(kept: seq<Line>)
    ensures GroupEnd(kept).None? ==> Groups(kept) == [] && Flatten(Groups(kept)) == []
    ensures GroupEnd(kept).Some? ==>
              var k := GroupEnd(kept).value;
              && Groups(kept) == [kept[..k + 1]] + Groups(kept[k + 1..])
              && Flatten(Groups(kept)) == kept[..k + 1] + Flatten(Groups(kept[k + 1..]))
  {
    hide GroupEnd;
    if GroupEnd(kept).Some? {
      var k := GroupEnd(kept).value;
      FlattenCons(kept[..k + 1], Groups(kept[k + 1..]));
    }
  }

  lemma FlattenCons(group: seq<Line>, groups: seq<seq<Line>>)
    ensures Flatten([group] + groups) == group + Flatten(groups)
  {
    assert ([group] + groups)[1..] == groups;
  }

  ghost predicate ByGroup(all: seq<Instruction>, groups: seq<seq<Line>>, upper: string -> string) {
    |all| == |groups| && forall i | 0 <= i < |groups| :: groups[i] != [] && all[i] == Read(groups[i], upper)
  }

  lemma ByGroupCons(group: seq<Line>, all: seq<Instruction>, groups: seq<seq<Line>>, upper: string -> string)
    requires group != [] && ByGroup(all, groups, upper)
    ensures ByGroup([Read(group, upper)] + all, [group] + groups, upper)
  {
    hide Read;
  }

  /** Reading a file is reading each of its groups, in order. */
  lemma {:induction false} ReadingIsByGroup(kept: seq<Line>, upper: string -> string)
    ensures ByGroup(ReadAll(kept, upper), Groups(kept), upper)
    decreases |kept|
  {
    hide Read, Groups, GroupEnd, Flatten, Continues;
    GroupsStep(kept);
    if GroupEnd(kept).Some? {
      hide ByGroup;
      var k := GroupEnd(kept).value;
      ReadingIsByGroup(kept[k + 1..], upper);
      ByGroupCons(kept[..k + 1], ReadAll(kept[k + 1..], upper), Groups(kept[k + 1..]), upper);
    }
  }

  /** A continuation with no line to end it yields nothing, whatever was read before it. */
  lemma DanglingYieldsNothing(groups: seq<seq<Line>>, tail: seq<Line>, upper: string -> string)
    requires AllRuns(groups) && Dangles(tail)
    ensures ReadAll(Flatten(groups) + tail, upper) == ReadAll(Flatten(groups), upper)
  {
    GroupingIsUnique(groups, tail);
    GroupingIsUnique(groups, []);
    assert Flatten(groups) + [] == Flatten(groups);
    ReadingIsByGroup(Flatten(groups) + tail, upper);
    ReadingIsByGroup(Flatten(groups), upper);
  }

  // ---------------------------------------------------------------- start lines

  ghost predicate Numbered(kept: seq<Line>, from: nat, below: nat) {
    && (forall i | 0 <= i < |kept| :: from <= kept[i].number < below)
    && forall i, j | 0 <= i < j < |kept| :: kept[i].number < kept[j].number
  }

  lemma {:induction false} KeptIsNumbered(lines: seq<string>, number: nat)
    ensures Numbered(Kept(lines, number), number, number + |lines|)
  {
    if lines != [] {
      KeptIsNumbered(lines[1..], number + 1);
    }
  }

  ghost predicate StartsBetween(all: seq<Instruction>, from: nat, below: nat) {
    && (forall i | 0 <= i < |all| :: from <= all[i].start < below)
    && forall i, j | 0 <= i < j < |all| :: all[i].start < all[j].start
  }

  lemma StartsCons(first: Instruction, rest: seq<Instruction>, from: nat, below: nat)
    requires from <= first.start < below && StartsBetween(rest, first.start + 1, below)
    ensures StartsBetween([first] + rest, from, below)
  {
    var all := [first] + rest;
    assert forall i | 1 <= i < |all| :: all[i] == rest[i - 1];
  }

  lemma NumberedRest(kept: seq<Line>, k: nat, from: nat, below: nat)
    requires Numbered(kept, from, below) && k < |kept|
    ensures Numbered(kept[k + 1..], kept[0].number + 1, below)
  {
  }

  lemma {:induction false} ReadStartsIncrease(kept: seq<Line>, from: nat, below: nat, upper: string -> string)
    requires Numbered(kept, from, below)
    ensures StartsBetween(ReadAll(kept, upper), from, below)
    decreases |kept|
  {
    hide Partition, Strip, Joined, GroupEnd, Continues, StartsBetween, Numbered;
    match GroupEnd(kept)
    case None => assert StartsBetween([], from, below) by { NoStarts(from, below); }
    case Some(k) =>
      NumberedRest(kept, k, from, below);
      assert from <= kept[0].number < below by { NumberedHead(kept, from, below); }
      ReadStartsIncrease(kept[k + 1..], kept[0].number + 1, below, upper);
      StartsCons(Read(kept[..k + 1], upper), ReadAll(kept[k + 1..], upper), from, below);
  }

  lemma NoStarts(from: nat, below: nat)
    ensures StartsBetween([], from, below)
  {
  }

  lemma NumberedHead(kept: seq<Line>, from: nat, below: nat)
    requires Numbered(kept, from, below) && kept != []
    ensures from <= kept[0].number < below
  {
  }

  /** The start lines are lines of the file, and strictly increase. */
  lemma StartsIncrease(text: string, upper: string -> string)
    ensures var all := ReadAll(Kept(SplitLines(text), 1), upper);
            && (forall i | 0 <= i < |all| :: 1 <= all[i].start <= |SplitLines(text)|)
            && forall i, j | 0 <= i < j < |all| :: all[i].start < all[j].start
  {
    hide ReadAll, Kept, SplitLines;
    var lines := SplitLines(text);
    KeptIsNumbered(lines, 1);
    ReadStartsIncrease(Kept(lines, 1), 1, 1 + |lines|, upper);
  }

  // ---------------------------------------------------------------- wrapping

  /** One line of a file: a comment or a blank, or words of an instruction, with or without a
      backslash after them. */
  datatype Physical =
    | Noise(raw: string)
    | Words(indent: string, words: seq<string>, gap: string, more: bool, tail: string)
  {
    function Text(): string {
      match this
      case Noise(raw) => raw
      case Words(indent, words, gap, more, tail) => indent + Core() + tail
    }

    /** What is left when the line is stripped. */
    function Core(): string {
      match this
      case Noise(raw) => Strip(raw)
      case Words(indent, words, gap, more, tail) => Join(words, " ") + if more then gap + "\\" else ""
    }

    /** The words start with no comment sign, and no backslash of their own ends the line. */
    ghost predicate Sound() {
      match this
      case Noise(raw) => Dropped(Strip(raw))
      case Words(indent, words, gap, more, tail) =>
        && AllSpace(indent) && AllSpace(gap) && AllSpace(tail)
        && words != [] && AreWords(words) && words[0][0] != '#'
        && (more || !Continues(words[|words| - 1]))
    }
  }

  ghost predicate AreWords(words: seq<string>) {
    forall i | 0 <= i < |words| :: IsWord(words[i])
  }

  function Texts(lines: seq<Physical>): seq<string> {
    if lines == [] then [] else [lines[0].Text()] + Texts(lines[1..])
  }

  function WordsOf(lines: seq<Physical>): seq<string> {
    if lines == [] then [] else (if lines[0].Words? then lines[0].words else []) + WordsOf(lines[1..])
  }

  function KeptOf(lines: seq<Physical>, number: nat): seq<Line> {
    if lines == [] then []
    else (if lines[0].Words? then [Line(number, lines[0].Core())] else []) + KeptOf(lines[1..], number + 1)
  }

  /** The number of the first line with words. */
  function FirstWords(lines: seq<Physical>, number: nat): nat {
    if lines == [] || lines[0].Words? then number else FirstWords(lines[1..], number + 1)
  }

  /** One instruction, wrapped in any way: the last line ends it and every other line with words
      continues it. Comments and blanks may stand anywhere before the last line. */
  ghost predicate IsWrapping(lines: seq<Physical>) {
    && lines != [] && lines[|lines| - 1].Words? && !lines[|lines| - 1].more
    && (forall i | 0 <= i < |lines| :: lines[i].Sound())
    && forall i | 0 <= i < |lines| - 1 :: lines[i].Words? ==> lines[i].more
  }

  lemma {:induction false} JoinWordsTrimmed(words: seq<string>)
    requires words != [] && AreWords(words)
    ensures var text := Join(words, " ");
            && text != "" && text[0] == words[0][0]
            && text[|text| - 1] == words[|words| - 1][|words[|words| - 1]| - 1]
            && Trimmed(text)
  {
    assert IsWord(words[0]);
    if |words| > 1 {
      JoinWordsTrimmed(words[1..]);
    }
  }

  lemma {:induction false} JoinConcat(a: seq<string>, b: seq<string>)
    requires a != [] && b != []
    ensures Join(a + b, " ") == Join(a, " ") + " " + Join(b, " ")
  {
    if |a| == 1 {
      assert (a + b)[1..] == b;
    } else {
      JoinConcat(a[1..], b);
      assert (a + b)[1..] == a[1..] + b;
    }
  }

  /** The line is read as its core, kept or dropped as it should be. */
  lemma LineIsRead(line: Physical)
    requires line.Sound()
    ensures Strip(line.Text()) == line.Core() && (Dropped(line.Core()) <==> line.Noise?)
    ensures line.Words? ==> (Continues(line.Core()) <==> line.more)
  {
    if line.Words? {
      hide Strip, Join;
      JoinWordsTrimmed(line.words);
      var core := line.Core();
      assert Trimmed(core);
      StripPadding(line.indent, core, line.tail);
    }
  }

  lemma RStripPadding(core: string, after: string)
    requires core != "" && Trimmed(core) && AllSpace(after)
    ensures RStrip(core + after) == core
  {
    var s := core + after;
    assert s[|core| - 1] == core[|core| - 1];
    assert forall i | |core| <= i < |s| :: s[i] == after[i - |core|];
    assert Trail(s) == |core|;
  }

  lemma PieceOfLine(line: Physical)
    requires line.Sound() && line.Words?
    ensures Piece(line.Core()) == Join(line.words, " ") + if line.more then " " else ""
  {
    hide Strip, Join, RStrip, Dropped;
    LineIsRead(line);
    JoinWordsTrimmed(line.words);
    var text := Join(line.words, " ");
    if line.more {
      assert line.Core() == text + line.gap + "\\";
      assert line.Core()[..|line.Core()| - 1] == text + line.gap;
      RStripPadding(text, line.gap);
    } else {
      assert line.Core() == text;
    }
  }

  lemma KeptCons(line: Physical, texts: seq<string>, number: nat)
    requires line.Sound()
    ensures Kept([line.Text()] + texts, number)
         == (if line.Words? then [Line(number, line.Core())] else []) + Kept(texts, number + 1)
  {
    hide Strip, Join, Dropped, Physical.Core, Physical.Text;
    LineIsRead(line);
    assert ([line.Text()] + texts)[1..] == texts;
  }

  lemma {:induction false} KeptOfTexts(lines: seq<Physical>, rest: seq<string>, number: nat)
    requires forall i | 0 <= i < |lines| :: lines[i].Sound()
    ensures Kept(Texts(lines) + rest, number) == KeptOf(lines, number) + Kept(rest, number + |lines|)
  {
    hide Kept, Physical.Sound, Physical.Core, Physical.Text;
    if lines == [] {
      assert Texts(lines) + rest == rest;
      assert [] + Kept(rest, number) == Kept(rest, number);
    } else {
      KeptOfTexts(lines[1..], rest, number + 1);
      KeptCons(lines[0], Texts(lines[1..]) + rest, number);
      assert Texts(lines) + rest == [lines[0].Text()] + (Texts(lines[1..]) + rest);
      assert number + 1 + |lines[1..]| == number + |lines|;
    }
  }

  lemma {:induction false} WrappingIsOneRun(lines: seq<Physical>, number: nat)
    requires IsWrapping(lines)
    ensures IsRun(KeptOf(lines, number))
    ensures KeptOf(lines, number)[0].number == FirstWords(lines, number)
    ensures WordsOf(lines) != [] && AreWords(WordsOf(lines))
    ensures Joined(KeptOf(lines, number)) == Join(WordsOf(lines), " ")
  {
    if |lines| == 1 {
      LastLine(lines, number);
    } else {
      WrappingIsOneRun(lines[1..], number + 1);
      FirstLine(lines, number);
    }
  }

  lemma LastLine(lines: seq<Physical>, number: nat)
    requires IsWrapping(lines) && |lines| == 1
    ensures KeptOf(lines, number) == [Line(number, lines[0].Core())] && WordsOf(lines) == lines[0].words
    ensures IsRun(KeptOf(lines, number)) && FirstWords(lines, number) == number
    ensures Joined(KeptOf(lines, number)) == Join(WordsOf(lines), " ")
  {
    hide Join, Piece;
    LineIsRead(lines[0]);
    PieceOfLine(lines[0]);
    assert lines[0].words + [] == lines[0].words;
    assert KeptOf(lines[1..], number + 1) == [];
    assert Joined([Line(number, lines[0].Core())]) == Piece(lines[0].Core()) + Joined([]);
  }

  lemma FirstLine(lines: seq<Physical>, number: nat)
    requires IsWrapping(lines) && |lines| > 1
    requires var rest := lines[1..];
             && IsRun(KeptOf(rest, number + 1)) && KeptOf(rest, number + 1)[0].number == FirstWords(rest, number + 1)
             && WordsOf(rest) != [] && AreWords(WordsOf(rest))
             && Joined(KeptOf(rest, number + 1)) == Join(WordsOf(rest), " ")
    ensures IsRun(KeptOf(lines, number)) && KeptOf(lines, number)[0].number == FirstWords(lines, number)
    ensures WordsOf(lines) != [] && AreWords(WordsOf(lines))
    ensures Joined(KeptOf(lines, number)) == Join(WordsOf(lines), " ")
  {
    hide Join, Piece;
    var rest, kept := lines[1..], KeptOf(lines[1..], number + 1);
    if lines[0].Noise? {
      assert KeptOf(lines, number) == kept && WordsOf(lines) == WordsOf(rest);
    } else {
      LineIsRead(lines[0]);
      PieceOfLine(lines[0]);
      var head := Line(number, lines[0].Core());
      assert KeptOf(lines, number) == [head] + kept && WordsOf(lines) == lines[0].words + WordsOf(rest);
      RunCons(head, kept);
      JoinConcat(lines[0].words, WordsOf(rest));
    }
  }

  lemma RunCons(head: Line, run: seq<Line>)
    requires IsRun(run) && Continues(head.text)
    ensures IsRun([head] + run) && Joined([head] + run) == Piece(head.text) + Joined(run)
  {
    hide Continues, Piece;
    assert ([head] + run)[1..] == run;
  }

  lemma WordsArePartitioned(words: seq<string>)
    requires words != [] && AreWords(words)
    ensures Partition(Join(words, " "), " ") == (words[0], Join(words[1..], " "))
    ensures Strip(Join(words[1..], " ")) == Join(words[1..], " ")
  {
    hide Strip, Partition;
    assert IsWord(words[0]) && ' ' !in words[0];
    if |words| == 1 {
      NoMark(words[0]);
      assert Trimmed("");
    } else {
      PartitionAt(words[0], ' ', Join(words[1..], " "));
      JoinWordsTrimmed(words[1..]);
    }
    assert Trimmed(Join(words[1..], " "));
  }

  lemma NoMark(word: string)
    requires ' ' !in word
    ensures Partition(word, " ") == (word, "")
  {
    forall i | 0 <= i <= |word| ensures !OccursAt(word, " ", i) {
      if i < |word| {
        assert word[i] in word && word[i..i + 1][0] == word[i];
      }
    }
  }

  /** However an instruction is wrapped, its words are what is read, and its start is the first line
      that has any. */
  lemma WrappingReadsBack(lines: seq<Physical>, rest: seq<string>, number: nat, upper: string -> string)
    requires IsWrapping(lines)
    ensures WordsOf(lines) != []
    ensures ReadAll(Kept(Texts(lines) + rest, number), upper) ==
            [Instruction(upper(WordsOf(lines)[0]), Join(WordsOf(lines)[1..], " "), FirstWords(lines, number))]
            + ReadAll(Kept(rest, number + |lines|), upper)
  {
    hide Strip, Partition, Join, Joined, Kept, KeptOf, ReadAll, WordsOf, FirstWords, IsWrapping;
    KeptSound(lines);
    KeptOfTexts(lines, rest, number);
    WrappingIsOneRun(lines, number);
    WordsArePartitioned(WordsOf(lines));
    CloseGroup(KeptOf(lines, number), Kept(rest, number + |lines|), upper);
  }

  lemma KeptSound(lines: seq<Physical>)
    requires IsWrapping(lines)
    ensures forall i | 0 <= i < |lines| :: lines[i].Sound()
  {
  }

  /** A file of wrapped instructions, and what it is read as. */
  function FileTexts(file: seq<seq<Physical>>): seq<string> {
    if file == [] then [] else Texts(file[0]) + FileTexts(file[1..])
  }

  function Expected(file: seq<seq<Physical>>, number: nat, upper: string -> string): seq<Instruction>
    requires forall i | 0 <= i < |file| :: WordsOf(file[i]) != []
  {
    if file == [] then []
    else
      [Instruction(upper(WordsOf(file[0])[0]), Join(WordsOf(file[0])[1..], " "), FirstWords(file[0], number))]
      + Expected(file[1..], number + |file[0]|, upper)
  }

  lemma NothingRead(number: nat, upper: string -> string)
    ensures ReadAll(Kept([], number), upper) == []
  {
  }

  lemma {:induction false} FileReadsBack(file: seq<seq<Physical>>, number: nat, upper: string -> string)
    requires forall i | 0 <= i < |file| :: IsWrapping(file[i])
    ensures forall i | 0 <= i < |file| :: WordsOf(file[i]) != []
    ensures ReadAll(Kept(FileTexts(file), number), upper) == Expected(file, number, upper)
  {
    hide IsWrapping, WordsOf, Texts, FirstWords, ReadAll, Kept;
    forall i | 0 <= i < |file| ensures WordsOf(file[i]) != [] {
      WrappingIsOneRun(file[i], number);
    }
    if file == [] {
      NothingRead(number, upper);
    } else {
      FileReadsBack(file[1..], number + |file[0]|, upper);
      WrappingReadsBack(file[0], FileTexts(file[1..]), number, upper);
    }
  }

  /** Re-wrapping never changes a directive or an argument. */
  lemma RewrappingChangesNothing(
    a: seq<seq<Physical>>, b: seq<seq<Physical>>, m: nat, n: nat, upper: string -> string)
    requires |a| == |b| && forall i | 0 <= i < |a| :: IsWrapping(a[i]) && IsWrapping(b[i])
    requires forall i | 0 <= i < |a| :: WordsOf(a[i]) == WordsOf(b[i])
    ensures var x, y := ReadAll(Kept(FileTexts(a), m), upper), ReadAll(Kept(FileTexts(b), n), upper);
            |x| == |y| == |a|
            && forall i | 0 <= i < |a| :: x[i].directive == y[i].directive && x[i].argument == y[i].argument
  {
    hide IsWrapping, WordsOf, FirstWords, ReadAll, Kept, FileTexts;
    FileReadsBack(a, m, upper);
    FileReadsBack(b, n, upper);
    SameWordsSameReading(a, b, m, n, upper);
  }

  lemma {:induction false} SameWordsSameReading(
    a: seq<seq<Physical>>, b: seq<seq<Physical>>, m: nat, n: nat, upper: string -> string)
    requires |a| == |b|
    requires forall i | 0 <= i < |a| :: WordsOf(a[i]) == WordsOf(b[i]) && WordsOf(a[i]) != []
    ensures var x, y := Expected(a, m, upper), Expected(b, n, upper);
            |x| == |y| == |a|
            && forall i | 0 <= i < |a| :: x[i].directive == y[i].directive && x[i].argument == y[i].argument
  {
    hide WordsOf, FirstWords;
    if a != [] {
      SameWordsSameReading(a[1..], b[1..], m + |a[0]|, n + |b[0]|, upper);
    }
  }

  /** The condition on where a line may be cut is needed: a word that begins with `#` is lost when it
      is moved to a line of its own, and the next instruction is taken into the one before. */
  lemma CommentSignAtALineStart(upper: string -> string)
    ensures ReadAll(Kept(["RUN #x", "USER a"], 1), upper)
         == [Instruction(upper("RUN"), "#x", 1), Instruction(upper("USER"), "a", 2)]
    ensures ReadAll(Kept(["RUN \\", "#x", "USER a"], 1), upper) == [Instruction(upper("RUN"), "USER a", 1)]
  {
    hide ReadAll, Kept, Strip, Join, IsWrapping, Texts, WordsOf, FirstWords;
    WholeLine("RUN", "#x");
    WholeLine("USER", "a");
    var run, user := Whole("RUN", "#x"), Whole("USER", "a");
    WrappingReadsBack([run], ["USER a"], 1, upper);
    WrappingReadsBack([user], [], 2, upper);
    NothingRead(3, upper);
    assert "RUN" + " " + "#x" == "RUN #x" && "USER" + " " + "a" == "USER a";
    assert ["RUN #x"] + ["USER a"] == ["RUN #x", "USER a"] && ["USER a"] + [] == ["USER a"];
    assert FirstWords([run], 1) == 1 && FirstWords([user], 2) == 2 by { FirstIsWords(run, 1); FirstIsWords(user, 2); }
    CutLines();
    WrappingReadsBack(Cut(), [], 1, upper);
    NothingRead(4, upper);
    assert Texts(Cut()) + [] == Texts(Cut());
    JoinTwo("USER", "a");
    assert |Cut()| == 3 && Cut()[0].Words?;
  }

  function Whole(a: string, b: string): Physical {
    Words("", [a, b], "", false, "")
  }

  function Cut(): seq<Physical> {
    [Words("", ["RUN"], " ", true, ""), Noise("#x"), Whole("USER", "a")]
  }

  lemma FirstIsWords(line: Physical, number: nat)
    requires line.Words?
    ensures FirstWords([line], number) == number
  {
  }

  lemma WholeLine(a: string, b: string)
    requires IsWord(a) && IsWord(b) && a[0] != '#' && !Continues(b)
    ensures IsWrapping([Whole(a, b)]) && Texts([Whole(a, b)]) == [a + " " + b]
    ensures WordsOf([Whole(a, b)]) == [a, b] && Join([a, b][1..], " ") == b
  {
    JoinTwo(a, b);
    assert [a, b][1..] == [b];
    assert "" + (a + " " + b + "") + "" == a + " " + b;
  }

  lemma CutLines()
    ensures IsWrapping(Cut()) && Texts(Cut()) == ["RUN \\", "#x", "USER a"]
    ensures WordsOf(Cut()) == ["RUN", "USER", "a"] && WordsOf(Cut())[1..] == ["USER", "a"]
    ensures FirstWords(Cut(), 1) == 1
  {
    hide Strip, Texts, WordsOf, IsWrapping;
    var run, rest := Cut()[0], [Noise("#x"), Whole("USER", "a")];
    WholeLine("USER", "a");
    assert Cut() == [run] + rest && rest[1..] == [Whole("USER", "a")] && rest == [Noise("#x")] + rest[1..];
    ConsLine(Noise("#x"), rest[1..]);
    ConsLine(run, rest);
    assert run.Text() == "RUN \\" by {
      JoinOne("RUN");
      assert "" + ("RUN" + (" " + "\\")) + "" == "RUN \\";
    }
    assert "USER" + " " + "a" == "USER a";
    assert Dropped(Strip("#x")) by {
      StripPadding("", "#x", "");
      assert "" + "#x" + "" == "#x";
    }
    ConsWrapping(Noise("#x"), rest[1..]);
    ConsWrapping(run, rest);
  }

  lemma ConsLine(line: Physical, rest: seq<Physical>)
    ensures Texts([line] + rest) == [line.Text()] + Texts(rest)
    ensures WordsOf([line] + rest) == (if line.Words? then line.words else []) + WordsOf(rest)
    ensures line.Words? ==> FirstWords([line] + rest, 1) == 1
  {
    assert ([line] + rest)[1..] == rest;
  }

  lemma ConsWrapping(line: Physical, rest: seq<Physical>)
    requires IsWrapping(rest) && line.Sound() && (line.Words? ==> line.more)
    ensures IsWrapping([line] + rest)
  {
    hide Strip;
    var all := [line] + rest;
    assert forall i | 1 <= i < |all| :: all[i] == rest[i - 1];
  }

  lemma JoinOne(word: string)
    ensures Join([word], " ") == word
  {
  }

  lemma JoinTwo(a: string, b: string)
    ensures Join([a, b], " ") == a + " " + b
  {
    assert [a, b][1..] == [b];
  }
}
