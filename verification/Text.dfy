/** The text primitives of Python that the program leans on: which characters are white space or
    end a line, `strip`, `splitlines`, `partition`, `find` and `rfind`. Characters are code points. */
module Text {
  import opened Wrappers

  // ---------------------------------------------------------------- white space and line breaks

  predicate IsBreak(c: char) {
    '\n' <= c <= '\r' || '\U{1C}' <= c <= '\U{1E}' || c == '\U{85}' || c == '\U{2028}' || c == '\U{2029}'
  }

  predicate IsSpace(c: char) {
    || IsBreak(c) || c == ' ' || c == '\t' || c == '\U{1F}' || c == '\U{A0}' || c == '\U{1680}'
    || '\U{2000}' <= c <= '\U{200A}' || c == '\U{202F}' || c == '\U{205F}' || c == '\U{3000}'
  }

  predicate NoBreak(s: string) {
    forall c | c in s :: !IsBreak(c)
  }

  predicate AllSpace(s: string) {
    forall c | c in s :: IsSpace(c)
  }

  /** Neither end is white space, which is what stripping leaves. */
  predicate Trimmed(s: string) {
    s != "" ==> !IsSpace(s[0]) && !IsSpace(s[|s| - 1])
  }

  /** How many leading characters are white space. */
  function Lead(s: string): (k: nat)
    ensures k <= |s| && forall i | 0 <= i < k :: IsSpace(s[i])
    ensures k < |s| ==> !IsSpace(s[k])
  {
    if s == "" || !IsSpace(s[0]) then 0 else 1 + Lead(s[1..])
  }

  /** Where the trailing white space starts. */
  function Trail(s: string): (m: nat)
    ensures m <= |s| && forall i | m <= i < |s| :: IsSpace(s[i])
    ensures m > 0 ==> !IsSpace(s[m - 1])
  {
    if s == "" || !IsSpace(s[|s| - 1]) then |s| else Trail(s[..|s| - 1])
  }

  function LStrip(s: string): string {
    s[Lead(s)..]
  }

  function RStrip(s: string): string {
    s[..Trail(s)]
  }

  function Strip(s: string): (r: string)
    ensures Trimmed(r)
    ensures Trimmed(s) ==> r == s
  {
    RStrip(LStrip(s))
  }

  /** Stripping removes padding and nothing else, whatever the padding is made of. */
  lemma StripPadding(before: string, core: string, after: string)
    requires AllSpace(before) && AllSpace(after) && Trimmed(core)
    ensures Strip(before + core + after) == core
  {
    var s := before + core + after;
    if core == "" {
      forall i | 0 <= i < |s| ensures IsSpace(s[i]) {
        assert s[i] == if i < |before| then before[i] else after[i - |before|];
      }
    } else {
      assert Lead(s) == |before| by {
        assert s[|before|] == core[0];
        assert forall i | 0 <= i < |before| :: s[i] == before[i];
      }
      var l := LStrip(s);
      assert l == core + after;
      assert Trail(l) == |core| by {
        assert l[|core| - 1] == core[|core| - 1];
        assert forall i | |core| <= i < |l| :: l[i] == after[i - |core|];
      }
    }
  }

  lemma BlankIsStripped(s: string)
    ensures Strip(s) == "" <==> AllSpace(s)
  {
    if AllSpace(s) {
      StripPadding(s, "", "");
      assert s + "" + "" == s;
    }
  }

  /** What stands before a trimmed text loses its leading white space only. */
  lemma StripBefore(before: string, core: string)
    requires core != "" && Trimmed(core)
    ensures Strip(before + core) == LStrip(before) + core
    ensures LStrip(before) == "" <==> AllSpace(before)
  {
    hide IsSpace;
    var s, k := before + core, Lead(before);
    assert s[|before|] == core[0] && s[|s| - 1] == core[|core| - 1];
    assert forall i | 0 <= i < |before| :: s[i] == before[i];
    assert Lead(s) == k;
    assert LStrip(s) == LStrip(before) + core;
    assert Trail(LStrip(s)) == |LStrip(s)|;
  }

  lemma StripNoBreak(s: string)
    requires NoBreak(s)
    ensures NoBreak(Strip(s))
  {
    forall c | c in Strip(s) ensures c in s {
    }
  }

  /** A word: something, and no white space in it. */
  ghost predicate IsWord(word: string) {
    word != "" && forall c | c in word :: !IsSpace(c)
  }

  // ---------------------------------------------------------------- splitlines

  /** Where the first line of `s` stops: its first line break, or its end. */
  function LineEnd(s: string): (n: nat)
    ensures n <= |s| && forall i | 0 <= i < n :: !IsBreak(s[i])
    ensures n < |s| ==> IsBreak(s[n])
  {
    if s == "" || IsBreak(s[0]) then 0 else 1 + LineEnd(s[1..])
  }

  /** What follows a line of length `n`; a carriage return and a line feed are one break. */
  function AfterBreak(s: string, n: nat): string
    requires n <= |s|
  {
    if n == |s| then ""
    else if s[n] == '\r' && n + 1 < |s| && s[n + 1] == '\n' then s[n + 2..]
    else s[n + 1..]
  }

  function SplitLines(s: string): seq<string>
    decreases |s|
  {
    if s == "" then [] else [s[..LineEnd(s)]] + SplitLines(AfterBreak(s, LineEnd(s)))
  }

  lemma SplitLinesEmpty()
    ensures SplitLines("") == []
  {
  }

  predicate EveryNoBreak(lines: seq<string>) {
    forall i | 0 <= i < |lines| :: NoBreak(lines[i])
  }

  lemma {:induction false} SplitLinesNoBreak(s: string)
    ensures EveryNoBreak(SplitLines(s))
    decreases |s|
  {
    if s != "" {
      var n := LineEnd(s);
      SplitLinesNoBreak(AfterBreak(s, n));
      assert NoBreak(s[..n]);
    }
  }

  /** Each line followed by a line feed. */
  function Unlines(lines: seq<string>): string {
    if lines == [] then "" else lines[0] + "\n" + Unlines(lines[1..])
  }

  lemma LineEndAt(s: string, n: nat)
    requires n <= |s| && NoBreak(s[..n])
    requires n == |s| || IsBreak(s[n])
    ensures LineEnd(s) == n
  {
    assert forall i | 0 <= i < n :: s[i] == s[..n][i];
  }

  lemma SplitLinesCons(line: string, rest: string)
    requires NoBreak(line)
    ensures SplitLines(line + "\n" + rest) == [line] + SplitLines(rest)
  {
    var s := line + "\n" + rest;
    assert s[..|line|] == line && s[|line| + 1..] == rest;
    LineEndAt(s, |line|);
  }

  /** Every break ends a line, and a carriage return with its line feed ends one line, not two. */
  lemma BreaksEndLines(line: string, mark: char, rest: string)
    requires NoBreak(line) && IsBreak(mark)
    ensures !(mark == '\r' && rest != "" && rest[0] == '\n') ==>
              SplitLines(line + [mark] + rest) == [line] + SplitLines(rest)
    ensures SplitLines(line + "\r\n" + rest) == [line] + SplitLines(rest)
  {
    var a, b := line + [mark] + rest, line + "\r\n" + rest;
    assert a[..|line|] == b[..|line|] == line;
    assert a[|line| + 1..] == b[|line| + 2..] == rest;
    assert |line| + 1 < |a| ==> a[|line| + 1] == rest[0];
    LineEndAt(a, |line|);
    LineEndAt(b, |line|);
  }

  lemma SplitLinesLast(line: string)
    requires NoBreak(line) && line != ""
    ensures SplitLines(line) == [line]
  {
    assert line[..|line|] == line;
    LineEndAt(line, |line|);
  }

  /** Where the line that no break has ended yet starts. */
  function LastStart(s: string): (n: nat)
    ensures n <= |s| && forall i | n <= i < |s| :: !IsBreak(s[i])
    ensures n > 0 ==> IsBreak(s[n - 1])
  {
    if s == "" then 0 else if IsBreak(s[|s| - 1]) then |s| else LastStart(s[..|s| - 1])
  }

  /** The lines that are ended. */
  function Whole(s: string): string {
    s[..LastStart(s)]
  }

  /** The line that is begun. */
  function Begun(s: string): string {
    s[LastStart(s)..]
  }

  /** Text after whole lines is read on its own. Only a carriage return and a line feed, which are one
      break, must not be parted. */
  lemma {:induction false} SplitLinesWhole(whole: string, after: string)
    requires whole != "" ==> IsBreak(whole[|whole| - 1])
    requires whole != "" && after != "" ==> !(whole[|whole| - 1] == '\r' && after[0] == '\n')
    ensures SplitLines(whole + after) == SplitLines(whole) + SplitLines(after)
    decreases |whole|
  {
    if whole == "" {
      SplitLinesEmpty();
      assert whole + after == after;
      assert [] + SplitLines(after) == SplitLines(after);
    } else {
      hide IsBreak, SplitLines, LineEnd, AfterBreak;
      var n := LineEnd(whole);
      var line, rest := whole[..n], AfterBreak(whole, n);
      WholeLineEnd(whole, after);
      AfterBreakWhole(whole, after, n);
      SplitLinesStep(whole);
      SplitLinesStep(whole + after);
      SplitLinesWhole(rest, after);
      Regroup([line], SplitLines(rest), SplitLines(after));
    }
  }

  lemma Regroup<T>(a: seq<T>, b: seq<T>, c: seq<T>)
    ensures a + (b + c) == a + b + c
  {
  }

  lemma Unshift<T>(a: seq<T>, b: seq<T>)
    ensures |a| > 0 ==> a == [a[0]] + a[1..] && a + b == [a[0]] + (a[1..] + b)
  {
  }

  lemma SplitLinesStep(s: string)
    requires s != ""
    ensures SplitLines(s) == [s[..LineEnd(s)]] + SplitLines(AfterBreak(s, LineEnd(s)))
  {
  }

  /** Text added after a break leaves the first line as it is. */
  lemma WholeLineEnd(whole: string, after: string)
    requires whole != "" && IsBreak(whole[|whole| - 1])
    ensures LineEnd(whole + after) == LineEnd(whole) < |whole|
    ensures (whole + after)[..LineEnd(whole)] == whole[..LineEnd(whole)]
  {
    hide IsBreak;
    var n := LineEnd(whole);
    assert n < |whole| && (whole + after)[n] == whole[n];
    assert (whole + after)[..n] == whole[..n];
    assert NoBreak(whole[..n]);
    LineEndAt(whole + after, n);
  }

  /** And goes to what follows it. */
  lemma AfterBreakWhole(whole: string, after: string, n: nat)
    requires n < |whole| && IsBreak(whole[n])
    requires after != "" ==> !(whole[|whole| - 1] == '\r' && after[0] == '\n')
    ensures var rest := AfterBreak(whole, n);
            && AfterBreak(whole + after, n) == rest + after && |rest| < |whole|
            && (rest != "" ==> rest[|rest| - 1] == whole[|whole| - 1])
  {
    hide IsBreak;
    DropConcat(whole, after, n + 1);
    if n + 1 < |whole| {
      DropConcat(whole, after, n + 2);
    }
  }

  lemma DropConcat(a: string, b: string, n: nat)
    requires n <= |a|
    ensures (a + b)[n..] == a[n..] + b
  {
  }

  lemma {:induction false} UnlinesPrefix(lines: seq<string>, rest: string)
    requires EveryNoBreak(lines)
    ensures SplitLines(Unlines(lines) + rest) == lines + SplitLines(rest)
  {
    hide SplitLines;
    if lines == [] {
      assert Unlines(lines) + rest == rest;
      assert [] + SplitLines(rest) == SplitLines(rest);
    } else {
      var more := Unlines(lines[1..]) + rest;
      calc {
        SplitLines(Unlines(lines) + rest);
        { assert Unlines(lines) + rest == lines[0] + "\n" + more; }
        SplitLines(lines[0] + "\n" + more);
        { SplitLinesCons(lines[0], more); }
        [lines[0]] + SplitLines(more);
        { UnlinesPrefix(lines[1..], rest); }
        [lines[0]] + (lines[1..] + SplitLines(rest));
        { assert [lines[0]] + lines[1..] == lines; }
        lines + SplitLines(rest);
      }
    }
  }

  /** A file of terminated lines reads back as its lines exactly when no line holds a break. */
  lemma UnlinesReadBack(lines: seq<string>)
    ensures SplitLines(Unlines(lines)) == lines <==> EveryNoBreak(lines)
  {
    SplitLinesNoBreak(Unlines(lines));
    if EveryNoBreak(lines) {
      UnlinesPrefix(lines, "");
      assert Unlines(lines) + "" == Unlines(lines);
      assert lines + [] == lines;
    }
  }

  function Join(parts: seq<string>, mark: string): string {
    if parts == [] then "" else if |parts| == 1 then parts[0] else parts[0] + mark + Join(parts[1..], mark)
  }

  /** Joining with line feeds and ending with one is terminating each line. */
  lemma {:induction false} JoinIsUnlines(lines: seq<string>)
    requires lines != []
    ensures Join(lines, "\n") + "\n" == Unlines(lines)
  {
    if |lines| == 1 {
      assert Unlines(lines[1..]) == "";
      assert lines[0] + "\n" + "" == lines[0] + "\n";
    } else {
      JoinIsUnlines(lines[1..]);
      assert lines[0] + "\n" + Join(lines[1..], "\n") + "\n" == lines[0] + "\n" + (Join(lines[1..], "\n") + "\n");
    }
  }

  // ---------------------------------------------------------------- searching

  /** `pattern` stands in `s` at index `i`. */
  predicate OccursAt(s: string, pattern: string, i: nat) {
    i + |pattern| <= |s| && s[i..i + |pattern|] == pattern
  }

  predicate Occurs(s: string, pattern: string) {
    exists i | 0 <= i <= |s| :: OccursAt(s, pattern, i)
  }

  /** The first occurrence, as `str.find` and `str.partition` locate it. */
  function Find(s: string, pattern: string): (r: Option<nat>)
    ensures r.Some? ==> OccursAt(s, pattern, r.value)
    ensures r.Some? ==> forall i | 0 <= i < r.value :: !OccursAt(s, pattern, i)
    ensures r.None? ==> forall i | 0 <= i <= |s| :: !OccursAt(s, pattern, i)
  {
    FindFrom(s, pattern, 0)
  }

  function FindFrom(s: string, pattern: string, from: nat): (r: Option<nat>)
    requires from <= |s|
    ensures r.Some? ==> from <= r.value && OccursAt(s, pattern, r.value)
    ensures r.Some? ==> forall i | from <= i < r.value :: !OccursAt(s, pattern, i)
    ensures r.None? ==> forall i | from <= i <= |s| :: !OccursAt(s, pattern, i)
    decreases |s| - from
  {
    if OccursAt(s, pattern, from) then Some(from)
    else if from == |s| then None
    else FindFrom(s, pattern, from + 1)
  }

  /** The last occurrence, as `str.rfind` locates it. */
  function FindLast(s: string, pattern: string): (r: Option<nat>)
    ensures r.Some? ==> OccursAt(s, pattern, r.value)
    ensures r.Some? ==> forall i | r.value < i <= |s| :: !OccursAt(s, pattern, i)
    ensures r.None? ==> forall i | 0 <= i <= |s| :: !OccursAt(s, pattern, i)
  {
    FindLastUpTo(s, pattern, |s|)
  }

  function FindLastUpTo(s: string, pattern: string, limit: nat): (r: Option<nat>)
    requires limit <= |s|
    ensures r.Some? ==> r.value <= limit && OccursAt(s, pattern, r.value)
    ensures r.Some? ==> forall i | r.value < i <= limit :: !OccursAt(s, pattern, i)
    ensures r.None? ==> forall i | 0 <= i <= limit :: !OccursAt(s, pattern, i)
  {
    if OccursAt(s, pattern, limit) then Some(limit)
    else if limit == 0 then None
    else FindLastUpTo(s, pattern, limit - 1)
  }

  /** `str.partition`: what is before the first `mark`, and what is after it. Without a mark the
      whole text is before it. */
  function Partition(s: string, mark: string): (parts: (string, string))
    ensures Occurs(s, mark) ==> s == parts.0 + mark + parts.1
    ensures !Occurs(s, mark) ==> parts == (s, "")
  {
    match Find(s, mark)
    case Some(i) =>
      assert s == s[..i] + mark + s[i + |mark|..];
      (s[..i], s[i + |mark|..])
    case None => (s, "")
  }

  /** A part before a one-character mark that does not hold the mark is recovered exactly. */
  lemma PartitionAt(before: string, mark: char, after: string)
    requires mark !in before
    ensures Partition(before + [mark] + after, [mark]) == (before, after)
  {
    var s := before + [mark] + after;
    assert OccursAt(s, [mark], |before|);
    var i := Find(s, [mark]).value;
    assert s[i] == s[i..i + 1][0];
    assert s[..|before|] == before && s[|before| + 1..] == after;
  }

  /** The part before the first mark does not hold it. */
  lemma BeforeTheMark(s: string, mark: char)
    ensures mark !in Partition(s, [mark]).0
  {
    var before := Partition(s, [mark]).0;
    forall i | 0 <= i < |before| ensures before[i] != mark {
      assert !OccursAt(s, [mark], i);
      assert s[i..i + 1] == [s[i]];
    }
  }
}
