/** The arms of a PowerShell `switch`: where their heads stand in a text, and the body of each. */
module PowerShell {
  import opened Wrappers
  import opened Text
  import opened Braces

  /** An arm's target, and the index just after its opening brace. */
  datatype Head = Head(target: string, end: nat)

  // ---------------------------------------------------------------- heads

  predicate TargetChar(c: char) {
    'a' <= c <= 'z' || c == '-'
  }

  /** How many characters a target could have here. */
  function TargetRun(s: string): (n: nat)
    ensures n <= |s| && forall i | 0 <= i < n :: TargetChar(s[i])
    ensures n < |s| ==> !TargetChar(s[n])
  {
    if s == "" || !TargetChar(s[0]) then 0 else 1 + TargetRun(s[1..])
  }

  /** A text that begins with a head: four characters of white space, a quoted target, and an opening
      brace with nothing but white space before it. The target, and how long the head is. */
  function Opening(s: string): (head: Option<(string, nat)>)
    ensures head.Some? ==> 7 < head.value.1 <= |s| && s[head.value.1 - 1] == '{'
  {
    if |s| < 5 || !AllSpace(s[..4]) || s[4] != '\'' then None
    else
      var quote := 5 + TargetRun(s[5..]);
      if quote == 5 || quote == |s| || s[quote] != '\'' then None
      else
        var brace := quote + 1 + Lead(s[quote + 1..]);
        if brace == |s| || s[brace] != '{' then None else Some((s[5..quote], brace + 1))
  }

  predicate StartsLine(text: string, i: nat)
    requires i <= |text|
  {
    i == 0 || text[i - 1] == '\n'
  }

  /** The head at a place of a text, which only the start of a line has. */
  function HeadAt(text: string, i: nat): (head: Option<Head>)
    ensures head.Some? ==> i + 7 < head.value.end <= |text| && text[head.value.end - 1] == '{'
  {
    if i > |text| || !StartsLine(text, i) then None
    else
      match Opening(text[i..])
      case None => None
      case Some((target, length)) => Some(Head(target, i + length))
  }

  /** The matches from a place on, each looked for after the end of the one before. */
  function HeadsFrom(text: string, i: nat): seq<Head>
    decreases |text| - i
  {
    if i >= |text| then []
    else
      match HeadAt(text, i)
      case Some(head) => [head] + HeadsFrom(text, head.end)
      case None => HeadsFrom(text, i + 1)
  }

  function Heads(text: string): seq<Head> {
    HeadsFrom(text, 0)
  }

  /** The heads at all the places before `n`, whether or not they overlap. */
  function HeadsBefore(text: string, n: nat): seq<Head> {
    if n == 0 then [] else HeadsBefore(text, n - 1) + HeadList(text, n - 1)
  }

  function HeadList(text: string, i: nat): seq<Head> {
    if HeadAt(text, i).Some? then [HeadAt(text, i).value] else []
  }

  ghost predicate HeadsOf(text: string, heads: seq<Head>) {
    forall i | 0 <= i < |heads| :: 1 <= heads[i].end <= |text| && text[heads[i].end - 1] == '{'
  }

  /** Within a head no other begins. */
  lemma OpeningsAreApart(s: string, j: nat)
    requires Opening(s).Some? && 0 < j < Opening(s).value.1
    ensures Opening(s[j..]) == None
  {
    hide IsSpace;
    NotSpace();
    var quote := 5 + TargetRun(s[5..]);
    var brace := quote + 1 + Lead(s[quote + 1..]);
    forall k | 5 <= k < quote ensures TargetChar(s[k]) {
      assert s[5..][k - 5] == s[k];
    }
    forall k | quote < k < brace ensures IsSpace(s[k]) {
      assert s[quote + 1..][k - quote - 1] == s[k];
    }
    var t := s[j..];
    if |t| >= 5 && AllSpace(t[..4]) {
      assert IsSpace(t[..4][0]) && IsSpace(t[..4][1]) && IsSpace(t[..4][2]) && IsSpace(t[..4][3]);
      assert IsSpace(s[j]) && IsSpace(s[j + 1]) && IsSpace(s[j + 2]) && IsSpace(s[j + 3]);
      assert t[4] == s[j + 4];
    }
  }

  lemma NotSpace()
    ensures !IsSpace('\'') && !IsSpace('{') && forall c | TargetChar(c) :: !IsSpace(c)
  {
  }

  /** So heads never overlap. */
  lemma HeadsAreApart(text: string, i: nat, j: nat)
    requires HeadAt(text, i).Some? && i < j < HeadAt(text, i).value.end
    ensures HeadAt(text, j) == None
  {
    hide Opening;
    OpeningsAreApart(text[i..], j - i);
    assert text[i..][j - i..] == text[j..];
  }

  lemma {:induction false} NoHeadsBetween(text: string, i: nat, j: nat)
    requires i <= j && forall k | i <= k < j :: HeadAt(text, k) == None
    ensures HeadsBefore(text, j) == HeadsBefore(text, i)
  {
    if i < j {
      hide HeadAt;
      NoHeadsBetween(text, i, j - 1);
      assert HeadList(text, j - 1) == [];
      assert HeadsBefore(text, j - 1) + [] == HeadsBefore(text, j - 1);
    }
  }

  lemma {:induction false} HeadsFromAreAll(text: string, i: nat)
    requires i <= |text|
    ensures HeadsBefore(text, i) + HeadsFrom(text, i) == HeadsBefore(text, |text|)
    decreases |text| - i
  {
    if i < |text| {
      hide HeadsBefore, HeadAt;
      HeadsBeforeNext(text, i);
      if HeadAt(text, i).Some? {
        var head := HeadAt(text, i).value;
        NothingWithin(text, i);
        NoHeadsBetween(text, i + 1, head.end);
        HeadsFromAreAll(text, head.end);
        assert HeadsFrom(text, i) == [head] + HeadsFrom(text, head.end);
        hide HeadsFrom;
        Regroup(HeadsBefore(text, i), [head], HeadsFrom(text, head.end));
      } else {
        HeadsFromAreAll(text, i + 1);
      }
    }
  }

  lemma NothingWithin(text: string, i: nat)
    requires HeadAt(text, i).Some?
    ensures i < HeadAt(text, i).value.end <= |text|
    ensures forall k | i < k < HeadAt(text, i).value.end :: HeadAt(text, k) == None
  {
    hide Opening;
    forall k | i < k < HeadAt(text, i).value.end ensures HeadAt(text, k) == None {
      HeadsAreApart(text, i, k);
    }
  }

  lemma HeadsBeforeNext(text: string, i: nat)
    ensures HeadAt(text, i) == None ==> HeadsBefore(text, i + 1) == HeadsBefore(text, i)
    ensures HeadAt(text, i).Some? ==> HeadsBefore(text, i + 1) == HeadsBefore(text, i) + [HeadAt(text, i).value]
  {
    hide HeadAt;
  }

  /** Searching on from the end of each match misses none: the heads found are those at every place of the
      text, in order. */
  lemma HeadsAreAll(text: string)
    ensures Heads(text) == HeadsBefore(text, |text|) && HeadsOf(text, Heads(text))
  {
    hide HeadsFrom, HeadsOf;
    HeadsFromAreAll(text, 0);
    assert [] + HeadsFrom(text, 0) == HeadsFrom(text, 0);
    HeadsBeforeOf(text, |text|);
  }

  lemma {:induction false} HeadsBeforeOf(text: string, n: nat)
    ensures HeadsOf(text, HeadsBefore(text, n))
  {
    if n > 0 {
      hide HeadAt, HeadList, HeadsOf;
      HeadsBeforeOf(text, n - 1);
      HeadListOf(text, n - 1);
      HeadsOfConcat(text, HeadsBefore(text, n - 1), HeadList(text, n - 1));
    } else {
      assert HeadsOf(text, []);
    }
  }

  lemma HeadListOf(text: string, i: nat)
    ensures HeadsOf(text, HeadList(text, i))
  {
    hide HeadAt;
  }

  lemma HeadsOfConcat(text: string, a: seq<Head>, b: seq<Head>)
    requires HeadsOf(text, a) && HeadsOf(text, b)
    ensures HeadsOf(text, a + b)
  {
  }

  // ---------------------------------------------------------------- arms

  /** The bodies by target; a later arm of the same target replaces an earlier one, and an arm that
      is never closed is not there. */
  ghost function ArmsOf(text: string, heads: seq<Head>): map<string, string>
    requires HeadsOf(text, heads)
  {
    if heads == [] then map[]
    else WithArm(text, ArmsOf(text, heads[..|heads| - 1]), heads[|heads| - 1])
  }

  ghost function WithArm(text: string, before: map<string, string>, head: Head): map<string, string>
    requires 1 <= head.end <= |text|
  {
    match CloseOf(text, head.end - 1)
    case Some(close) => before[head.target := text[head.end..close]]
    case None => before
  }

  method Arms(text: string) returns (arms: map<string, string>)
    ensures HeadsOf(text, Heads(text)) && arms == ArmsOf(text, Heads(text))
  {
    HeadsAreAll(text);
    hide Heads, ArmsOf, CloseOf;
    arms := map[];
    NoArms(text);
    var heads := Heads(text);
    for i := 0 to |heads|
      invariant arms == ArmsOf(text, heads[..i])
    {
      var target, end := heads[i].target, heads[i].end;
      ghost var before, open := arms, end - 1;
      var depth := 0;
      var index := end - 1;
      ghost var close := None;
      while index < |text|
        invariant end - 1 <= index <= |text| && close == None && arms == before
        invariant depth == Depth(text[open..index])
        invariant forall k | open < k <= index :: Depth(text[open..k]) > 0
      {
        DepthSnoc(text, open, index);
        if text[index] == '{' {
          depth := depth + 1;
        } else if text[index] == '}' {
          depth := depth - 1;
          if depth == 0 {
            arms := arms[target := text[end..index]];
            assert Closes(text, open, index);
            close := Some(index);
            break;
          }
        }
        index := index + 1;
      }
      ArmStep(text, heads, i, close);
    }
    assert heads[..|heads|] == heads;
  }

  lemma NoArms(text: string)
    ensures HeadsOf(text, []) && ArmsOf(text, []) == map[]
  {
  }

  lemma ArmStep(text: string, heads: seq<Head>, i: nat, close: Option<nat>)
    requires HeadsOf(text, heads) && i < |heads|
    requires close.Some? ==> Closes(text, heads[i].end - 1, close.value)
    requires close.None? ==> var open := heads[i].end - 1; forall k | open < k <= |text| :: Depth(text[open..k]) > 0
    ensures ArmsOf(text, heads[..i + 1]) ==
            if close.Some? then ArmsOf(text, heads[..i])[heads[i].target := text[heads[i].end..close.value]]
            else ArmsOf(text, heads[..i])
  {
    hide Depth;
    var open := heads[i].end - 1;
    assert heads[..i + 1][..i] == heads[..i];
    match CloseOf(text, open)
    case Some(c) =>
      if close.Some? {
        CloseIsUnique(text, open, c, close.value);
      }
    case None =>
  }

  /** The arm at `i` has this target and this body, which ends at `close`, and no later arm of the target
      is closed. */
  ghost predicate LastClosed(text: string, heads: seq<Head>, i: nat, close: nat, target: string, body: string)
    requires HeadsOf(text, heads)
  {
    && i < |heads| && heads[i].target == target
    && Closes(text, heads[i].end - 1, close) && body == text[heads[i].end..close]
    && forall j | i < j < |heads| && heads[j].target == target :: CloseOf(text, heads[j].end - 1) == None
  }

  /** Every body in the result is balanced, ends where the depth first returns to zero, and is that of
      the last arm of its target that is closed. */
  lemma {:induction false} BodiesAreBalanced(text: string, heads: seq<Head>, target: string)
    requires HeadsOf(text, heads) && target in ArmsOf(text, heads)
    ensures Balanced(ArmsOf(text, heads)[target])
    ensures exists i: nat, close: nat :: LastClosed(text, heads, i, close, target, ArmsOf(text, heads)[target])
  {
    hide Balanced, Closes, LastClosed;
    var n := |heads| - 1;
    var last, rest := heads[n], heads[..n];
    var closed := CloseOf(text, last.end - 1);
    if closed.Some? && last.target == target {
      CloseIsInRange(text, last.end - 1, closed.value);
      ClosesExactly(text, last.end - 1, closed.value);
      LastIsLastClosed(text, heads, closed.value);
    } else {
      BodiesAreBalanced(text, rest, target);
      var body := ArmsOf(text, rest)[target];
      var i: nat, close: nat :| LastClosed(text, rest, i, close, target, body);
      LastClosedStays(text, heads, i, close, target, body);
    }
  }

  lemma LastIsLastClosed(text: string, heads: seq<Head>, close: nat)
    requires heads != [] && HeadsOf(text, heads) && Closes(text, heads[|heads| - 1].end - 1, close)
    ensures heads[|heads| - 1].end <= close <= |text|
    ensures var last := heads[|heads| - 1];
            LastClosed(text, heads, |heads| - 1, close, last.target, text[last.end..close])
  {
  }

  lemma LastClosedStays(text: string, heads: seq<Head>, i: nat, close: nat, target: string, body: string)
    requires heads != [] && HeadsOf(text, heads) && LastClosed(text, heads[..|heads| - 1], i, close, target, body)
    requires heads[|heads| - 1].target == target ==> CloseOf(text, heads[|heads| - 1].end - 1) == None
    ensures LastClosed(text, heads, i, close, target, body)
  {
    hide Closes, CloseOf;
  }

  // ---------------------------------------------------------------- printing and reading back

  /** An arm as a file has it: what comes before it, its head, and its body. */
  datatype Arm = Arm(before: string, indent: string, target: string, gap: string, body: string) {
    predicate Valid() {
      && |indent| == 4 && AllSpace(indent) && AllSpace(gap)
      && target != "" && forall i | 0 <= i < |target| :: TargetChar(target[i])
    }

    /** Its head up to the brace, with what comes before it. */
    function Header(): string {
      before + indent + "'" + target + "'" + gap
    }

    /** Its head, and text after the brace. */
    function Written(after: string): string {
      indent + ("'" + (target + ("'" + (gap + ("{" + after)))))
    }
  }

  function FileText(arms: seq<Arm>): string {
    if arms == [] then ""
    else FileText(arms[..|arms| - 1]) + arms[|arms| - 1].Header() + "{" + arms[|arms| - 1].body + "}"
  }

  /** What stands before the head of the arm at `i`. */
  function BeforeHead(arms: seq<Arm>, i: nat): string
    requires i < |arms|
  {
    FileText(arms[..i]) + arms[i].before
  }

  ghost predicate IsPlace(arms: seq<Arm>, place: nat) {
    exists i | 0 <= i < |arms| :: |BeforeHead(arms, i)| == place
  }

  /** Every arm has a head at the start of a line. */
  ghost predicate Placed(arms: seq<Arm>) {
    forall i | 0 <= i < |arms| :: arms[i].Valid() && StartsLine(BeforeHead(arms, i), |BeforeHead(arms, i)|)
  }

  ghost predicate AllBalanced(arms: seq<Arm>) {
    forall i | 0 <= i < |arms| :: Balanced(arms[i].body)
  }

  function LastWins(arms: seq<Arm>): map<string, string> {
    if arms == [] then map[]
    else LastWins(arms[..|arms| - 1])[arms[|arms| - 1].target := arms[|arms| - 1].body]
  }

  lemma Dropped(a: string, b: string)
    ensures (a + b)[|a|..] == b && (a + b)[..|a|] == a && (b != "" ==> (a + b)[|a|] == b[0])
  {
  }

  lemma OpeningIsFound(arm: Arm, after: string)
    requires arm.Valid()
    ensures Opening(arm.Written(after)) == Some((arm.target, |arm.target| + |arm.gap| + 7))
  {
    hide Opening, TargetRun, Lead, AllSpace, Arm.Written;
    WrittenRuns(arm, after);
    WrittenCuts(arm, after);
    OpeningFromCuts(arm.Written(after), arm.target, arm.gap);
  }

  lemma WrittenCuts(arm: Arm, after: string)
    requires arm.Valid()
    ensures var s, quote := arm.Written(after), 5 + |arm.target|;
            && |s| == quote + 2 + |arm.gap| + |after| && s[..4] == arm.indent && s[4] == '\''
            && s[5..quote] == arm.target && s[quote] == '\'' && s[quote + 1 + |arm.gap|] == '{'
  {
    hide AllSpace, TargetChar;
    HeadIsCut(arm.indent, arm.target, arm.gap, "{" + after);
  }

  lemma WrittenRuns(arm: Arm, after: string)
    requires arm.Valid()
    ensures var s, quote := arm.Written(after), 5 + |arm.target|;
            && quote < |s| && TargetRun(s[5..]) == |arm.target| && Lead(s[quote + 1..]) == |arm.gap|
  {
    NotSpace();
    QuoteIsNoTarget();
    hide IsSpace, TargetRun, Lead, AllSpace, TargetChar;
    var brace := "{" + after;
    HeadIsCut(arm.indent, arm.target, arm.gap, brace);
    TargetRunIs(arm.target, "'" + (arm.gap + brace));
    LeadIs(arm.gap, brace);
  }

  lemma OpeningFromCuts(s: string, target: string, gap: string)
    requires target != "" && 7 + |target| + |gap| <= |s| && AllSpace(s[..4]) && s[4] == '\''
    requires TargetRun(s[5..]) == |target| && s[5..5 + |target|] == target && s[5 + |target|] == '\''
    requires Lead(s[6 + |target|..]) == |gap| && s[6 + |target| + |gap|] == '{'
    ensures Opening(s) == Some((target, |target| + |gap| + 7))
  {
    hide TargetRun, Lead, AllSpace;
  }

  lemma QuoteIsNoTarget()
    ensures !TargetChar('\'')
  {
  }

  lemma HeadIsCut(indent: string, target: string, gap: string, brace: string)
    requires |indent| == 4 && brace != ""
    ensures var s := indent + ("'" + (target + ("'" + (gap + brace))));
            var quote := 5 + |target|;
            && |s| == quote + 1 + |gap| + |brace| && s[..4] == indent && s[4] == '\''
            && s[5..] == target + ("'" + (gap + brace)) && s[5..quote] == target && s[quote] == '\''
            && s[quote + 1..] == gap + brace && s[quote + 1 + |gap|] == brace[0]
  {
    var last := gap + brace;
    var more := target + ("'" + last);
    var s := indent + ("'" + more);
    Dropped(indent, "'" + more);
    assert s[5..] == more by { Dropped("'", more); assert s[4..][1..] == s[5..]; }
    Dropped(target, "'" + last);
    var quote := 5 + |target|;
    assert s[5..quote] == target by { assert s[5..][..|target|] == s[5..quote]; }
    assert s[quote..] == "'" + last by { assert s[5..][|target|..] == s[quote..]; }
    assert s[quote + 1..] == last by { Dropped("'", last); assert s[quote..][1..] == s[quote + 1..]; }
    Dropped(gap, brace);
    assert s[quote] == s[quote..][0] && s[quote + 1 + |gap|] == s[quote + 1..][|gap|];
  }

  lemma TargetRunIs(target: string, rest: string)
    requires forall i | 0 <= i < |target| :: TargetChar(target[i])
    requires rest != "" && !TargetChar(rest[0])
    ensures TargetRun(target + rest) == |target|
  {
    var s := target + rest;
    assert forall i | 0 <= i < |target| :: s[i] == target[i];
    assert s[|target|] == rest[0];
  }

  lemma LeadIs(gap: string, rest: string)
    requires AllSpace(gap) && rest != "" && !IsSpace(rest[0])
    ensures Lead(gap + rest) == |gap|
  {
    hide IsSpace;
    var s := gap + rest;
    assert forall i | 0 <= i < |gap| :: s[i] == gap[i];
    assert s[|gap|] == rest[0];
  }

  /** A printed head is found where it is printed. */
  lemma HeadIsFound(before: string, arm: Arm, after: string)
    requires arm.Valid() && StartsLine(before, |before|)
    ensures HeadAt(before + arm.Written(after), |before|)
         == Some(Head(arm.target, |before| + |arm.target| + |arm.gap| + 7))
  {
    hide Opening, Arm.Written;
    OpeningIsFound(arm, after);
    Dropped(before, arm.Written(after));
    var text := before + arm.Written(after);
    assert before != "" ==> text[|before| - 1] == before[|before| - 1];
  }

  /** And there are no others: what is found starts its line, and is four characters of white space, a
      target of small letters and dashes in quotes, white space, and a brace. */
  lemma HeadExactly(text: string, i: nat, head: Head)
    ensures HeadAt(text, i) == Some(head) <==>
            && i <= |text| && (i == 0 || text[i - 1] == '\n')
            && exists arm, after :: IsWritten(text[i..], arm, after)
                                    && head == Head(arm.target, i + |arm.target| + |arm.gap| + 7)
  {
    hide Opening;
    if HeadAt(text, i) == Some(head) {
      OpeningIsWritten(text[i..]);
    }
    if i <= |text| && (i == 0 || text[i - 1] == '\n') {
      if exists arm, after ::
           IsWritten(text[i..], arm, after) && head == Head(arm.target, i + |arm.target| + |arm.gap| + 7)
      {
        var arm, after :|
          IsWritten(text[i..], arm, after) && head == Head(arm.target, i + |arm.target| + |arm.gap| + 7);
        WrittenIsFound(text, i, arm, after);
      }
    }
  }

  ghost predicate IsWritten(s: string, arm: Arm, after: string) {
    && |arm.indent| == 4 && AllSpace(arm.indent) && AllSpace(arm.gap)
    && arm.target != "" && (forall c | c in arm.target :: 'a' <= c <= 'z' || c == '-')
    && s == arm.indent + ("'" + (arm.target + ("'" + (arm.gap + ("{" + after)))))
  }

  lemma WrittenIsFound(text: string, i: nat, arm: Arm, after: string)
    requires i <= |text| && (i == 0 || text[i - 1] == '\n') && IsWritten(text[i..], arm, after)
    ensures HeadAt(text, i) == Some(Head(arm.target, i + |arm.target| + |arm.gap| + 7))
  {
    hide AllSpace, HeadAt;
    assert forall k | 0 <= k < |arm.target| :: arm.target[k] in arm.target;
    assert text == text[..i] + arm.Written(after) by {
      assert text == text[..i] + text[i..];
    }
    assert i > 0 ==> text[..i][i - 1] == text[i - 1];
    HeadIsFound(text[..i], arm, after);
  }

  lemma OpeningIsWritten(s: string)
    requires Opening(s).Some?
    ensures exists arm, after ::
              IsWritten(s, arm, after) && Opening(s) == Some((arm.target, |arm.target| + |arm.gap| + 7))
  {
    hide AllSpace, TargetRun, Lead, Opening, IsWritten;
    OpeningCuts(s);
    OpeningParts(s);
    var quote := 5 + TargetRun(s[5..]);
    var brace := quote + 1 + Lead(s[quote + 1..]);
    var arm, after := Arm("", s[..4], s[5..quote], s[quote + 1..brace], ""), s[brace + 1..];
    PartsAreWritten(s, arm, after, quote, brace);
  }

  lemma OpeningCuts(s: string)
    requires Opening(s).Some?
    ensures |s| > 5
    ensures var quote := 5 + TargetRun(s[5..]);
            && 5 < quote < |s| && s[4] == s[quote] == '\'' && AllSpace(s[..4])
            && var brace := quote + 1 + Lead(s[quote + 1..]);
               brace < |s| && s[brace] == '{' && Opening(s) == Some((s[5..quote], brace + 1))
  {
    hide AllSpace, TargetRun, Lead;
  }

  lemma PartsAreWritten(s: string, arm: Arm, after: string, quote: nat, brace: nat)
    requires 5 < quote < brace < |s| && s[4] == s[quote] == '\'' && s[brace] == '{'
    requires arm == Arm("", s[..4], s[5..quote], s[quote + 1..brace], "") && after == s[brace + 1..]
    requires AllSpace(arm.indent) && AllSpace(arm.gap)
    requires forall c | c in arm.target :: 'a' <= c <= 'z' || c == '-'
    ensures IsWritten(s, arm, after)
  {
    hide AllSpace;
    RestIsCutUp(s, quote, brace);
    HeadIsCutUp(s, quote);
  }

  lemma OpeningParts(s: string)
    requires |s| > 5 && 5 + TargetRun(s[5..]) < |s|
    ensures var quote := 5 + TargetRun(s[5..]);
            var brace := quote + 1 + Lead(s[quote + 1..]);
            && AllSpace(s[quote + 1..brace]) && forall c | c in s[5..quote] :: 'a' <= c <= 'z' || c == '-'
  {
    hide IsSpace, TargetRun, Lead;
    var quote := 5 + TargetRun(s[5..]);
    var brace := quote + 1 + Lead(s[quote + 1..]);
    forall k | 5 <= k < quote ensures TargetChar(s[k]) {
      assert s[5..][k - 5] == s[k];
    }
    forall k | quote < k < brace ensures IsSpace(s[k]) {
      assert s[quote + 1..][k - quote - 1] == s[k];
    }
  }

  lemma HeadIsCutUp(s: string, quote: nat)
    requires 5 <= quote < |s| && s[4] == '\''
    ensures s == s[..4] + ("'" + (s[5..quote] + s[quote..]))
  {
    assert s[5..] == s[5..quote] + s[quote..];
    assert s == s[..4] + ("'" + s[5..]);
  }

  lemma RestIsCutUp(s: string, quote: nat, brace: nat)
    requires quote < brace < |s| && s[quote] == '\'' && s[brace] == '{'
    ensures s[quote..] == "'" + (s[quote + 1..brace] + ("{" + s[brace + 1..]))
  {
    assert s[brace..] == "{" + s[brace + 1..];
    assert s[quote + 1..] == s[quote + 1..brace] + s[brace..];
  }

  // ---------------------------------------------------------------- the last arm of a file

  lemma HeaderIsWritten(prefix: string, arm: Arm, after: string)
    ensures prefix + arm.Header() + "{" + after == prefix + arm.before + arm.Written(after)
    ensures |arm.Header()| == |arm.before| + |arm.indent| + |arm.target| + |arm.gap| + 2
  {
  }

  lemma Joined(a: string, b: string, c: string, d: string)
    ensures a + b + "{" + c + "}" + d == a + (b + "{" + c + "}" + d) == a + b + "{" + (c + "}" + d)
  {
  }

  /** A file, cut at its last arm. */
  lemma FileIsCut(arms: seq<Arm>, after: string)
    requires arms != []
    ensures var last, rest := arms[|arms| - 1], FileText(arms[..|arms| - 1]);
            && FileText(arms) + after == rest + (last.Header() + "{" + last.body + "}" + after)
            && FileText(arms) + after == rest + last.Header() + "{" + last.body + "}" + after
            && FileText(arms) + after == rest + last.before + last.Written(last.body + "}" + after)
            && |FileText(arms)| == |rest + last.Header()| + |last.body| + 2
  {
    var last, rest := arms[|arms| - 1], FileText(arms[..|arms| - 1]);
    HeaderIsWritten(rest, last, last.body + "}" + after);
    assert FileText(arms) == rest + last.Header() + "{" + last.body + "}";
    hide FileText, Arm.Header, Arm.Written;
    Joined(rest, last.Header(), last.body, after);
  }

  lemma PlacedRest(arms: seq<Arm>)
    requires arms != []
    ensures Placed(arms) ==> Placed(arms[..|arms| - 1])
    ensures forall place :: IsPlace(arms, place) <==>
              IsPlace(arms[..|arms| - 1], place) || place == |BeforeHead(arms, |arms| - 1)|
  {
    hide FileText;
    var rest := arms[..|arms| - 1];
    forall i | 0 <= i < |rest| ensures rest[i] == arms[i] && BeforeHead(rest, i) == BeforeHead(arms, i) {
      assert rest[..i] == arms[..i];
    }
  }

  /** One head more, if there is one at `place` and nowhere else from `start` on. */
  lemma OneMoreHead(text: string, start: nat, place: nat, end: nat)
    requires start <= place < end && HeadAt(text, place).Some?
    requires forall i | start <= i < end && i != place :: HeadAt(text, i) == None
    ensures HeadsBefore(text, end) == HeadsBefore(text, start) + [HeadAt(text, place).value]
  {
    hide HeadAt, HeadsBefore;
    NoHeadsBetween(text, start, place);
    HeadsBeforeNext(text, place);
    NoHeadsBetween(text, place + 1, end);
  }

  lemma LastArm(text: string, heads: seq<Head>, last: Head, body: string)
    requires HeadsOf(text, heads)
    requires 1 <= last.end && last.end + |body| <= |text|
    requires text[last.end - 1] == '{' && text[last.end..last.end + |body|] == body
    requires CloseOf(text, last.end - 1) == Some(last.end + |body|)
    ensures HeadsOf(text, heads + [last])
    ensures ArmsOf(text, heads + [last]) == ArmsOf(text, heads)[last.target := body]
  {
    OneHead(text, last);
    HeadsOfConcat(text, heads, [last]);
    hide CloseOf, HeadsOf, WithArm;
    assert (heads + [last])[..|heads|] == heads;
    ArmIsAdded(text, ArmsOf(text, heads), last, body);
  }

  lemma ArmIsAdded(text: string, before: map<string, string>, last: Head, body: string)
    requires 1 <= last.end && last.end + |body| <= |text| && text[last.end..last.end + |body|] == body
    requires CloseOf(text, last.end - 1) == Some(last.end + |body|)
    ensures WithArm(text, before, last) == before[last.target := body]
  {
    hide CloseOf;
  }

  lemma OneHead(text: string, head: Head)
    requires 1 <= head.end <= |text| && text[head.end - 1] == '{'
    ensures HeadsOf(text, [head])
  {
  }

  lemma Around(before: string, body: string, after: string)
    ensures var text, end := before + "{" + body + "}" + after, |before| + 1;
            end + |body| <= |text| && text[end - 1] == '{' && text[end..end + |body|] == body
  {
  }

  // ---------------------------------------------------------------- whole files

  lemma {:induction false} ArmsReadBack(arms: seq<Arm>, after: string)
    requires Placed(arms) && AllBalanced(arms)
    requires forall i: nat | i < |FileText(arms)| && HeadAt(FileText(arms) + after, i).Some? :: IsPlace(arms, i)
    ensures var text := FileText(arms) + after;
            var heads := HeadsBefore(text, |FileText(arms)|);
            HeadsOf(text, heads) && ArmsOf(text, heads) == LastWins(arms)
  {
    var text := FileText(arms) + after;
    if arms == [] {
      NoArms(text);
    } else {
      hide HeadsOf, ArmsOf, HeadAt, FileText, Placed, IsPlace, HeadsBefore, AllBalanced, LastWins, Arm.Header;
      var last, rest := arms[|arms| - 1], arms[..|arms| - 1];
      var more := last.Header() + "{" + last.body + "}" + after;
      BalancedRest(arms);
      PlacedRest(arms);
      LastHead(arms, after);
      assert text == FileText(rest) + more by { FileIsCut(arms, after); }
      ArmsReadBack(rest, more);
      LastArmIsAdded(arms, after);
    }
  }

  lemma LastArmIsAdded(arms: seq<Arm>, after: string)
    requires arms != [] && Placed(arms) && AllBalanced(arms)
    requires forall i: nat | i < |FileText(arms)| && HeadAt(FileText(arms) + after, i).Some? :: IsPlace(arms, i)
    requires var heads := HeadsBefore(FileText(arms) + after, |FileText(arms[..|arms| - 1])|);
             HeadsOf(FileText(arms) + after, heads)
             && ArmsOf(FileText(arms) + after, heads) == LastWins(arms[..|arms| - 1])
    ensures var heads := HeadsBefore(FileText(arms) + after, |FileText(arms)|);
            HeadsOf(FileText(arms) + after, heads) && ArmsOf(FileText(arms) + after, heads) == LastWins(arms)
  {
    hide HeadsOf, ArmsOf, CloseOf, HeadAt, FileText, Placed, IsPlace, HeadsBefore, Balanced, AllBalanced, Arm.Header;
    var last, rest := arms[|arms| - 1], arms[..|arms| - 1];
    var text, before := FileText(arms) + after, FileText(rest) + last.Header();
    BalancedRest(arms);
    LastHead(arms, after);
    assert text == before + "{" + last.body + "}" + after by { FileIsCut(arms, after); }
    LastBody(text, before, last.body, after);
    LastArm(text, HeadsBefore(text, |FileText(rest)|), Head(last.target, |before| + 1), last.body);
  }

  lemma LastBody(text: string, before: string, body: string, after: string)
    requires text == before + "{" + body + "}" + after && Balanced(body)
    ensures var end := |before| + 1;
            && end + |body| <= |text| && text[end - 1] == '{' && text[end..end + |body|] == body
            && CloseOf(text, end - 1) == Some(end + |body|)
  {
    hide CloseOf, Balanced;
    BodyReadsBack(before, body, after);
    Around(before, body, after);
  }

  lemma BalancedRest(arms: seq<Arm>)
    requires arms != [] && AllBalanced(arms)
    ensures AllBalanced(arms[..|arms| - 1]) && Balanced(arms[|arms| - 1].body)
  {
    hide Balanced;
  }

  /** The last arm's head is where it was put, and only heads of the other arms stand before it. */
  lemma LastHead(arms: seq<Arm>, after: string)
    requires arms != [] && Placed(arms)
    requires forall i: nat | i < |FileText(arms)| && HeadAt(FileText(arms) + after, i).Some? :: IsPlace(arms, i)
    ensures var last, rest := arms[|arms| - 1], arms[..|arms| - 1];
            var text, start := FileText(arms) + after, |FileText(rest)|;
            && HeadsBefore(text, |FileText(arms)|) == HeadsBefore(text, start)
                 + [Head(last.target, |FileText(rest) + last.Header()| + 1)]
            && forall i: nat | i < start && HeadAt(text, i).Some? :: IsPlace(rest, i)
  {
    hide HeadAt, FileText, Arm.Header, Arm.Written, HeadsBefore;
    var n := |arms| - 1;
    var last, rest := arms[n], arms[..n];
    var text, start := FileText(arms) + after, |FileText(rest)|;
    var before := BeforeHead(arms, n);
    assert last.Valid() && StartsLine(before, |before|);
    FileIsCut(arms, after);
    HeaderIsWritten(FileText(rest), last, "");
    PlacedRest(arms);
    HeadIsFound(before, last, last.body + "}" + after);
    PlacesAreInText(rest);
    forall i | start <= i < |FileText(arms)| && i != |before| ensures HeadAt(text, i) == None {
      assert !IsPlace(arms, i);
    }
    OneMoreHead(text, start, |before|, |FileText(arms)|);
  }

  lemma {:induction false} PlacesAreInText(arms: seq<Arm>)
    ensures forall i: nat | IsPlace(arms, i) :: i < |FileText(arms)|
  {
    if arms != [] {
      hide IsPlace, FileText, Arm.Header;
      PlacesAreInText(arms[..|arms| - 1]);
      PlacedRest(arms);
      FileIsCut(arms, "");
      HeaderIsWritten("", arms[|arms| - 1], "");
    }
  }

  /** A file printed from arms with balanced bodies gives every body back, a later arm of a target in
      place of an earlier one, as long as nothing else in the text is a head. */
  lemma FileReadsBack(arms: seq<Arm>, after: string)
    requires Placed(arms) && AllBalanced(arms)
    requires forall i: nat | HeadAt(FileText(arms) + after, i).Some? :: IsPlace(arms, i)
    ensures var text := FileText(arms) + after;
            HeadsOf(text, Heads(text)) && ArmsOf(text, Heads(text)) == LastWins(arms)
  {
    hide Heads, HeadAt, ArmsOf, HeadsOf, AllBalanced, Placed, FileText, IsPlace, HeadsBefore;
    var text := FileText(arms) + after;
    HeadsAreAll(text);
    ArmsReadBack(arms, after);
    PlacesAreInText(arms);
    NoHeadsBetween(text, |FileText(arms)|, |text|);
  }
}
