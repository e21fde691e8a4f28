/** Expansion as it is carried out, on the raw text of a recipe, and when that is substitution of whole
    references. */
module Recipes {
  import opened Wrappers
  import opened Expansion
  import Text

  /** The assignments of a Makefile, in the order of the file. */
  datatype Assignments = Assignments(value: map<string, string>, order: seq<string>) {
    ghost predicate Valid() {
      && (forall i, j | 0 <= i < j < |order| :: order[i] != order[j])
      && (forall i | 0 <= i < |order| :: order[i] in value)
      && (forall name | name in value :: name in order && IsName(name))
    }
  }

  // ---------------------------------------------------------------- the text

  /** `$(name)` */
  function Quoted(name: string): string {
    "$(" + name + ")"
  }

  /** `text.replace(pattern, value)` */
  function Replace(text: string, pattern: string, value: string): string
    requires pattern != ""
    decreases |text|
  {
    if text == "" then ""
    else if |pattern| <= |text| && text[..|pattern|] == pattern then value + Replace(text[|pattern|..], pattern, value)
    else [text[0]] + Replace(text[1..], pattern, value)
  }

  predicate NameChar(c: char) {
    'A' <= c <= 'Z' || '0' <= c <= '9' || c == '_'
  }

  /** How many characters a name could have here. */
  function NameRun(s: string): (n: nat)
    ensures n <= |s| && forall i | 0 <= i < n :: NameChar(s[i])
    ensures n < |s| ==> !NameChar(s[n])
  {
    if s == "" || !NameChar(s[0]) then 0 else 1 + NameRun(s[1..])
  }

  /** The reference a text begins with, by name. */
  function Leading(text: string): (name: Option<string>)
    ensures name.Some? ==> IsName(name.value) && |Quoted(name.value)| <= |text|
    ensures name.Some? ==> text[..|Quoted(name.value)|] == Quoted(name.value)
  {
    if |text| < 2 || text[0] != '$' || text[1] != '(' then None
    else
      var n := NameRun(text[2..]);
      if n + 2 < |text| && text[n + 2] == ')' && IsName(text[2..n + 2]) then
        assert text[..n + 3] == Quoted(text[2..n + 2]);
        Some(text[2..n + 2])
      else None
  }

  /** The substitution of the harmless word, of references not directly after a dollar. */
  function Guarded(text: string, afterDollar: bool): string
    decreases |text|
  {
    if text == "" then ""
    else
      match Leading(text)
      case Some(name) =>
        if afterDollar then [text[0]] + Guarded(text[1..], true)
        else PLACEHOLDER + Guarded(text[|Quoted(name)|..], false)
      case None => [text[0]] + Guarded(text[1..], text[0] == '$')
  }

  function RawPassUpTo(makefile: Assignments, text: string, n: nat): string
    requires makefile.Valid() && n <= |makefile.order|
  {
    if n == 0 then text
    else
      var name := makefile.order[n - 1];
      Replace(RawPassUpTo(makefile, text, n - 1), Quoted(name), makefile.value[name])
  }

  function RawPasses(makefile: Assignments, text: string, k: nat): string
    requires makefile.Valid()
  {
    if k == 0 then text else RawPassUpTo(makefile, RawPasses(makefile, text, k - 1), |makefile.order|)
  }

  method Expand(text: string, makefile: Assignments) returns (shell: string)
    requires makefile.Valid()
    ensures shell == Halved(Guarded(RawPasses(makefile, text, 2), false))
  {
    var current := text;
    for pass := 0 to 2
      invariant current == RawPasses(makefile, text, pass)
    {
      for i := 0 to |makefile.order|
        invariant current == RawPassUpTo(makefile, RawPasses(makefile, text, pass), i)
      {
        var name := makefile.order[i];
        current := Replace(current, Quoted(name), makefile.value[name]);
      }
    }
    current := Guarded(current, false);
    HalvedIsReplace(current);
    shell := Replace(current, "$$", "$");
  }

  lemma {:induction false} HalvedIsReplace(s: string)
    ensures Replace(s, "$$", "$") == Halved(s)
    decreases |s|
  {
    if |s| == 1 {
      assert s[1..] == "" && [s[0]] + "" == s;
    } else if s != "" {
      assert s[..2] == "$$" <==> s[0] == '$' && s[1] == '$';
      HalvedIsReplace(if s[..2] == "$$" then s[2..] else s[1..]);
    }
  }

  // ---------------------------------------------------------------- the tokens of a text

  function Read(text: string): Tokens
    decreases |text|
  {
    if text == "" then []
    else
      match Leading(text)
      case Some(name) => [Ref(name)] + Read(text[|Quoted(name)|..])
      case None => [Char(text[0])] + Read(text[1..])
  }

  function Shown(text: Tokens): string {
    if text == [] then ""
    else (match text[0]
          case Char(c) => [c]
          case Ref(name) => Quoted(name)) + Shown(text[1..])
  }

  /** The assignments, with their values read. */
  function Tokened(makefile: Assignments): Variables {
    Variables(map name | name in makefile.value :: Read(makefile.value[name]), makefile.order)
  }

  /** Reading loses nothing. */
  lemma {:induction false} ReadIsShown(text: string)
    ensures Shown(Read(text)) == text
    decreases |text|
  {
    if text != "" {
      match Leading(text)
      case Some(name) =>
        ReadIsShown(text[|Quoted(name)|..]);
        ShownCons(Ref(name), Read(text[|Quoted(name)|..]));
      case None =>
        ReadIsShown(text[1..]);
        ShownCons(Char(text[0]), Read(text[1..]));
    }
  }

  lemma ShownCons(token: Token, rest: Tokens)
    ensures Shown([token] + rest) == (match token case Char(c) => [c] case Ref(name) => Quoted(name)) + Shown(rest)
  {
    assert ([token] + rest)[1..] == rest;
  }

  lemma {:induction false} ShownConcat(a: Tokens, b: Tokens)
    ensures Shown(a + b) == Shown(a) + Shown(b)
  {
    if a == [] {
      assert a + b == b;
    } else {
      hide Quoted, Shown;
      var head, rest := a[0], a[1..];
      ShownConcat(rest, b);
      Text.Unshift(a, b);
      ShownCons(head, rest + b);
      ShownCons(head, rest);
      Text.Regroup(if head.Char? then [head.c] else Quoted(head.name), Shown(rest), Shown(b));
    }
  }

  // ---------------------------------------------------------------- one replacement

  lemma NamesHoldNoMark(name: string)
    requires IsName(name)
    ensures '$' !in "(" + name + ")" && ')' !in name
  {
  }

  lemma {:induction false} ReplaceSkips(plain: string, rest: string, pattern: string, value: string)
    requires pattern != "" && pattern[0] !in plain
    ensures Replace(plain + rest, pattern, value) == plain + Replace(rest, pattern, value)
  {
    if plain == "" {
      assert plain + rest == rest;
    } else {
      var text := plain + rest;
      ReplaceSkips(plain[1..], rest, pattern, value);
      assert text[1..] == plain[1..] + rest && plain == [plain[0]] + plain[1..];
      assert |pattern| <= |text| ==> text[..|pattern|][0] == plain[0];
    }
  }

  /** A text has a reference at its start if and only if reading it finds that one there. */
  lemma LeadsExactly(text: string, name: string)
    requires IsName(name)
    ensures |Quoted(name)| <= |text| && text[..|Quoted(name)|] == Quoted(name) <==> Leading(text) == Some(name)
  {
    if |Quoted(name)| <= |text| && text[..|Quoted(name)|] == Quoted(name) {
      var n := |name|;
      assert text[..n + 3][0] == '$' && text[..n + 3][1] == '(' && text[..n + 3][n + 2] == ')';
      assert forall i | 0 <= i < n :: text[2..][i] == Quoted(name)[i + 2] == name[i];
      assert NameRun(text[2..]) == n by {
        assert text[2..][n] == ')';
        assert forall i | 0 <= i < n :: NameChar(text[2..][i]);
      }
      assert text[2..n + 2] == name;
    }
  }

  /** One `replace` on raw text, whatever the text and the value: it substitutes the references that the
      text is read as having, and no others. */
  lemma {:induction false} ReplaceIsSubst(text: string, name: string, value: Tokens)
    requires IsName(name)
    ensures Replace(text, Quoted(name), Shown(value)) == Shown(Subst(Read(text), name, value))
    decreases |text|
  {
    if text != "" {
      hide IsName;
      LeadsExactly(text, name);
      match Leading(text)
      case Some(other) =>
        var rest := text[|Quoted(other)|..];
        ReplaceIsSubst(rest, name, value);
        SubstCons(Ref(other), Read(rest), name, value);
        if other == name {
          ShownConcat(value, Subst(Read(rest), name, value));
        } else {
          ReplaceOther(text, other, rest, name, Shown(value));
          ShownCons(Ref(other), Subst(Read(rest), name, value));
        }
      case None =>
        ReplaceIsSubst(text[1..], name, value);
        SubstCons(Char(text[0]), Read(text[1..]), name, value);
        ShownCons(Char(text[0]), Subst(Read(text[1..]), name, value));
    }
  }

  lemma SubstCons(token: Token, rest: Tokens, name: string, value: Tokens)
    ensures Subst([token] + rest, name, value) ==
            (if token == Ref(name) then value else [token]) + Subst(rest, name, value)
  {
    assert ([token] + rest)[1..] == rest;
  }

  lemma ReplaceOther(text: string, other: string, rest: string, name: string, value: string)
    requires text == Quoted(other) + rest && IsName(other) && IsName(name) && other != name
    ensures Replace(text, Quoted(name), value) == Quoted(other) + Replace(rest, Quoted(name), value)
  {
    NamesHoldNoMark(other);
    hide IsName, Leading;
    var plain := "(" + other + ")";
    assert Quoted(other) == "$" + plain && text == "$" + (plain + rest);
    assert text[..|Quoted(other)|] == Quoted(other) && text[1..] == plain + rest;
    LeadsExactly(text, name);
    LeadsExactly(text, other);
    assert Quoted(name)[0] == '$';
    ReplaceSkips(plain, rest, Quoted(name), value);
    Text.Regroup("$", plain, Replace(rest, Quoted(name), value));
  }

  /** And the harmless word stands for exactly the references that are read. */
  lemma {:induction false} GuardedIsRendered(text: string, afterDollar: bool)
    ensures Guarded(text, afterDollar) == Rendered(Read(text), afterDollar)
    decreases |text|
  {
    if text != "" {
      hide Guarded, Rendered, IsName;
      match Leading(text)
      case Some(name) =>
        var rest := text[|Quoted(name)|..];
        GuardedIsRendered(rest, false);
        RenderedCons(Ref(name), Read(rest), afterDollar);
        GuardedReference(text, name, rest, afterDollar);
      case None =>
        GuardedIsRendered(text[1..], text[0] == '$');
        RenderedCons(Char(text[0]), Read(text[1..]), afterDollar);
        GuardedChar(text, afterDollar);
    }
  }

  lemma GuardedChar(text: string, afterDollar: bool)
    requires text != "" && Leading(text) == None
    ensures Guarded(text, afterDollar) == [text[0]] + Guarded(text[1..], text[0] == '$')
  {
    hide Leading;
  }

  lemma GuardedReference(text: string, name: string, rest: string, afterDollar: bool)
    requires text == Quoted(name) + rest && Leading(text) == Some(name)
    ensures Guarded(text, afterDollar) == (if afterDollar then Quoted(name) else PLACEHOLDER) + Guarded(rest, false)
  {
    NamesHoldNoMark(name);
    hide Leading, IsName;
    var plain := "(" + name + ")";
    assert Quoted(name) == "$" + plain && text == "$" + (plain + rest);
    assert text[|Quoted(name)|..] == rest && text[1..] == plain + rest;
    if afterDollar {
      GuardedSkips(plain, rest, true);
      Text.Regroup("$", plain, Guarded(rest, false));
    }
  }

  lemma {:induction false} GuardedSkips(plain: string, rest: string, afterDollar: bool)
    requires '$' !in plain && plain != ""
    ensures Guarded(plain + rest, afterDollar) == plain + Guarded(rest, false)
  {
    hide Guarded, Leading;
    var text, more := plain + rest, plain[1..] + rest;
    assert text[0] == plain[0] && text[1..] == more;
    assert Leading(text) == None by { PlainLeadsNowhere(text); }
    GuardedChar(text, afterDollar);
    if |plain| == 1 {
      assert more == rest && plain == [plain[0]];
    } else {
      GuardedSkips(plain[1..], rest, false);
      Text.Regroup([plain[0]], plain[1..], Guarded(rest, false));
      assert plain == [plain[0]] + plain[1..];
    }
  }

  lemma PlainLeadsNowhere(text: string)
    requires text != "" && text[0] != '$'
    ensures Leading(text) == None
  {
  }

  // ---------------------------------------------------------------- whole passes

  /** No reference has come into being across the edge of a value: the tokens are what the text they show
      is read as. */
  predicate Joinless(text: Tokens) {
    Read(Shown(text)) == text
  }

  /** Nor does one at any point of `k` passes. */
  ghost predicate StaysJoinless(vars: Variables, text: Tokens, k: nat)
    requires vars.Valid()
  {
    forall pass, n | 0 <= pass < k && 0 <= n <= |vars.order| :: Joinless(PassUpTo(vars, Passes(vars, text, pass), n))
  }

  lemma TokenedIsValid(makefile: Assignments)
    requires makefile.Valid()
    ensures Tokened(makefile).Valid()
  {
  }

  lemma {:induction false} PassIsTokens(makefile: Assignments, text: Tokens, n: nat)
    requires makefile.Valid() && n <= |makefile.order|
    ensures Tokened(makefile).Valid()
    ensures (forall i | 0 <= i <= n :: Joinless(PassUpTo(Tokened(makefile), text, i))) ==>
              RawPassUpTo(makefile, Shown(text), n) == Shown(PassUpTo(Tokened(makefile), text, n))
  {
    hide IsName, Joinless, Subst, Replace, Read, Shown, Quoted;
    TokenedIsValid(makefile);
    if n > 0 && forall i | 0 <= i <= n :: Joinless(PassUpTo(Tokened(makefile), text, i)) {
      var name := makefile.order[n - 1];
      PassIsTokens(makefile, text, n - 1);
      var before := PassUpTo(Tokened(makefile), text, n - 1);
      ReadIsShown(makefile.value[name]);
      ReplaceIsSubst(Shown(before), name, Read(makefile.value[name]));
      assert Joinless(before);
      assert Read(Shown(before)) == before by { JoinlessMeans(before); }
    }
  }

  lemma JoinlessMeans(text: Tokens)
    ensures Joinless(text) <==> Read(Shown(text)) == text
  {
  }

  lemma {:induction false} PassesAreTokens(makefile: Assignments, text: string, k: nat)
    requires makefile.Valid()
    ensures Tokened(makefile).Valid()
    ensures StaysJoinless(Tokened(makefile), Read(text), k) ==>
              RawPasses(makefile, text, k) == Shown(Passes(Tokened(makefile), Read(text), k))
  {
    hide Joinless, PassUpTo, RawPassUpTo;
    TokenedIsValid(makefile);
    var vars := Tokened(makefile);
    if k == 0 {
      ReadIsShown(text);
    } else if StaysJoinless(vars, Read(text), k) {
      PassesAreTokens(makefile, text, k - 1);
      PassIsTokens(makefile, Passes(vars, Read(text), k - 1), |makefile.order|);
    }
  }

  /** What the shell is handed is what the tokens give, as long as no reference comes into being across an
      edge; the second pass has to leave none either. */
  lemma ExpandIsTokens(makefile: Assignments, text: string)
    requires makefile.Valid()
    ensures Tokened(makefile).Valid()
    ensures StaysJoinless(Tokened(makefile), Read(text), 2) && Joinless(Passes(Tokened(makefile), Read(text), 2)) ==>
              Halved(Guarded(RawPasses(makefile, text, 2), false)) == Finish(Passes(Tokened(makefile), Read(text), 2))
  {
    hide Joinless, Passes, RawPasses, StaysJoinless, Guarded, Rendered, Halved;
    PassesAreTokens(makefile, text, 2);
    GuardedIsRendered(RawPasses(makefile, text, 2), false);
    JoinlessMeans(Passes(Tokened(makefile), Read(text), 2));
  }

  // ---------------------------------------------------------------- edges

  /** How much of a reference stands just before a place: nothing, a dollar, an opening, or an opening and
      the beginning of a name. */
  datatype Edge = Closed | AfterDollar | Bracket | Opened

  function Onward(edge: Edge, c: char): Edge {
    if c == '$' then AfterDollar
    else if edge == AfterDollar && c == '(' then Bracket
    else if edge == Bracket && NameChar(c) && !('0' <= c <= '9') then Opened
    else if edge == Opened && NameChar(c) then Opened
    else Closed
  }

  function Past(edge: Edge, token: Token): Edge {
    if token.Char? then Onward(edge, token.c) else Closed
  }

  function Ending(text: Tokens, edge: Edge): Edge {
    if text == [] then edge else Ending(text[1..], Past(edge, text[0]))
  }

  /** No bracket closes what characters have opened: such characters are a reference. */
  predicate Runs(text: Tokens, edge: Edge) {
    text == []
    || ((if text[0].Char? then !(edge == Opened && text[0].c == ')') else IsName(text[0].name))
        && Runs(text[1..], Past(edge, text[0])))
  }

  lemma {:induction false} RunsConcat(a: Tokens, b: Tokens, edge: Edge)
    ensures Runs(a + b, edge) <==> Runs(a, edge) && Runs(b, Ending(a, edge))
    ensures Ending(a + b, edge) == Ending(b, Ending(a, edge))
  {
    hide IsName, Past;
    if a == [] {
      assert a + b == b;
    } else {
      RunsConcat(a[1..], b, Past(edge, a[0]));
      assert (a + b)[0] == a[0] && (a + b)[1..] == a[1..] + b;
    }
  }

  lemma {:induction false} OpenedIsNotEnded(text: Tokens)
    requires Runs(text, Opened)
    ensures var s := Shown(text);
            NameRun(s) < |s| ==> s[NameRun(s)] != ')'
  {
    if text != [] && text[0].Char? {
      ShownCons(text[0], text[1..]);
      assert text == [text[0]] + text[1..];
      var rest := Shown(text[1..]);
      assert Shown(text)[0] == text[0].c && Shown(text)[1..] == rest;
      if NameChar(text[0].c) {
        OpenedIsNotEnded(text[1..]);
      }
    }
  }

  /** Characters that run so are what their text is read as. */
  lemma {:induction false} RunsIsJoinless(text: Tokens, edge: Edge)
    requires Runs(text, edge)
    ensures Joinless(text)
  {
    if text != [] {
      hide IsName, Leading;
      var rest := text[1..];
      assert text == [text[0]] + rest;
      ShownCons(text[0], rest);
      match text[0]
      case Ref(name) =>
        RunsIsJoinless(rest, Closed);
        assert Shown(text)[..|Quoted(name)|] == Quoted(name) && Shown(text)[|Quoted(name)|..] == Shown(rest);
        LeadsExactly(Shown(text), name);
      case Char(c) =>
        RunsIsJoinless(rest, Onward(edge, c));
        assert Shown(text)[0] == c && Shown(text)[1..] == Shown(rest);
        CharLeadsNowhere(text, rest, c, edge);
    }
  }

  lemma CharLeadsNowhere(text: Tokens, rest: Tokens, c: char, edge: Edge)
    requires text == [Char(c)] + rest && Runs(rest, Onward(edge, c))
    ensures Leading(Shown(text)) == None
  {
    hide Leading;
    ShownCons(Char(c), rest);
    if c == '$' && rest != [] && rest[0] == Char('(') {
      var more := rest[1..];
      assert rest == [Char('(')] + more;
      ShownCons(Char('('), more);
      assert Shown(text)[2..] == Shown(more);
      BracketLeadsNowhere(Shown(text), more);
    } else {
      if c == '$' && rest != [] {
        assert rest == [rest[0]] + rest[1..];
        ShownCons(rest[0], rest[1..]);
        assert Shown(text)[1] == if rest[0].Char? then rest[0].c else '$';
      }
      assert |Shown(text)| < 2 || Shown(text)[0] != '$' || Shown(text)[1] != '(';
      NoBracketLeadsNowhere(Shown(text));
    }
  }

  lemma NoBracketLeadsNowhere(text: string)
    requires |text| < 2 || text[0] != '$' || text[1] != '('
    ensures Leading(text) == None
  {
  }

  lemma BracketLeadsNowhere(text: string, more: Tokens)
    requires |text| >= 2 && text[2..] == Shown(more) && Runs(more, Bracket)
    ensures Leading(text) == None
  {
    if more != [] {
      ShownCons(more[0], more[1..]);
      assert more == [more[0]] + more[1..];
      var s, rest := Shown(more), Shown(more[1..]);
      if more[0].Char? && Onward(Bracket, more[0].c) == Opened {
        OpenedIsNotEnded(more[1..]);
        assert s[1..] == rest;
      }
      assert s[0] == if more[0].Char? then more[0].c else '$';
      assert NameRun(s) > 0 ==> text[2..NameRun(s) + 2][0] == s[0];
    }
  }

  /** What a place asks of the text after it, for no reference to have begun before it. */
  ghost predicate Quiet(edge: Edge, text: string) {
    match edge
    case Closed => true
    case AfterDollar => Leading("$" + text) == None
    case Bracket => Leading("$(" + text) == None
    case Opened => NameRun(text) < |text| ==> text[NameRun(text)] != ')'
  }

  lemma QuietOnward(edge: Edge, text: string)
    requires text != "" && Leading(text) == None && Quiet(edge, text)
    ensures Quiet(Onward(edge, text[0]), text[1..])
  {
    var c, rest := text[0], text[1..];
    assert text == [c] + rest;
    if c == '$' {
      assert "$" + rest == text;
    } else if edge == AfterDollar && c == '(' {
      assert "$(" + rest == "$" + text;
    } else if edge == Bracket && Onward(edge, c) == Opened {
      NameIsBegun(text);
    }
  }

  lemma NameIsBegun(text: string)
    requires text != "" && Onward(Bracket, text[0]) == Opened && Leading("$(" + text) == None
    ensures Quiet(Opened, text[1..])
  {
    var whole, n := "$(" + text, NameRun(text);
    assert whole[2..] == text && whole[2..n + 2] == text[..n];
    assert IsName(text[..n]);
  }

  lemma {:induction false} ReadRuns(text: string, edge: Edge)
    requires Quiet(edge, text)
    ensures Runs(Read(text), edge)
    decreases |text|
  {
    if text != "" {
      hide Leading, NameRun, IsName;
      match Leading(text)
      case Some(name) => ReadRuns(text[|Quoted(name)|..], Closed);
      case None =>
        QuietOnward(edge, text);
        ReadRuns(text[1..], Onward(edge, text[0]));
        OpenedMeets(edge, text);
    }
  }

  lemma OpenedMeets(edge: Edge, text: string)
    requires text != "" && Quiet(edge, text)
    ensures !(edge == Opened && text[0] == ')')
  {
  }

  /** Exactly when tokens are what their text is read as: a caller can tell from the characters alone. */
  lemma JoinlessExactly(text: Tokens)
    ensures Joinless(text) <==> Runs(text, Closed)
  {
    if Runs(text, Closed) {
      RunsIsJoinless(text, Closed);
    }
    ReadRuns(Shown(text), Closed);
  }

  /** The same of a text with a value in place of a name, read off the text and the value. */
  predicate RunsAcross(text: Tokens, name: string, value: Tokens, edge: Edge) {
    text == []
    || if text[0] == Ref(name) then Runs(value, edge) && RunsAcross(text[1..], name, value, Ending(value, edge))
       else Runs([text[0]], edge) && RunsAcross(text[1..], name, value, Past(edge, text[0]))
  }

  /** Exactly when a substitution lets no reference come into being: no edge where the value is put opens
      what follows, and none before it is carried on. */
  lemma {:induction false} SubstRunsExactly(text: Tokens, name: string, value: Tokens, edge: Edge)
    ensures Runs(Subst(text, name, value), edge) <==> RunsAcross(text, name, value, edge)
  {
    if text != [] {
      var head := if text[0] == Ref(name) then value else [text[0]];
      assert head == [text[0]] ==> Ending(head, edge) == Past(edge, text[0]);
      hide Past, IsName;
      SubstRunsExactly(text[1..], name, value, Ending(head, edge));
      RunsConcat(head, Subst(text[1..], name, value), edge);
    }
  }

  lemma SubstStaysJoinlessExactly(text: Tokens, name: string, value: Tokens)
    ensures Joinless(Subst(text, name, value)) <==> RunsAcross(text, name, value, Closed)
  {
    hide Joinless, Runs, RunsAcross, Subst;
    JoinlessExactly(Subst(text, name, value));
    SubstRunsExactly(text, name, value, Closed);
  }

  // ---------------------------------------------------------------- values with sealed edges

  /** Which variables may stand where. */
  type Seals = set<(string, Edge)>

  /** Every assigned variable the text refers to stands where it may. */
  predicate Safe(vars: Variables, seals: Seals, text: Tokens, edge: Edge) {
    text == []
    || ((if text[0].Char? then !(edge == Opened && text[0].c == ')')
         else IsName(text[0].name) && (text[0].name in vars.value ==> (text[0].name, edge) in seals))
        && Safe(vars, seals, text[1..], Past(edge, text[0])))
  }

  /** Put where it may stand, a value joins with nothing around it. An empty value may stand after nothing
      that a reference begins with; a number may not stand in an opening that has a name begun. */
  ghost predicate Sealed(vars: Variables, seals: Seals) {
    forall name, edge | (name, edge) in seals && name in vars.value ::
      Safe(vars, seals, vars.value[name], edge) && Ending(vars.value[name], edge) == Closed
  }

  lemma {:induction false} SafeRuns(vars: Variables, seals: Seals, text: Tokens, edge: Edge)
    requires Safe(vars, seals, text, edge)
    ensures Runs(text, edge)
  {
    hide IsName, Past;
    if text != [] {
      SafeRuns(vars, seals, text[1..], Past(edge, text[0]));
    }
  }

  lemma {:induction false} SafeConcat(vars: Variables, seals: Seals, a: Tokens, b: Tokens, edge: Edge)
    ensures Safe(vars, seals, a + b, edge) <==> Safe(vars, seals, a, edge) && Safe(vars, seals, b, Ending(a, edge))
  {
    hide IsName, Past;
    if a == [] {
      assert a + b == b;
    } else {
      SafeConcat(vars, seals, a[1..], b, Past(edge, a[0]));
      assert (a + b)[0] == a[0] && (a + b)[1..] == a[1..] + b;
    }
  }

  lemma {:induction false} SubstStaysSafe(vars: Variables, seals: Seals, text: Tokens, name: string, edge: Edge)
    requires Sealed(vars, seals) && name in vars.value && Safe(vars, seals, text, edge)
    ensures Safe(vars, seals, Subst(text, name, vars.value[name]), edge)
  {
    if text != [] {
      hide IsName, Onward;
      var value, rest := vars.value[name], Subst(text[1..], name, vars.value[name]);
      SubstStaysSafe(vars, seals, text[1..], name, Past(edge, text[0]));
      if text[0] == Ref(name) {
        SafeConcat(vars, seals, value, rest, edge);
      } else {
        assert ([text[0]] + rest)[1..] == rest;
      }
    }
  }

  lemma {:induction false} PassStaysSafe(vars: Variables, seals: Seals, text: Tokens, n: nat)
    requires vars.Valid() && Sealed(vars, seals) && Safe(vars, seals, text, Closed) && n <= |vars.order|
    ensures Safe(vars, seals, PassUpTo(vars, text, n), Closed)
  {
    if n > 0 {
      hide Subst, Safe, Sealed;
      PassStaysSafe(vars, seals, text, n - 1);
      SubstStaysSafe(vars, seals, PassUpTo(vars, text, n - 1), vars.order[n - 1], Closed);
    }
  }

  lemma {:induction false} PassesStaySafe(vars: Variables, seals: Seals, text: Tokens, k: nat)
    requires vars.Valid() && Sealed(vars, seals) && Safe(vars, seals, text, Closed)
    ensures Safe(vars, seals, Passes(vars, text, k), Closed)
  {
    if k > 0 {
      hide PassUpTo, Safe, Sealed;
      PassesStaySafe(vars, seals, text, k - 1);
      PassStaysSafe(vars, seals, Passes(vars, text, k - 1), |vars.order|);
    }
  }

  /** With sealed values no reference ever comes into being across an edge, in any number of passes. */
  lemma SealedStaysJoinless(vars: Variables, seals: Seals, text: Tokens, k: nat)
    requires vars.Valid() && Sealed(vars, seals) && Safe(vars, seals, text, Closed)
    ensures StaysJoinless(vars, text, k) && Joinless(Passes(vars, text, k))
  {
    hide PassUpTo, Passes, Safe, Sealed, Joinless;
    forall pass, n | 0 <= pass < k && 0 <= n <= |vars.order|
      ensures Joinless(PassUpTo(vars, Passes(vars, text, pass), n))
    {
      PassesStaySafe(vars, seals, text, pass);
      PassStaysSafe(vars, seals, Passes(vars, text, pass), n);
      SafeRuns(vars, seals, PassUpTo(vars, Passes(vars, text, pass), n), Closed);
      RunsIsJoinless(PassUpTo(vars, Passes(vars, text, pass), n), Closed);
    }
    PassesStaySafe(vars, seals, text, k);
    SafeRuns(vars, seals, Passes(vars, text, k), Closed);
    RunsIsJoinless(Passes(vars, text, k), Closed);
  }

  /** The places where assigned variables stand in a text. */
  function Places(vars: Variables, text: Tokens, edge: Edge): Seals {
    if text == [] then {}
    else (if text[0].Ref? && text[0].name in vars.value then {(text[0].name, edge)} else {})
         + Places(vars, text[1..], Past(edge, text[0]))
  }

  lemma {:induction false} SafeExactly(vars: Variables, seals: Seals, text: Tokens, edge: Edge)
    ensures Safe(vars, seals, text, edge) <==> Runs(text, edge) && Places(vars, text, edge) <= seals
  {
    hide IsName, Past;
    if text != [] {
      SafeExactly(vars, seals, text[1..], Past(edge, text[0]));
    }
  }

  /** Of a text that is read nothing is asked but where its variables stand. */
  lemma ReadIsSafe(vars: Variables, seals: Seals, text: string)
    ensures Safe(vars, seals, Read(text), Closed) <==> Places(vars, Read(text), Closed) <= seals
  {
    hide Safe, Runs, Places, Read;
    ReadRuns(text, Closed);
    SafeExactly(vars, seals, Read(text), Closed);
  }

  /** Two passes never join, on the raw text of a recipe: every variable it refers to is sealed where it
      stands. */
  ghost predicate Fits(makefile: Assignments, seals: Seals, text: string) {
    Sealed(Tokened(makefile), seals) && Places(Tokened(makefile), Read(text), Closed) <= seals
  }

  /** So on raw text, with sealed values nested at most two deep, two passes are full expansion. */
  lemma ExpandIsFullOnText(makefile: Assignments, seals: Seals, rank: map<string, nat>, text: string)
    requires makefile.Valid() && Tokened(makefile).Valid() && Ranked(Tokened(makefile), rank)
    requires Fits(makefile, seals, text)
    requires forall name | name in Refs(Tokened(makefile), Read(text)) :: rank[name] <= 2
    ensures Below(Tokened(makefile), rank, Read(text), 3)
    ensures Halved(Guarded(RawPasses(makefile, text, 2), false))
         == Finish(Full(Tokened(makefile), rank, Read(text), 3))
  {
    hide Joinless, Passes, RawPasses, StaysJoinless, Guarded, Rendered, Halved;
    hide Read, Tokened, Refs, Full, Safe, Sealed, Places;
    ReadIsSafe(Tokened(makefile), seals, text);
    ExpandIsFull(Tokened(makefile), rank, Read(text));
    SealedStaysJoinless(Tokened(makefile), seals, Read(text), 2);
    ExpandIsTokens(makefile, text);
  }

  // ---------------------------------------------------------------- a command substitution

  function Chars(plain: string): Tokens {
    if plain == "" then [] else [Char(plain[0])] + Chars(plain[1..])
  }

  lemma {:induction false} PlainIsRead(plain: string, rest: string)
    requires '$' !in plain
    ensures Read(plain + rest) == Chars(plain) + Read(rest)
  {
    if plain == "" {
      assert plain + rest == rest;
    } else {
      assert Chars(plain) == [Char(plain[0])] + Chars(plain[1..]);
      hide Read, Chars;
      PlainIsRead(plain[1..], rest);
      PlainLeadsNowhere(plain + rest);
      ReadNext(plain + rest);
      Text.Unshift(plain, rest);
      assert (plain + rest)[1..] == plain[1..] + rest;
      Text.Regroup([Char(plain[0])], Chars(plain[1..]), Read(rest));
    }
  }

  lemma ReadNext(text: string)
    requires text != "" && Leading(text) == None
    ensures Read(text) == [Char(text[0])] + Read(text[1..])
  {
    hide Leading;
  }

  lemma {:induction false} PlainStays(plain: string)
    requires '$' !in plain
    ensures Runs(Chars(plain), Closed) && Ending(Chars(plain), Closed) == Closed
  {
    if plain != "" {
      PlainStays(plain[1..]);
      assert Chars(plain)[1..] == Chars(plain[1..]);
    }
  }

  lemma {:induction false} PlacesConcat(vars: Variables, a: Tokens, b: Tokens, edge: Edge)
    ensures Places(vars, a + b, edge) == Places(vars, a, edge) + Places(vars, b, Ending(a, edge))
  {
    hide Past;
    if a == [] {
      assert a + b == b;
    } else {
      PlacesConcat(vars, a[1..], b, Past(edge, a[0]));
      assert (a + b)[0] == a[0] && (a + b)[1..] == a[1..] + b;
    }
  }

  /** A shell's own substitution with a variable first in it: the recipe hands `$(` to the shell and the
      variable stands in that opening. */
  lemma CommandSubstitutionFits(makefile: Assignments, before: string, name: string, after: string)
    requires makefile.Valid() && name in makefile.value && '$' !in before && '$' !in after
    requires var value := makefile.value[name]; value != "" && '$' !in value && !NameChar(value[0])
    ensures Fits(makefile, {(name, Bracket)}, before + ("$$(" + (Quoted(name) + after)))
  {
    var vars, value := Tokened(makefile), makefile.value[name];
    ValueFits(vars, {(name, Bracket)}, name, value);
    var inner := Quoted(name) + after;
    OpeningIsRead(vars, name, after);
    PlainIsRead(before, "$$(" + inner);
    PlainStays(before);
    PlainHasNoPlaces(vars, before, Closed);
    PlacesConcat(vars, Chars(before), Read("$$(" + inner), Closed);
  }

  lemma ValueFits(vars: Variables, seals: Seals, name: string, value: string)
    requires value != "" && '$' !in value && !NameChar(value[0])
    requires name in vars.value && vars.value[name] == Read(value) && seals == {(name, Bracket)}
    ensures Sealed(vars, seals)
  {
    PlainIsRead(value, "");
    assert value + "" == value && Chars(value) + [] == Chars(value);
    PlainStays(value[1..]);
    assert Chars(value) == [Char(value[0])] + Chars(value[1..]) && Chars(value)[1..] == Chars(value[1..]);
    assert Onward(Bracket, value[0]) == Closed;
    assert Runs(Chars(value), Bracket) && Ending(Chars(value), Bracket) == Closed;
    PlainHasNoPlaces(vars, value, Bracket);
    SafeExactly(vars, seals, Chars(value), Bracket);
  }

  lemma {:induction false} PlainHasNoPlaces(vars: Variables, plain: string, edge: Edge)
    ensures Places(vars, Chars(plain), edge) == {}
  {
    if plain != "" {
      PlainHasNoPlaces(vars, plain[1..], Onward(edge, plain[0]));
      assert Chars(plain)[1..] == Chars(plain[1..]);
    }
  }

  lemma OpeningIsRead(vars: Variables, name: string, after: string)
    requires IsName(name) && '$' !in after && name in vars.value
    ensures Places(vars, Read("$$(" + (Quoted(name) + after)), Closed) == {(name, Bracket)}
  {
    hide IsName, Read, Quoted, Places, Leading;
    var inner := Quoted(name) + after;
    ReadReference(name, after);
    PlainIsRead(after, "");
    assert Read("") == [] by { ReadOfNothing(); }
    assert after + "" == after && Chars(after) + [] == Chars(after);
    PlainHasNoPlaces(vars, after, Closed);
    var bracketed, single, double := "(" + inner, "$(" + inner, "$$(" + inner;
    NoBracketLeadsNowhere(bracketed);
    NoBracketLeadsNowhere(double);
    ReferenceIsNoName(name, after);
    ReadNext(bracketed);
    ReadNext(single);
    ReadNext(double);
    assert bracketed[1..] == inner && single[1..] == bracketed && double[1..] == single;
    FourPlaces(vars, name, Chars(after));
  }

  lemma ReadOfNothing()
    ensures Read("") == []
  {
  }

  lemma ReferenceIsNoName(name: string, after: string)
    ensures Leading("$(" + (Quoted(name) + after)) == None
  {
    var inner := Quoted(name) + after;
    var single := "$(" + inner;
    assert single[2..] == inner && inner[0] == '$' && NameRun(inner) == 0;
    assert single[2..2] == "";
  }

  lemma FourPlaces(vars: Variables, name: string, rest: Tokens)
    requires name in vars.value && Places(vars, rest, Closed) == {}
    ensures Places(vars, [Char('$')] + ([Char('$')] + ([Char('(')] + ([Ref(name)] + rest))), Closed)
         == {(name, Bracket)}
  {
    var d := [Ref(name)] + rest;
    var c := [Char('(')] + d;
    var b := [Char('$')] + c;
    var a := [Char('$')] + b;
    assert a[1..] == b && b[1..] == c && c[1..] == d && d[1..] == rest;
    assert Places(vars, d, Bracket) == {(name, Bracket)};
    assert Places(vars, c, AfterDollar) == {(name, Bracket)};
    assert Places(vars, b, AfterDollar) == {(name, Bracket)};
  }

  /** `for image in $$($(PY) -m supply.images); do` */
  function SbomLoop(): string {
    "for image in " + ("$$(" + (Quoted("PY") + " -m supply.images); do"))
  }

  /** The loop over images, with the interpreter that the Makefile's last assignment names. */
  lemma SbomIsCovered(makefile: Assignments)
    requires makefile.Valid() && "PY" in makefile.value && makefile.value["PY"] == ".venv/Scripts/python.exe"
    ensures Fits(makefile, {("PY", Bracket)}, SbomLoop())
  {
    hide Fits, Quoted;
    CommandSubstitutionFits(makefile, "for image in ", "PY", " -m supply.images); do");
  }

  // ---------------------------------------------------------------- an edge that is not sealed

  /** A value that ends in a dollar: it and the text after it make a reference that neither holds. */
  function Unsealed(): Assignments {
    Assignments(map["A" := "$", "B" := "x"], ["A", "B"])
  }

  /** The raw passes expand that reference, and substitution of whole references does not. */
  lemma AnEdgeMakesAReference()
    ensures Unsealed().Valid() && Tokened(Unsealed()).Valid()
    ensures RawPasses(Unsealed(), "$(A)(B)", 2) == "x"
    ensures Shown(Passes(Tokened(Unsealed()), Read("$(A)(B)"), 2)) == "$(B)"
  {
    UnsealedSteps();
    var makefile := Unsealed();
    var vars := Tokened(makefile);
    hide Replace, Subst, Read, Tokened;
    assert RawPassUpTo(makefile, "$(A)(B)", 1) == "$(B)";
    assert RawPassUpTo(makefile, "$(A)(B)", 2) == "x";
    assert RawPassUpTo(makefile, "x", 1) == "x";
    assert RawPassUpTo(makefile, "x", 2) == "x";
    assert RawPasses(makefile, "$(A)(B)", 1) == "x";
    var read, left := [Ref("A")] + Apart(), [Char('$')] + Apart();
    assert PassUpTo(vars, read, 1) == left;
    assert PassUpTo(vars, read, 2) == left;
    assert PassUpTo(vars, left, 1) == left;
    assert PassUpTo(vars, left, 2) == left;
    assert Passes(vars, read, 1) == left;
  }

  /** The characters `(B)`. */
  function Apart(): Tokens {
    [Char('('), Char('B'), Char(')')]
  }

  lemma UnsealedSteps()
    ensures Unsealed().Valid() && Tokened(Unsealed()).Valid()
    ensures Tokened(Unsealed()) == Variables(map["A" := [Char('$')], "B" := [Char('x')]], ["A", "B"])
    ensures Read("$(A)(B)") == [Ref("A")] + Apart() && Shown([Char('$')] + Apart()) == "$(B)"
    ensures Replace("$(A)(B)", Quoted("A"), "$") == "$(B)" && Replace("$(B)", Quoted("B"), "x") == "x"
    ensures Replace("x", Quoted("A"), "$") == "x" && Replace("x", Quoted("B"), "x") == "x"
    ensures Subst([Ref("A")] + Apart(), "A", [Char('$')]) == [Char('$')] + Apart()
    ensures forall name, value :: Subst([Char('$')] + Apart(), name, value) == [Char('$')] + Apart()
  {
    hide Replace, Subst, Read, Shown, Leading, Apart;
    ShortReadings();
    assert Tokened(Unsealed()).value == map["A" := [Char('$')], "B" := [Char('x')]];
    ApartIsRead();
    NoReferences(Apart());
    NoReferences([Char('$')] + Apart());
    NoReferences([Char('x')]);
    ReadReference("A", "(B)");
    ReadReference("B", "");
    assert Quoted("A") + "(B)" == "$(A)(B)" && Quoted("B") + "" == "$(B)";
    SubstCons(Ref("A"), Apart(), "A", [Char('$')]);
    SubstCons(Ref("B"), [], "B", [Char('x')]);
    NoReferences([]);
    assert [Ref("B")] + [] == [Ref("B")] && [Char('x')] + [] == [Char('x')];
    ReplaceIsSubst("$(A)(B)", "A", [Char('$')]);
    ReplaceIsSubst("$(B)", "B", [Char('x')]);
    ReplaceIsSubst("x", "A", [Char('$')]);
    ReplaceIsSubst("x", "B", [Char('x')]);
  }

  lemma {:induction false} NoReferences(text: Tokens)
    requires forall i | 0 <= i < |text| :: text[i].Char?
    ensures forall name, value :: Subst(text, name, value) == text
  {
    if text != [] {
      NoReferences(text[1..]);
      assert text == [text[0]] + text[1..];
    }
  }

  lemma ReadReference(name: string, rest: string)
    requires IsName(name)
    ensures Read(Quoted(name) + rest) == [Ref(name)] + Read(rest)
  {
    var text := Quoted(name) + rest;
    assert text[..|Quoted(name)|] == Quoted(name) && text[|Quoted(name)|..] == rest;
    LeadsExactly(text, name);
  }

  lemma ReadChar(c: char, rest: string)
    requires c != '$'
    ensures Read([c] + rest) == [Char(c)] + Read(rest)
  {
    PlainLeadsNowhere([c] + rest);
    assert ([c] + rest)[1..] == rest;
  }

  lemma ShortReadings()
    ensures Read("") == [] && Read("$") == [Char('$')] && Read("x") == [Char('x')]
    ensures Shown([Char('$')]) == "$" && Shown([Char('x')]) == "x"
  {
    assert Leading("$") == None && "$"[1..] == "";
    ReadChar('x', "");
    ReadIsShown("$");
    ReadIsShown("x");
    assert "x" + "" == "x" && [Char('x')] + [] == [Char('x')] && [Char('$')] + [] == [Char('$')];
  }

  lemma ApartIsRead()
    ensures Read("(B)") == Apart() && Shown([Char('$')] + Apart()) == "$(B)"
    ensures |Apart()| == 3 && forall i | 0 <= i < 3 :: Apart()[i].Char?
  {
    hide Read;
    ShortReadings();
    ReadChar(')', "");
    ReadChar('B', ")");
    ReadChar('(', "B)");
    assert ")" + "" == ")" && "B" + ")" == "B)" && "(" + "B)" == "(B)";
    ReadIsShown("(B)");
    ShownCons(Char('$'), Apart());
    assert "$" + "(B)" == "$(B)";
  }
}
