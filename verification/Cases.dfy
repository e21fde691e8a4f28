/** Recipes that show what the exact condition is about: an escaped dollar before a name in brackets, a
    trap that comes out right by chance, and a command substitution that a variable begins. */
module Cases {
  import opened Wrappers
  import opened Expansion
  import opened Recipes
  import opened Shell
  import opened Make
  import Text

  // ---------------------------------------------------------------- an escaped dollar before a name in brackets

  /** One assignment, `B := x`. */
  function OneAssigned(): Assignments {
    Assignments(map["B" := "x"], ["B"])
  }

  /** `$$(B)` with B assigned: make hands the shell `$(B)`, and the code `$x`. */
  lemma EscapedReferenceIsExpanded(rank: map<string, nat>)
    ensures OneAssigned().Valid() && Handed(OneAssigned(), "$$(B)") == "$x"
    ensures Meaning(OneAssigned(), rank, "$$(B)") == "$(B)"
    ensures !TrapFree(OneAssigned(), rank, "$$(B)", 3)
  {
    var makefile := OneAssigned();
    TrappedText("B");
    TrapStep(makefile, rank, "$$(B)", 3, "B");
    BracketedMeans(makefile, rank, "B");
    OneAssignedPasses();
    hide RawPasses, Guarded;
    assert Guarded("$x", false) == "$x" && Halved("$x") == "$x" by { DollarXIsFinal(); }
  }

  lemma TrappedText(name: string)
    requires IsName(name)
    ensures var text := "$" + Quoted(name);
            && |text| >= 2 && text[..2] == "$$" && Leading(text[1..]) == Some(name)
            && text[1 + |Quoted(name)|..] == ""
    ensures "$" + Quoted("B") == "$$(B)" && "$" + Quoted("X") == "$$(X)"
  {
    var text := "$" + Quoted(name);
    assert text[1..] == Quoted(name) && Quoted(name)[..|Quoted(name)|] == Quoted(name);
    LeadsExactly(text[1..], name);
    assert text[..2][0] == '$' && text[..2][1] == '$';
  }

  lemma BracketedMeans(makefile: Assignments, rank: map<string, nat>, name: string)
    requires Parsed("$" + Quoted(name)) == [Plain('$')] + (Plains("(" + name + ")") + [])
    ensures Meaning(makefile, rank, "$" + Quoted(name)) == Quoted(name)
  {
    var plain := "(" + name + ")";
    TrapExpands(Source(makefile), rank, plain, [], 3);
    assert Expanded(Source(makefile), rank, [], 3) == [];
    PlainsMean(plain, []);
    MeantCons('$', Plains(plain) + []);
    assert plain + "" == plain;
  }

  lemma OneAssignedPasses()
    ensures OneAssigned().Valid() && RawPasses(OneAssigned(), "$$(B)", 2) == "$x"
  {
    var makefile := OneAssigned();
    OneReplaced();
    hide Replace;
    assert RawPassUpTo(makefile, "$$(B)", 1) == "$x";
    assert RawPassUpTo(makefile, "$x", 1) == "$x";
    assert RawPasses(makefile, "$$(B)", 1) == "$x";
  }

  lemma OneReplaced()
    ensures Replace("$$(B)", Quoted("B"), "x") == "$x" && Replace("$x", Quoted("B"), "x") == "$x"
  {
    TrappedText("B");
    NoBracketLeadsNowhere("$$(B)");
    TrapIsRead("$$(B)", "B", "");
    ShortReadings();
    hide Replace, Read, Shown, Leading;
    assert "$$(B)"[1..] == Quoted("B") + "";
    ReplaceIsSubst("$$(B)", "B", [Char('x')]);
    DollarXIsRead();
    ReplaceIsSubst("$x", "B", [Char('x')]);
    NoReferences([Char('$'), Char('x')]);
    SubstCons(Char('$'), [Ref("B")], "B", [Char('x')]);
    SubstCons(Ref("B"), [], "B", [Char('x')]);
    assert [Char('$'), Ref("B")] == [Char('$')] + [Ref("B")] && [Ref("B")] == [Ref("B")] + [];
    assert Subst([], "B", [Char('x')]) == [] && [Char('x')] + [] == [Char('x')];
    assert [Char('$')] + [Char('x')] == [Char('$'), Char('x')];
  }

  lemma DollarXIsRead()
    ensures Read("$x") == [Char('$'), Char('x')] && Shown([Char('$'), Char('x')]) == "$x"
  {
    NoBracketLeadsNowhere("$x");
    ReadNext("$x");
    ShortReadings();
    ReadIsShown("$x");
    assert "$x"[1..] == "x";
  }

  lemma DollarXIsFinal()
    ensures Guarded("$x", false) == "$x" && Halved("$x") == "$x"
  {
    NoBracketLeadsNowhere("$x");
    NoBracketLeadsNowhere("x");
    assert "$x"[1..] == "x" && "x"[1..] == "";
  }

  /** `$$(X)` with X unknown comes out as make has it, though a reference is what the text is read as. */
  lemma EscapedUnknownIsMeant(makefile: Assignments, seals: Seals, rank: map<string, nat>, name: string)
    requires Covered(makefile, seals, rank, "$" + Quoted(name)) && IsName(name) && name !in makefile.value
    ensures Handed(makefile, "$" + Quoted(name)) == Meaning(makefile, rank, "$" + Quoted(name)) == Quoted(name)
  {
    var text, plain := "$" + Quoted(name), "(" + name + ")";
    NamesHoldNoMark(name);
    TrappedText(name);
    TrapStep(makefile, rank, text, 3, name);
    NothingTraps(makefile, rank, 3);
    BracketedMeans(makefile, rank, name);
    TrapExpands(Source(makefile), rank, plain, [], 3);
    assert Expanded(Source(makefile), rank, [], 3) == [];
    PlainsFollowNoDollar(plain, true);
    assert ([Plain('$')] + (Plains(plain) + []))[1..] == Plains(plain);
    hide Handed, Covered, TrapFree, Meaning;
    RecipeIsMeantExactly(makefile, seals, rank, text);
  }

  lemma {:induction false} PlainsFollowNoDollar(plain: string, afterDollar: bool)
    requires '$' !in plain
    ensures !FollowsDollar(Plains(plain), afterDollar)
  {
    if plain != "" {
      PlainsFollowNoDollar(plain[1..], false);
      assert Plains(plain)[1..] == Plains(plain[1..]);
    }
  }

  // ---------------------------------------------------------------- a trap that happens to come out right

  /** A variable called by the harmless word, whose value begins with a bracket. */
  function Disguised(): Assignments {
    Assignments(map[PLACEHOLDER := "($(X))"], [PLACEHOLDER])
  }

  /** Why values that begin with a bracket are set apart: the trap is sprung, and what it hands the shell is
      what make means all the same. */
  lemma DisguisedTrap(rank: map<string, nat>)
    ensures Disguised().Valid() && !TrapFree(Disguised(), rank, "$" + Quoted(PLACEHOLDER), 3)
    ensures Handed(Disguised(), "$" + Quoted(PLACEHOLDER)) == Meaning(Disguised(), rank, "$" + Quoted(PLACEHOLDER))
  {
    var makefile, text := Disguised(), "$" + Quoted(PLACEHOLDER);
    assert IsName(PLACEHOLDER);
    TrappedText(PLACEHOLDER);
    TrapStep(makefile, rank, text, 3, PLACEHOLDER);
    BracketedMeans(makefile, rank, PLACEHOLDER);
    DisguisedPasses();
    DisguisedIsFinal();
    hide RawPasses, Guarded, Halved, Meaning, TrapFree;
    assert Handed(makefile, text) == Quoted(PLACEHOLDER);
  }

  /** `$($(X))` */
  function Inside(): Tokens {
    [Char('$')] + ([Char('(')] + ([Ref("X")] + [Char(')')]))
  }

  lemma InsideIsRead()
    ensures Read("$($(X))") == Inside() && Shown(Inside()) == "$($(X))"
    ensures Read("($(X))") == [Char('(')] + ([Ref("X")] + [Char(')')])
  {
    hide Leading, Read, Shown, IsName, Quoted;
    ReferenceAndBracket();
    ReadChar('(', "$(X))");
    assert "(" + "$(X))" == "($(X))";
    OpeningLeadsNowhere();
    ReadNext("$($(X))");
    assert "$($(X))"[1..] == "($(X))";
    ReadIsShown("$($(X))");
  }

  lemma OpeningLeadsNowhere()
    ensures Leading("$($(X))") == None
  {
    assert "$(" + "$(X))" == "$($(X))";
    ReferenceIsNoName("X", ")");
    assert Quoted("X") + ")" == "$(X))";
  }

  lemma ReferenceAndBracket()
    ensures Read("$(X))") == [Ref("X")] + [Char(')')]
  {
    assert IsName("X");
    hide Leading, Read, Shown, IsName;
    ReadChar(')', "");
    ShortReadings();
    assert ")" + "" == ")" && [Char(')')] + [] == [Char(')')];
    ReadReference("X", ")");
    assert Quoted("X") + ")" == "$(X))";
  }

  lemma DisguisedPasses()
    ensures Disguised().Valid() && RawPasses(Disguised(), "$" + Quoted(PLACEHOLDER), 2) == "$($(X))"
  {
    var makefile, text := Disguised(), "$" + Quoted(PLACEHOLDER);
    assert IsName(PLACEHOLDER);
    DisguisedReplaced();
    hide Replace, Quoted;
    assert RawPassUpTo(makefile, text, 1) == "$($(X))";
    assert RawPassUpTo(makefile, "$($(X))", 1) == "$($(X))";
    assert RawPasses(makefile, text, 1) == "$($(X))";
  }

  lemma DisguisedReplaced()
    ensures Replace("$" + Quoted(PLACEHOLDER), Quoted(PLACEHOLDER), "($(X))") == "$($(X))"
    ensures Replace("$($(X))", Quoted(PLACEHOLDER), "($(X))") == "$($(X))"
  {
    assert IsName(PLACEHOLDER);
    hide Replace, Quoted, IsName;
    PutInside(PLACEHOLDER);
    NotInside(PLACEHOLDER);
  }

  lemma PutInside(name: string)
    requires IsName(name)
    ensures Replace("$" + Quoted(name), Quoted(name), "($(X))") == "$($(X))"
  {
    var text, value := "$" + Quoted(name), [Char('(')] + ([Ref("X")] + [Char(')')]);
    NoBracketLeadsNowhere(text);
    assert text[1..] == Quoted(name) + "";
    hide Replace, Read, Shown, Leading, IsName, Quoted, Subst;
    InsideIsRead();
    ReadIsShown("($(X))");
    ShortReadings();
    TrapIsRead(text, name, "");
    ReplaceIsSubst(text, name, value);
    SubstPair(name, value);
    assert [Char('$'), Ref(name)] + [] == [Char('$'), Ref(name)];
  }

  lemma SubstPair(name: string, value: Tokens)
    ensures Subst([Char('$'), Ref(name)], name, value) == [Char('$')] + value
  {
    hide Subst;
    SubstCons(Char('$'), [Ref(name)], name, value);
    SubstCons(Ref(name), [], name, value);
    NoReferences([]);
    assert [Char('$'), Ref(name)] == [Char('$')] + [Ref(name)];
    assert [Ref(name)] == [Ref(name)] + [] && value + [] == value;
  }

  lemma NotInside(name: string)
    requires IsName(name) && name != "X"
    ensures Replace("$($(X))", Quoted(name), "($(X))") == "$($(X))"
  {
    hide Replace, Read, Shown, IsName, Quoted, Subst;
    var value := [Char('(')] + ([Ref("X")] + [Char(')')]);
    InsideIsRead();
    ReadIsShown("($(X))");
    ReplaceIsSubst("$($(X))", name, value);
    SubstCons(Char('$'), value, name, value);
    SubstCons(Char('('), [Ref("X")] + [Char(')')], name, value);
    SubstCons(Ref("X"), [Char(')')], name, value);
    NoReferences([Char(')')]);
  }

  lemma DisguisedIsFinal()
    ensures Halved(Guarded("$($(X))", false)) == Quoted(PLACEHOLDER)
  {
    hide Guarded, Rendered, Halved, Read, Quoted, RenderedOne;
    InsideIsRead();
    GuardedIsRendered("$($(X))", false);
    InsideIsRendered();
    HalvedBracketed(PLACEHOLDER);
  }

  lemma InsideIsRendered()
    ensures Rendered(Inside(), false) == "$" + ("(" + PLACEHOLDER + ")")
  {
    assert IsName("X");
    hide Rendered, IsName;
    RenderedCons(Char('$'), [Char('(')] + ([Ref("X")] + [Char(')')]), false);
    RenderedCons(Char('('), [Ref("X")] + [Char(')')], true);
    RenderedCons(Ref("X"), [Char(')')], false);
    RenderedCons(Char(')'), [], false);
    NothingRendered();
    assert [Char(')')] == [Char(')')] + [];
    Text.Regroup("(", PLACEHOLDER, ")");
  }

  lemma HalvedBracketed(name: string)
    requires '$' !in name
    ensures Halved("$" + ("(" + name + ")")) == Quoted(name)
  {
    hide Halved;
    var plain := "(" + name + ")";
    HalvedSingle(plain);
    HalvedPlain(plain, "");
    HalvedNothing();
    assert plain + "" == plain && "$" + plain == Quoted(name);
  }

  lemma HalvedNothing()
    ensures Halved("") == ""
  {
  }

  // ---------------------------------------------------------------- the loop over images

  predicate NoNames(items: seq<Item>) {
    forall i | 0 <= i < |items| :: items[i].Plain?
  }

  lemma {:induction false} NoNamesFollow(items: seq<Item>, afterDollar: bool)
    requires NoNames(items)
    ensures !FollowsDollar(items, afterDollar)
  {
    if items != [] {
      NoNamesFollow(items[1..], items[0] == Plain('$'));
    }
  }

  lemma {:induction false} PlainsAreNoNames(plain: string)
    ensures NoNames(Plains(plain))
  {
    if plain != "" {
      PlainsAreNoNames(plain[1..]);
    }
  }

  /** A value without a dollar is dollared, holds no trap, and is read as itself. */
  lemma PlainValue(makefile: Assignments, rank: map<string, nat>, value: string, limit: nat)
    requires '$' !in value
    ensures Dollared(value) && TrapFree(makefile, rank, value, limit) && Parsed(value) == Plains(value)
    ensures Read(value) == Chars(value)
  {
    PlainIsParsed(makefile, rank, value, "", limit);
    PlainIsRead(value, "");
    NothingTraps(makefile, rank, limit);
    assert value + "" == value && Plains(value) + [] == Plains(value) && Chars(value) + [] == Chars(value);
  }

  /** The pieces of a command substitution that a variable begins. */
  lemma SubstitutionIsParsed(
    makefile: Assignments, rank: map<string, nat>, before: string, name: string, after: string)
    requires '$' !in before && '$' !in after && IsName(name) && name in makefile.value && '$' !in makefile.value[name]
    ensures var text := before + ("$$(" + (Quoted(name) + after));
            && Dollared(text) && TrapFree(makefile, rank, text, 3)
            && Parsed(text) == Plains(before) + ([Plain('$')] + ([Plain('(')] + ([Named(name)] + Plains(after))))
            && Read(text) == Chars(before) + ([Char('$'), Char('$')] + ([Char('(')] + ([Ref(name)] + Chars(after))))
  {
    hide Dollared, TrapFree, Parsed, Read, Leading, IsName, Quoted, Plains, Chars;
    var inner := Quoted(name) + after;
    var bracketed := "(" + inner;
    PlainValue(makefile, rank, after, 3);
    PlainValue(makefile, rank, makefile.value[name], if name in rank then rank[name] else 0);
    QuotedLeads(name, after);
    ReferenceStep(makefile, rank, inner, 3, name);
    PlainStep(makefile, rank, bracketed, 3);
    assert bracketed[1..] == inner;
    var double := "$$" + bracketed;
    assert double[..2] == "$$" && double[2..] == bracketed && double[1..] == "$(" + inner;
    ReferenceIsNoName(name, after);
    DollarStep(makefile, rank, double, 3);
    PlainIsParsed(makefile, rank, before, double, 3);
    PlainIsRead(before, double);
    assert "$$(" + inner == double;
  }

  lemma QuotedLeads(name: string, after: string)
    requires IsName(name)
    ensures Leading(Quoted(name) + after) == Some(name) && (Quoted(name) + after)[|Quoted(name)|..] == after
  {
    var text := Quoted(name) + after;
    assert text[..|Quoted(name)|] == Quoted(name);
    LeadsExactly(text, name);
  }

  /** Such a recipe is handed to the shell as make means it. */
  lemma SubstitutionIsMeant(
    makefile: Assignments, rank: map<string, nat>, before: string, name: string, after: string)
    requires makefile.Valid() && AllDollared(makefile) && Ranked(Tokened(makefile), rank)
    requires name in makefile.value && rank[name] <= 2 && '$' !in before && '$' !in after
    requires var value := makefile.value[name]; value != "" && '$' !in value && !NameChar(value[0])
    ensures var text := before + ("$$(" + (Quoted(name) + after));
            Handed(makefile, text) == Meaning(makefile, rank, text)
  {
    hide Dollared, TrapFree, Parsed, Read, Leading, Quoted, Plains, Chars, Handed, Expanded, Fits, Ranked;
    var text, value := before + ("$$(" + (Quoted(name) + after)), makefile.value[name];
    SubstitutionIsParsed(makefile, rank, before, name, after);
    CommandSubstitutionFits(makefile, before, name, after);
    OneReference(makefile, before, name, after);
    assert Covered(makefile, {(name, Bracket)}, rank, text);
    RecipeIsMeantExactly(makefile, {(name, Bracket)}, rank, text);
    SubstitutionExpands(makefile, rank, before, name, after);
    NoNamesFollow(Expanded(Source(makefile), rank, Parsed(text), 3), false);
  }

  lemma OneReference(makefile: Assignments, before: string, name: string, after: string)
    ensures var tokens := Chars(before) + ([Char('$'), Char('$')] + ([Char('(')] + ([Ref(name)] + Chars(after))));
            forall other | other in Refs(Tokened(makefile), tokens) :: other == name
  {
    CharsHoldNoReference(before);
    CharsHoldNoReference(after);
  }

  lemma {:induction false} CharsHoldNoReference(plain: string)
    ensures forall name :: Ref(name) !in Chars(plain)
  {
    if plain != "" {
      CharsHoldNoReference(plain[1..]);
    }
  }

  lemma SubstitutionExpands(makefile: Assignments, rank: map<string, nat>, before: string, name: string, after: string)
    requires Ranked(Tokened(makefile), rank) && name in makefile.value && rank[name] <= 2
    requires '$' !in makefile.value[name]
    ensures var items := Plains(before) + ([Plain('$')] + ([Plain('(')] + ([Named(name)] + Plains(after))));
            NoNames(Expanded(Source(makefile), rank, items, 3))
  {
    assert name in rank;
    hide Ranked, Expanded, Plains, Parsed, Read, Dollared, TrapFree, NoNames;
    var source := Source(makefile);
    var four := [Named(name)] + Plains(after);
    var three := [Plain('(')] + four;
    ReferenceHasNoNames(makefile, rank, name);
    PlainsHaveNoNames(source, rank, before);
    PlainsHaveNoNames(source, rank, after);
    PlainHasNoNames(makefile, rank, '$');
    PlainHasNoNames(makefile, rank, '(');
    NoNamesJoin(source, rank, [Named(name)], Plains(after));
    NoNamesJoin(source, rank, [Plain('(')], four);
    NoNamesJoin(source, rank, [Plain('$')], three);
    NoNamesJoin(source, rank, Plains(before), [Plain('$')] + three);
  }

  lemma NoNamesJoin(source: map<string, seq<Item>>, rank: map<string, nat>, a: seq<Item>, b: seq<Item>)
    requires NoNames(Expanded(source, rank, a, 3)) && NoNames(Expanded(source, rank, b, 3))
    ensures NoNames(Expanded(source, rank, a + b, 3))
  {
    hide Expanded;
    ExpandedConcat(source, rank, a, b, 3);
  }

  lemma PlainsHaveNoNames(source: map<string, seq<Item>>, rank: map<string, nat>, plain: string)
    ensures NoNames(Expanded(source, rank, Plains(plain), 3))
  {
    hide Expanded, Plains;
    PlainsExpand(source, rank, plain, 3);
    PlainsAreNoNames(plain);
  }

  lemma PlainHasNoNames(makefile: Assignments, rank: map<string, nat>, c: char)
    requires Ranked(Tokened(makefile), rank)
    ensures NoNames(Expanded(Source(makefile), rank, [Plain(c)], 3))
  {
    hide Expanded, Ranked;
    OneIsAlike(makefile, rank, 3, Plain(c));
  }

  lemma ReferenceHasNoNames(makefile: Assignments, rank: map<string, nat>, name: string)
    requires Ranked(Tokened(makefile), rank) && name in makefile.value && name in rank && rank[name] <= 2
    requires '$' !in makefile.value[name]
    ensures NoNames(Expanded(Source(makefile), rank, [Named(name)], 3))
  {
    hide Ranked, Expanded, Plains, Parsed, Read, Dollared, TrapFree;
    var value := makefile.value[name];
    PlainValue(makefile, rank, value, rank[name]);
    ReferenceExpands(makefile, rank, 3, name);
    PlainsExpand(Source(makefile), rank, value, rank[name]);
    PlainsAreNoNames(value);
  }

  /** The Makefile's own, over the images to catalogue. */
  lemma SbomIsMeant(makefile: Assignments, rank: map<string, nat>)
    requires makefile.Valid() && AllDollared(makefile) && Ranked(Tokened(makefile), rank)
    requires "PY" in makefile.value && makefile.value["PY"] == ".venv/Scripts/python.exe" && rank["PY"] <= 2
    ensures Handed(makefile, SbomLoop()) == Meaning(makefile, rank, SbomLoop())
  {
    hide Handed, Meaning, Quoted, Ranked;
    SubstitutionIsMeant(makefile, rank, "for image in ", "PY", " -m supply.images); do");
  }
}
