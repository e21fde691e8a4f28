/** How make reads a text, what the text means, and exactly when the expansion gives that. */
module Make {
  import opened Wrappers
  import opened Expansion
  import opened Recipes
  import opened Shell
  import Text

  // ---------------------------------------------------------------- make's reading

  /** A doubled dollar is a dollar, before anything is taken for a reference. */
  function Parsed(text: string): (items: seq<Item>)
    ensures forall i | 0 <= i < |items| && items[i].Named? :: IsName(items[i].name)
    decreases |text|
  {
    if text == "" then []
    else if |text| >= 2 && text[..2] == "$$" then [Plain('$')] + Parsed(text[2..])
    else
      match Leading(text)
      case Some(name) => [Named(name)] + Parsed(text[|Quoted(name)|..])
      case None => [Plain(text[0])] + Parsed(text[1..])
  }

  /** Every dollar is doubled or begins a reference by name, as in every recipe of the Makefile. */
  predicate Dollared(text: string)
    decreases |text|
  {
    if text == "" then true
    else if |text| >= 2 && text[..2] == "$$" then Dollared(text[2..])
    else
      match Leading(text)
      case Some(name) => Dollared(text[|Quoted(name)|..])
      case None => text[0] != '$' && Dollared(text[1..])
  }

  ghost predicate AllDollared(makefile: Assignments) {
    forall name | name in makefile.value :: Dollared(makefile.value[name])
  }

  function Source(makefile: Assignments): map<string, seq<Item>> {
    map name | name in makefile.value :: Parsed(makefile.value[name])
  }

  /** Full recursive expansion of what make reads. */
  ghost function Expanded(
    source: map<string, seq<Item>>, rank: map<string, nat>, items: seq<Item>, limit: nat): seq<Item>
    decreases limit, |items| + 1
  {
    if items == [] then [] else ExpandedOne(source, rank, items[0], limit) + Expanded(source, rank, items[1..], limit)
  }

  ghost function ExpandedOne(
    source: map<string, seq<Item>>, rank: map<string, nat>, item: Item, limit: nat): seq<Item>
    decreases limit, 0
  {
    if item.Named? && item.name in source && item.name in rank && rank[item.name] < limit
    then Expanded(source, rank, source[item.name], rank[item.name])
    else [item]
  }

  /** Nowhere in the text, or in a value it expands to, do the characters `(NAME)` of an assigned variable
      stand directly after a doubled dollar. */
  ghost predicate TrapFree(makefile: Assignments, rank: map<string, nat>, text: string, limit: nat)
    decreases limit, |text|
  {
    if text == "" then true
    else if |text| >= 2 && text[..2] == "$$" then
      !Traps(makefile, text) && TrapFree(makefile, rank, text[2..], limit)
    else
      match Leading(text)
      case Some(name) =>
        && (name in makefile.value && name in rank && rank[name] < limit ==>
              TrapFree(makefile, rank, makefile.value[name], rank[name]))
        && TrapFree(makefile, rank, text[|Quoted(name)|..], limit)
      case None => TrapFree(makefile, rank, text[1..], limit)
  }

  /** The second of two dollars begins what looks like a reference to an assigned variable. */
  predicate Traps(makefile: Assignments, text: string)
    requires text != ""
  {
    Leading(text[1..]).Some? && Leading(text[1..]).value in makefile.value
  }

  // ---------------------------------------------------------------- one piece of a text

  function Plains(plain: string): seq<Item> {
    if plain == "" then [] else [Plain(plain[0])] + Plains(plain[1..])
  }

  /** Characters without a dollar are read by everyone as themselves. */
  lemma {:induction false} PlainIsParsed(
    makefile: Assignments, rank: map<string, nat>, plain: string, rest: string, limit: nat)
    requires '$' !in plain
    ensures Parsed(plain + rest) == Plains(plain) + Parsed(rest)
    ensures Dollared(plain + rest) <==> Dollared(rest)
    ensures TrapFree(makefile, rank, plain + rest, limit) <==> TrapFree(makefile, rank, rest, limit)
  {
    if plain == "" {
      assert plain + rest == rest;
    } else {
      var text, more := plain + rest, plain[1..] + rest;
      PlainIsParsed(makefile, rank, plain[1..], rest, limit);
      PlainLeadsNowhere(text);
      assert text[1..] == more && text[0] == plain[0];
      assert |text| >= 2 ==> text[..2][0] == plain[0];
      hide Leading, TrapFree;
      PlainStep(makefile, rank, text, limit);
      Text.Regroup([Plain(plain[0])], Plains(plain[1..]), Parsed(rest));
    }
  }

  lemma PlainStep(makefile: Assignments, rank: map<string, nat>, text: string, limit: nat)
    requires text != "" && text[0] != '$'
    ensures Parsed(text) == [Plain(text[0])] + Parsed(text[1..]) && Read(text) == [Char(text[0])] + Read(text[1..])
    ensures Dollared(text) <==> Dollared(text[1..])
    ensures TrapFree(makefile, rank, text, limit) <==> TrapFree(makefile, rank, text[1..], limit)
  {
    PlainLeadsNowhere(text);
    hide Leading;
    assert |text| >= 2 ==> text[..2][0] == text[0];
  }

  lemma ReferenceStep(makefile: Assignments, rank: map<string, nat>, text: string, limit: nat, name: string)
    requires Leading(text) == Some(name)
    ensures var rest := text[|Quoted(name)|..];
            && Parsed(text) == [Named(name)] + Parsed(rest) && Read(text) == [Ref(name)] + Read(rest)
            && (Dollared(text) <==> Dollared(rest))
            && (TrapFree(makefile, rank, text, limit) <==>
                && (name in makefile.value && name in rank && rank[name] < limit ==>
                      TrapFree(makefile, rank, makefile.value[name], rank[name]))
                && TrapFree(makefile, rank, rest, limit))
  {
    assert text[..|Quoted(name)|][1] == '(' && text[..2] != "$$";
    hide Leading, TrapFree;
    TrapFreeReference(makefile, rank, text, limit, name);
  }

  lemma TrapFreeReference(makefile: Assignments, rank: map<string, nat>, text: string, limit: nat, name: string)
    requires Leading(text) == Some(name) && text[..2] != "$$"
    ensures var rest := text[|Quoted(name)|..];
            TrapFree(makefile, rank, text, limit) <==>
                && (name in makefile.value && name in rank && rank[name] < limit ==>
                      TrapFree(makefile, rank, makefile.value[name], rank[name]))
                && TrapFree(makefile, rank, rest, limit)
  {
    hide Leading;
  }

  /** A doubled dollar, with nothing after it that looks like a reference. */
  lemma DollarStep(makefile: Assignments, rank: map<string, nat>, text: string, limit: nat)
    requires |text| >= 2 && text[..2] == "$$" && Leading(text[1..]) == None
    ensures var rest := text[2..];
            && Parsed(text) == [Plain('$')] + Parsed(rest)
            && Read(text) == [Char('$'), Char('$')] + Read(rest)
            && (Dollared(text) <==> Dollared(rest))
            && (TrapFree(makefile, rank, text, limit) <==> TrapFree(makefile, rank, rest, limit))
  {
    assert text[..2][0] == '$' && text[..2][1] == '$';
    NoBracketLeadsNowhere(text);
    hide Leading;
    ReadNext(text);
    ReadNext(text[1..]);
    assert text[1..][1..] == text[2..];
    assert [Char('$')] + ([Char('$')] + Read(text[2..])) == [Char('$'), Char('$')] + Read(text[2..]);
  }

  /** A doubled dollar with `(name)` after it: make reads characters, and `replace` a reference. */
  lemma TrapStep(makefile: Assignments, rank: map<string, nat>, text: string, limit: nat, name: string)
    requires |text| >= 2 && text[..2] == "$$" && Leading(text[1..]) == Some(name)
    ensures |Quoted(name)| < |text|
    ensures var rest := text[1 + |Quoted(name)|..];
            && Parsed(text) == [Plain('$')] + (Plains("(" + name + ")") + Parsed(rest))
            && Read(text) == [Char('$'), Ref(name)] + Read(rest)
            && (Dollared(text) <==> Dollared(rest))
            && (TrapFree(makefile, rank, text, limit) <==>
                  name !in makefile.value && TrapFree(makefile, rank, rest, limit))
  {
    var single, rest := text[1..], text[1 + |Quoted(name)|..];
    var plain := "(" + name + ")";
    NamesHoldNoMark(name);
    assert text[..2][0] == '$' && text[..2][1] == '$';
    NoBracketLeadsNowhere(text);
    hide Leading, IsName, TrapFree, Read;
    assert single == Quoted(name) + single[|Quoted(name)|..] && single[|Quoted(name)|..] == rest;
    assert Quoted(name) == "$" + plain;
    assert text[2..] == single[1..] == plain + rest;
    PlainIsParsed(makefile, rank, plain, rest, limit);
    TrapIsRead(text, name, rest);
    TrapFreeDollar(makefile, rank, text, limit);
  }

  lemma TrapIsRead(text: string, name: string, rest: string)
    requires text != "" && text[0] == '$' && Leading(text) == None && text[1..] == Quoted(name) + rest && IsName(name)
    ensures Read(text) == [Char('$'), Ref(name)] + Read(rest)
  {
    hide Leading, IsName, Read, Quoted;
    ReadNext(text);
    ReadReference(name, rest);
    assert [Char('$')] + ([Ref(name)] + Read(rest)) == [Char('$'), Ref(name)] + Read(rest);
  }

  lemma TrapFreeDollar(makefile: Assignments, rank: map<string, nat>, text: string, limit: nat)
    requires |text| >= 2 && text[..2] == "$$"
    ensures TrapFree(makefile, rank, text, limit) <==>
            !Traps(makefile, text) && TrapFree(makefile, rank, text[2..], limit)
  {
    hide Traps, Leading;
  }

  // ---------------------------------------------------------------- what is rendered alike

  predicate LastDollar(text: Tokens, afterDollar: bool) {
    if text == [] then afterDollar else text[|text| - 1] == Char('$')
  }

  lemma {:induction false} RenderedConcat(a: Tokens, b: Tokens, afterDollar: bool)
    ensures Rendered(a + b, afterDollar) == Rendered(a, afterDollar) + Rendered(b, LastDollar(a, afterDollar))
  {
    if a == [] {
      assert a + b == b;
    } else {
      hide Rendered, RenderedOne, LastDollar;
      var head, rest := a[0], a[1..];
      var next := head == Char('$');
      RenderedConcat(rest, b, next);
      LastDollarCons(a, afterDollar);
      Text.Unshift(a, b);
      RenderedCons(head, rest + b, afterDollar);
      RenderedCons(head, rest, afterDollar);
      Text.Regroup(RenderedOne(head, afterDollar), Rendered(rest, next), Rendered(b, LastDollar(rest, next)));
    }
  }

  lemma LastDollarCons(text: Tokens, afterDollar: bool)
    requires text != []
    ensures LastDollar(text, afterDollar) == LastDollar(text[1..], text[0] == Char('$'))
  {
  }

  /** Whether the last token is a dollar can be told from what is rendered. */
  lemma {:induction false} LastDollarIsSeen(text: Tokens, afterDollar: bool)
    ensures text == [] <==> Rendered(text, afterDollar) == ""
    ensures text != [] ==>
              var s := Rendered(text, afterDollar);
              LastDollar(text, afterDollar) <==> s[|s| - 1] == '$'
  {
    if text != [] {
      hide IsName;
      var rest := text[1..];
      LastDollarIsSeen(rest, text[0] == Char('$'));
      assert text == [text[0]] + rest;
      assert PLACEHOLDER[|PLACEHOLDER| - 1] == 'D';
    }
  }

  ghost predicate Same(a: Tokens, b: Tokens) {
    forall afterDollar :: Rendered(a, afterDollar) == Rendered(b, afterDollar)
  }

  lemma SameConcat(a: Tokens, b: Tokens, c: Tokens, d: Tokens)
    requires Same(a, b) && Same(c, d)
    ensures Same(a + c, b + d)
  {
    hide Rendered, LastDollar;
    forall afterDollar ensures Rendered(a + c, afterDollar) == Rendered(b + d, afterDollar) {
      RenderedConcat(a, c, afterDollar);
      RenderedConcat(b, d, afterDollar);
      LastDollarIsSeen(a, afterDollar);
      LastDollarIsSeen(b, afterDollar);
      SameLastDollar(a, b, afterDollar);
    }
  }

  lemma SameLastDollar(a: Tokens, b: Tokens, afterDollar: bool)
    requires Rendered(a, afterDollar) == Rendered(b, afterDollar)
    ensures LastDollar(a, afterDollar) == LastDollar(b, afterDollar)
  {
    hide Rendered;
    LastDollarIsSeen(a, afterDollar);
    LastDollarIsSeen(b, afterDollar);
  }

  // ---------------------------------------------------------------- lists of items

  lemma {:induction false} EscapedConcat(a: seq<Item>, b: seq<Item>)
    ensures Escaped(a + b) == Escaped(a) + Escaped(b)
  {
    if a == [] {
      assert a + b == b;
    } else {
      EscapedConcat(a[1..], b);
      assert (a + b)[1..] == a[1..] + b;
      Text.Regroup(EscapedOne(a[0]), Escaped(a[1..]), Escaped(b));
    }
  }

  lemma {:induction false} ExpandedConcat(
    source: map<string, seq<Item>>, rank: map<string, nat>, a: seq<Item>, b: seq<Item>, limit: nat)
    ensures Expanded(source, rank, a + b, limit) == Expanded(source, rank, a, limit) + Expanded(source, rank, b, limit)
    decreases |a|
  {
    if a == [] {
      assert a + b == b;
    } else {
      hide ExpandedOne;
      ExpandedConcat(source, rank, a[1..], b, limit);
      assert (a + b)[1..] == a[1..] + b;
      Text.Regroup(ExpandedOne(source, rank, a[0], limit), Expanded(source, rank, a[1..], limit),
        Expanded(source, rank, b, limit));
    }
  }

  lemma {:induction false} PlainsExpand(
    source: map<string, seq<Item>>, rank: map<string, nat>, plain: string, limit: nat)
    ensures Expanded(source, rank, Plains(plain), limit) == Plains(plain)
  {
    if plain != "" {
      PlainsExpand(source, rank, plain[1..], limit);
      assert Plains(plain)[1..] == Plains(plain[1..]);
    }
  }

  lemma {:induction false} PlainsEscape(plain: string)
    requires '$' !in plain
    ensures Escaped(Plains(plain)) == Chars(plain)
    ensures forall afterDollar :: Rendered(Chars(plain), afterDollar) == plain
  {
    if plain != "" {
      PlainsEscape(plain[1..]);
      assert Plains(plain)[1..] == Plains(plain[1..]) && Chars(plain)[1..] == Chars(plain[1..]);
    }
  }

  // ---------------------------------------------------------------- without a trap

  /** What the code gives and what make reads, piece by piece. */
  ghost predicate Alike(
    makefile: Assignments, rank: map<string, nat>, limit: nat, tokens: Tokens, items: seq<Item>)
    requires Ranked(Tokened(makefile), rank) && Below(Tokened(makefile), rank, tokens, limit)
  {
    Same(Full(Tokened(makefile), rank, tokens, limit), Escaped(Expanded(Source(makefile), rank, items, limit)))
  }

  lemma AlikeConcat(
    makefile: Assignments, rank: map<string, nat>, limit: nat,
    tokens: Tokens, items: seq<Item>, moreTokens: Tokens, moreItems: seq<Item>)
    requires Ranked(Tokened(makefile), rank) && Below(Tokened(makefile), rank, tokens, limit)
    requires Below(Tokened(makefile), rank, moreTokens, limit)
    requires Alike(makefile, rank, limit, tokens, items) && Alike(makefile, rank, limit, moreTokens, moreItems)
    ensures Below(Tokened(makefile), rank, tokens + moreTokens, limit)
    ensures Alike(makefile, rank, limit, tokens + moreTokens, items + moreItems)
  {
    hide Ranked, Below, Full, Expanded, Escaped, Same, Tokened, Source;
    var vars, source := Tokened(makefile), Source(makefile);
    FullOfConcat(vars, rank, tokens, moreTokens, limit);
    ExpandedConcat(source, rank, items, moreItems, limit);
    EscapedConcat(Expanded(source, rank, items, limit), Expanded(source, rank, moreItems, limit));
    SameConcat(Full(vars, rank, tokens, limit), Escaped(Expanded(source, rank, items, limit)),
      Full(vars, rank, moreTokens, limit), Escaped(Expanded(source, rank, moreItems, limit)));
  }

  lemma NoReferenceStays(vars: Variables, rank: map<string, nat>, limit: nat, tokens: Tokens)
    requires Ranked(vars, rank)
    requires forall i | 0 <= i < |tokens| && tokens[i].Ref? :: tokens[i].name !in vars.value
    ensures Below(vars, rank, tokens, limit) && Full(vars, rank, tokens, limit) == tokens
  {
    assert Refs(vars, tokens) == {};
    NothingToExpand(vars, rank, tokens, limit);
  }

  lemma OneIsAlike(makefile: Assignments, rank: map<string, nat>, limit: nat, item: Item)
    requires Ranked(Tokened(makefile), rank) && (item.Named? ==> item.name !in makefile.value)
    ensures Below(Tokened(makefile), rank, EscapedOne(item), limit)
    ensures Alike(makefile, rank, limit, EscapedOne(item), [item])
    ensures Expanded(Source(makefile), rank, [item], limit) == [item] && Escaped([item]) == EscapedOne(item)
  {
    hide Ranked, Below, Full, Rendered;
    NoReferenceStays(Tokened(makefile), rank, limit, EscapedOne(item));
    assert [item][1..] == [] && [item] + [] == [item] && EscapedOne(item) + [] == EscapedOne(item);
    var source := Source(makefile);
    assert Expanded(source, rank, [item], limit)
        == ExpandedOne(source, rank, item, limit) + Expanded(source, rank, [], limit);
    assert ExpandedOne(source, rank, item, limit) == [item];
    assert Escaped([item]) == EscapedOne(item) + Escaped([]);
  }

  /** An unknown reference after a doubled dollar comes out as the characters that make takes it for. */
  lemma UnknownIsAlike(makefile: Assignments, rank: map<string, nat>, limit: nat, name: string)
    requires Ranked(Tokened(makefile), rank) && IsName(name) && name !in makefile.value
    ensures Below(Tokened(makefile), rank, [Char('$'), Ref(name)], limit)
    ensures Alike(makefile, rank, limit, [Char('$'), Ref(name)], [Plain('$')] + Plains("(" + name + ")"))
    ensures var items := [Plain('$')] + Plains("(" + name + ")");
            Expanded(Source(makefile), rank, items, limit) == items
            && Same([Char('$'), Ref(name)], Escaped(items))
  {
    hide Ranked, Below, Full, IsName, Rendered, Plains, Same, Expanded;
    var tokens, items := [Char('$'), Ref(name)], [Plain('$')] + Plains("(" + name + ")");
    NoReferenceStays(Tokened(makefile), rank, limit, tokens);
    UnknownRendered(name);
    UnknownExpands(Source(makefile), rank, "(" + name + ")", limit);
  }

  lemma UnknownExpands(source: map<string, seq<Item>>, rank: map<string, nat>, plain: string, limit: nat)
    ensures Expanded(source, rank, [Plain('$')] + Plains(plain), limit) == [Plain('$')] + Plains(plain)
  {
    PlainsExpand(source, rank, plain, limit);
    assert ([Plain('$')] + Plains(plain))[1..] == Plains(plain);
  }

  lemma UnknownRendered(name: string)
    requires IsName(name)
    ensures Same([Char('$'), Ref(name)], Escaped([Plain('$')] + Plains("(" + name + ")")))
  {
    hide Rendered, Plains, Escaped, IsName;
    forall afterDollar
      ensures Rendered([Char('$'), Ref(name)], afterDollar)
           == Rendered(Escaped([Plain('$')] + Plains("(" + name + ")")), afterDollar)
    {
      UnknownRenderedAt(name, afterDollar);
    }
  }

  lemma UnknownRenderedAt(name: string, afterDollar: bool)
    requires IsName(name)
    ensures Rendered([Char('$'), Ref(name)], afterDollar)
         == Rendered(Escaped([Plain('$')] + Plains("(" + name + ")")), afterDollar)
  {
    NamesHoldNoMark(name);
    hide IsName, Rendered, Plains, Escaped, Chars, Quoted;
    var plain := "(" + name + ")";
    EscapedTrap(plain);
    RenderedDollars(Chars(plain), afterDollar);
    PlainsEscape(plain);
    RenderedPair(name, afterDollar);
    assert "$" + Quoted(name) == "$$" + plain by { QuotedIsBracketed(name); }
  }

  lemma QuotedIsBracketed(name: string)
    ensures "$" + Quoted(name) == "$$" + ("(" + name + ")")
  {
  }

  lemma RenderedPair(name: string, afterDollar: bool)
    ensures Rendered([Char('$'), Ref(name)], afterDollar) == "$" + Quoted(name)
  {
    hide Rendered;
    RenderedCons(Char('$'), [Ref(name)], afterDollar);
    RenderedCons(Ref(name), [], true);
    NothingRendered();
    assert [Char('$'), Ref(name)] == [Char('$')] + [Ref(name)] && [Ref(name)] == [Ref(name)] + [];
    assert Quoted(name) + "" == Quoted(name);
  }

  lemma EscapedTrap(plain: string)
    requires '$' !in plain
    ensures Escaped([Plain('$')] + Plains(plain)) == [Char('$')] + ([Char('$')] + Chars(plain))
  {
    PlainsEscape(plain);
    hide Plains, Chars, Rendered;
    assert ([Plain('$')] + Plains(plain))[1..] == Plains(plain);
  }

  lemma RenderedDollars(rest: Tokens, afterDollar: bool)
    ensures Rendered([Char('$')] + ([Char('$')] + rest), afterDollar) == "$$" + Rendered(rest, true)
  {
    hide Rendered;
    RenderedCons(Char('$'), [Char('$')] + rest, afterDollar);
    RenderedCons(Char('$'), rest, true);
    assert "$" + ("$" + Rendered(rest, true)) == "$$" + Rendered(rest, true);
  }

  lemma NothingRendered()
    ensures Rendered([], false) == ""
  {
  }

  /** What has to hold of a text and of the assignments. */
  ghost predicate Ready(makefile: Assignments, rank: map<string, nat>, text: string, limit: nat) {
    && makefile.Valid() && AllDollared(makefile) && Dollared(text)
    && Ranked(Tokened(makefile), rank) && Below(Tokened(makefile), rank, Read(text), limit)
  }

  /** A piece of a text is what it is, and what is left of the text is ready too. */
  lemma RestIsReady(
    makefile: Assignments, rank: map<string, nat>, text: string, limit: nat, tokens: Tokens, rest: string)
    requires Ready(makefile, rank, text, limit) && Read(text) == tokens + Read(rest) && Dollared(rest)
    ensures Ready(makefile, rank, rest, limit) && Below(Tokened(makefile), rank, tokens, limit)
  {
    hide Ranked, Below, Dollared;
    BelowConcat(Tokened(makefile), rank, tokens, Read(rest), limit);
  }

  lemma ValueIsReady(makefile: Assignments, rank: map<string, nat>, text: string, limit: nat, name: string)
    requires Ready(makefile, rank, text, limit) && Ref(name) in Read(text) && name in makefile.value
    ensures name in rank && rank[name] < limit && Ready(makefile, rank, makefile.value[name], rank[name])
  {
    hide Dollared, Read;
    var vars := Tokened(makefile);
    assert name in Refs(vars, Read(text));
    assert vars.value[name] == Read(makefile.value[name]);
  }

  lemma ReferenceIsAlike(makefile: Assignments, rank: map<string, nat>, limit: nat, name: string)
    requires Ranked(Tokened(makefile), rank) && name in makefile.value && name in rank && rank[name] < limit
    requires Below(Tokened(makefile), rank, Read(makefile.value[name]), rank[name])
    requires Alike(makefile, rank, rank[name], Read(makefile.value[name]), Parsed(makefile.value[name]))
    ensures Below(Tokened(makefile), rank, [Ref(name)], limit)
    ensures Alike(makefile, rank, limit, [Ref(name)], [Named(name)])
    ensures Full(Tokened(makefile), rank, [Ref(name)], limit)
         == Full(Tokened(makefile), rank, Read(makefile.value[name]), rank[name])
    ensures Expanded(Source(makefile), rank, [Named(name)], limit)
         == Expanded(Source(makefile), rank, Parsed(makefile.value[name]), rank[name])
  {
    ReferenceExpands(makefile, rank, limit, name);
  }

  lemma ReferenceExpands(makefile: Assignments, rank: map<string, nat>, limit: nat, name: string)
    requires Ranked(Tokened(makefile), rank) && name in makefile.value && name in rank && rank[name] < limit
    ensures Below(Tokened(makefile), rank, [Ref(name)], limit)
    ensures Below(Tokened(makefile), rank, Read(makefile.value[name]), rank[name])
    ensures Full(Tokened(makefile), rank, [Ref(name)], limit)
         == Full(Tokened(makefile), rank, Read(makefile.value[name]), rank[name])
    ensures Expanded(Source(makefile), rank, [Named(name)], limit)
         == Expanded(Source(makefile), rank, Parsed(makefile.value[name]), rank[name])
  {
    hide Full, Read, Parsed, Dollared;
    var vars, source, value := Tokened(makefile), Source(makefile), makefile.value[name];
    assert vars.value[name] == Read(value) && source[name] == Parsed(value);
    assert forall other | other in Refs(vars, [Ref(name)]) :: other == name;
    FullOfRef(vars, rank, name, limit);
    var item := [Named(name)];
    assert item[1..] == [];
    var all := Expanded(source, rank, source[name], rank[name]);
    assert Expanded(source, rank, item, limit) == all + Expanded(source, rank, [], limit);
    assert all + [] == all;
  }

  lemma FullOfRef(vars: Variables, rank: map<string, nat>, name: string, limit: nat)
    requires Ranked(vars, rank) && name in vars.value && Below(vars, rank, [Ref(name)], limit)
    ensures Full(vars, rank, [Ref(name)], limit) == Full(vars, rank, vars.value[name], rank[name])
  {
    assert name in Refs(vars, [Ref(name)]);
    var full := Full(vars, rank, vars.value[name], rank[name]);
    assert [Ref(name)][1..] == [];
    FullOfNone(vars, rank, limit);
    assert full + [] == full;
  }

  /** Where there is no trap, what the code gives is rendered as what make reads, its dollars doubled. */
  lemma {:induction false} TrapFreeIsAlike(makefile: Assignments, rank: map<string, nat>, text: string, limit: nat)
    requires Ready(makefile, rank, text, limit) && TrapFree(makefile, rank, text, limit)
    ensures Alike(makefile, rank, limit, Read(text), Parsed(text))
    decreases limit, |text|
  {
    hide Ready, TrapFree, Alike, Below, Ranked, Read, Parsed, Dollared, Leading, IsName;
    ReadyMeans(makefile, rank, text, limit);
    if text == "" {
      NothingIsAlike(makefile, rank, limit);
    } else if |text| >= 2 && text[..2] == "$$" {
      match Leading(text[1..])
      case Some(name) =>
        TrapStep(makefile, rank, text, limit, name);
        var rest := text[1 + |Quoted(name)|..];
        var items := [Plain('$')] + Plains("(" + name + ")");
        RestIsReady(makefile, rank, text, limit, [Char('$'), Ref(name)], rest);
        TrapFreeIsAlike(makefile, rank, rest, limit);
        ReadyMeans(makefile, rank, rest, limit);
        LeadingIsName(text[1..]);
        UnknownIsAlike(makefile, rank, limit, name);
        AlikeConcat(makefile, rank, limit, [Char('$'), Ref(name)], items, Read(rest), Parsed(rest));
        Text.Regroup([Plain('$')], Plains("(" + name + ")"), Parsed(rest));
      case None =>
        DollarStep(makefile, rank, text, limit);
        RestIsReady(makefile, rank, text, limit, [Char('$'), Char('$')], text[2..]);
        TrapFreeIsAlike(makefile, rank, text[2..], limit);
        ReadyMeans(makefile, rank, text[2..], limit);
        OneIsAlike(makefile, rank, limit, Plain('$'));
        AlikeConcat(makefile, rank, limit, [Char('$'), Char('$')], [Plain('$')], Read(text[2..]), Parsed(text[2..]));
    } else {
      match Leading(text)
      case Some(name) =>
        LeadingIsName(text);
        ReferenceStep(makefile, rank, text, limit, name);
        var rest := text[|Quoted(name)|..];
        RestIsReady(makefile, rank, text, limit, [Ref(name)], rest);
        TrapFreeIsAlike(makefile, rank, rest, limit);
        ReadyMeans(makefile, rank, rest, limit);
        if name in makefile.value {
          assert Read(text)[0] == Ref(name);
          ValueIsReady(makefile, rank, text, limit, name);
          ReadyMeans(makefile, rank, makefile.value[name], rank[name]);
          TrapFreeIsAlike(makefile, rank, makefile.value[name], rank[name]);
          ReferenceIsAlike(makefile, rank, limit, name);
        } else {
          OneIsAlike(makefile, rank, limit, Named(name));
        }
        AlikeConcat(makefile, rank, limit, [Ref(name)], [Named(name)], Read(rest), Parsed(rest));
      case None =>
        DollaredHasNoLone(text);
        PlainStep(makefile, rank, text, limit);
        RestIsReady(makefile, rank, text, limit, [Char(text[0])], text[1..]);
        TrapFreeIsAlike(makefile, rank, text[1..], limit);
        ReadyMeans(makefile, rank, text[1..], limit);
        OneIsAlike(makefile, rank, limit, Plain(text[0]));
        AlikeConcat(makefile, rank, limit, [Char(text[0])], [Plain(text[0])], Read(text[1..]), Parsed(text[1..]));
    }
  }

  lemma ReadyMeans(makefile: Assignments, rank: map<string, nat>, text: string, limit: nat)
    requires Ready(makefile, rank, text, limit)
    ensures makefile.Valid() && Dollared(text)
    ensures Ranked(Tokened(makefile), rank) && Below(Tokened(makefile), rank, Read(text), limit)
  {
  }

  lemma NothingIsAlike(makefile: Assignments, rank: map<string, nat>, limit: nat)
    requires Ranked(Tokened(makefile), rank)
    ensures Below(Tokened(makefile), rank, Read(""), limit) && Alike(makefile, rank, limit, Read(""), Parsed(""))
  {
    hide Ranked, Rendered;
    assert Read("") == [] && Parsed("") == [];
    FullOfNone(Tokened(makefile), rank, limit);
  }

  lemma LeadingIsName(text: string)
    requires Leading(text).Some?
    ensures IsName(Leading(text).value) && 0 < |Quoted(Leading(text).value)| <= |text|
  {
  }

  lemma DollaredHasNoLone(text: string)
    requires text != "" && Dollared(text) && Leading(text) == None && !(|text| >= 2 && text[..2] == "$$")
    ensures text[0] != '$'
  {
  }

  // ---------------------------------------------------------------- with a trap

  /** Assigned values are not empty and do not begin with an opening bracket. */
  predicate BracketFree(makefile: Assignments) {
    forall name | name in makefile.value :: makefile.value[name] != "" && makefile.value[name][0] != '('
  }

  /** Tokens that cannot pass for a bracket and a name when they come after a lone dollar. */
  ghost predicate Starts(makefile: Assignments, text: Tokens) {
    && text != [] && text[0] != Char('(')
    && (text[0] == Char('$') ==> |text| > 1 && text[1] != Char('('))
    && (text[0].Ref? ==> IsName(text[0].name) && text[0].name !in makefile.value)
  }

  lemma {:induction false} FullStarts(makefile: Assignments, rank: map<string, nat>, text: string, limit: nat)
    requires Ready(makefile, rank, text, limit) && BracketFree(makefile) && text != "" && text[0] != '('
    ensures Ranked(Tokened(makefile), rank) && Below(Tokened(makefile), rank, Read(text), limit)
    ensures Starts(makefile, Full(Tokened(makefile), rank, Read(text), limit))
    decreases limit, |text|
  {
    hide Ready, Below, Ranked, Read, Full, Dollared, Leading, IsName, TrapFree, Parsed;
    ReadyMeans(makefile, rank, text, limit);
    var vars := Tokened(makefile);
    if |text| >= 2 && text[..2] == "$$" {
      match Leading(text[1..])
      case Some(name) =>
        TrapStep(makefile, rank, text, limit, name);
        var rest := text[1 + |Quoted(name)|..];
        FullSplits(makefile, rank, text, limit, [Char('$'), Ref(name)], rest);
        LeadingIsName(text[1..]);
        if name in makefile.value {
          assert Read(text)[1] == Ref(name);
          ValueIsReady(makefile, rank, text, limit, name);
          FullStarts(makefile, rank, makefile.value[name], rank[name]);
          FullOfTrap(makefile, rank, limit, name);
        } else {
          NoReferenceStays(vars, rank, limit, [Char('$'), Ref(name)]);
        }
      case None =>
        DollarStep(makefile, rank, text, limit);
        FullSplits(makefile, rank, text, limit, [Char('$'), Char('$')], text[2..]);
        NoReferenceStays(vars, rank, limit, [Char('$'), Char('$')]);
    } else {
      match Leading(text)
      case Some(name) =>
        LeadingIsName(text);
        ReferenceStep(makefile, rank, text, limit, name);
        FullSplits(makefile, rank, text, limit, [Ref(name)], text[|Quoted(name)|..]);
        if name in makefile.value {
          assert Read(text)[0] == Ref(name);
          ValueIsReady(makefile, rank, text, limit, name);
          FullStarts(makefile, rank, makefile.value[name], rank[name]);
          ReferenceExpands(makefile, rank, limit, name);
        } else {
          NoReferenceStays(vars, rank, limit, [Ref(name)]);
        }
      case None =>
        DollaredHasNoLone(text);
        PlainStep(makefile, rank, text, limit);
        FullSplits(makefile, rank, text, limit, [Char(text[0])], text[1..]);
        NoReferenceStays(vars, rank, limit, [Char(text[0])]);
    }
  }

  lemma FullSplits(
    makefile: Assignments, rank: map<string, nat>, text: string, limit: nat, tokens: Tokens, rest: string)
    requires Ready(makefile, rank, text, limit) && Read(text) == tokens + Read(rest) && Dollared(rest)
    ensures Ready(makefile, rank, rest, limit) && Below(Tokened(makefile), rank, tokens, limit)
    ensures Below(Tokened(makefile), rank, Read(rest), limit)
    ensures Ranked(Tokened(makefile), rank) && Below(Tokened(makefile), rank, Read(text), limit)
    ensures Full(Tokened(makefile), rank, Read(text), limit)
         == Full(Tokened(makefile), rank, tokens, limit) + Full(Tokened(makefile), rank, Read(rest), limit)
  {
    hide Ranked, Below, Full, Read, Dollared;
    RestIsReady(makefile, rank, text, limit, tokens, rest);
    FullOfConcat(Tokened(makefile), rank, tokens, Read(rest), limit);
  }

  lemma FullOfTrap(makefile: Assignments, rank: map<string, nat>, limit: nat, name: string)
    requires Ranked(Tokened(makefile), rank) && name in makefile.value && name in rank && rank[name] < limit
    ensures Below(Tokened(makefile), rank, [Char('$'), Ref(name)], limit)
    ensures Below(Tokened(makefile), rank, Read(makefile.value[name]), rank[name])
    ensures Full(Tokened(makefile), rank, [Char('$'), Ref(name)], limit)
         == [Char('$')] + Full(Tokened(makefile), rank, Read(makefile.value[name]), rank[name])
  {
    hide Ranked, Below, Full, Read;
    ReferenceExpands(makefile, rank, limit, name);
    NoReferenceStays(Tokened(makefile), rank, limit, [Char('$')]);
    FullOfConcat(Tokened(makefile), rank, [Char('$')], [Ref(name)], limit);
    assert [Char('$')] + [Ref(name)] == [Char('$'), Ref(name)];
  }

  /** Where the first trap is: what comes before it is rendered as make reads it, and then the code has a
      lone dollar and an expanded value where make has a dollar and the characters of a reference. */
  ghost predicate Sprung(
    makefile: Assignments, full: Tokens, all: seq<Item>,
    before: seq<Item>, name: string, value: Tokens, after: seq<Item>)
  {
    && IsName(name) && name in makefile.value && Starts(makefile, value)
    && all == before + ([Plain('$')] + (Plains("(" + name + ")") + after))
    && Same(full, Escaped(before) + ([Char('$')] + value))
  }

  lemma SprungLater(
    makefile: Assignments, full: Tokens, all: seq<Item>,
    before: seq<Item>, name: string, value: Tokens, after: seq<Item>, tokens: Tokens, items: seq<Item>)
    requires Sprung(makefile, full, all, before, name, value, after) && Same(tokens, Escaped(items))
    ensures Sprung(makefile, tokens + full, items + all, items + before, name, value, after)
  {
    hide IsName, Starts, Same, Escaped, Plains;
    var trap := [Plain('$')] + (Plains("(" + name + ")") + after);
    SameConcat(tokens, Escaped(items), full, Escaped(before) + ([Char('$')] + value));
    EscapedConcat(items, before);
    Text.Regroup(Escaped(items), Escaped(before), [Char('$')] + value);
    Text.Regroup(items, before, trap);
  }

  lemma SprungBefore(
    makefile: Assignments, full: Tokens, all: seq<Item>,
    before: seq<Item>, name: string, value: Tokens, after: seq<Item>, tokens: Tokens, items: seq<Item>)
    requires Sprung(makefile, full, all, before, name, value, after)
    ensures Sprung(makefile, full + tokens, all + items, before, name, value + tokens, after + items)
  {
    hide IsName, Same, Escaped, Plains;
    var plain := Plains("(" + name + ")");
    assert Starts(makefile, value + tokens);
    hide Starts;
    SameAsItself(tokens);
    SameConcat(full, Escaped(before) + ([Char('$')] + value), tokens, tokens);
    Text.Regroup(Escaped(before), [Char('$')] + value, tokens);
    Text.Regroup([Char('$')], value, tokens);
    Text.Regroup(before, [Plain('$')] + (plain + after), items);
    Text.Regroup([Plain('$')], plain + after, items);
    Text.Regroup(plain, after, items);
  }

  lemma SameAsItself(tokens: Tokens)
    ensures Same(tokens, tokens)
  {
  }

  lemma NothingTraps(makefile: Assignments, rank: map<string, nat>, limit: nat)
    ensures TrapFree(makefile, rank, "", limit)
  {
  }

  /** The first trap of the rest of a text, when the piece before it has none. */
  lemma TrapIsLater(
    makefile: Assignments, rank: map<string, nat>, text: string, limit: nat,
    tokens: Tokens, items: seq<Item>, rest: string,
    before: seq<Item>, name: string, value: Tokens, after: seq<Item>)
    requires Ready(makefile, rank, text, limit) && Ready(makefile, rank, rest, limit)
    requires Read(text) == tokens + Read(rest) && Parsed(text) == items + Parsed(rest)
    requires Below(Tokened(makefile), rank, tokens, limit) && Alike(makefile, rank, limit, tokens, items)
    requires Sprung(makefile, Full(Tokened(makefile), rank, Read(rest), limit),
               Expanded(Source(makefile), rank, Parsed(rest), limit), before, name, value, after)
    ensures Sprung(makefile, Full(Tokened(makefile), rank, Read(text), limit),
              Expanded(Source(makefile), rank, Parsed(text), limit),
              Expanded(Source(makefile), rank, items, limit) + before, name, value, after)
  {
    hide Below, Ranked, Read, Parsed, Dollared, Sprung, Full, Expanded, Same, Escaped;
    var vars, source := Tokened(makefile), Source(makefile);
    FullOfConcat(vars, rank, tokens, Read(rest), limit);
    ExpandedConcat(source, rank, items, Parsed(rest), limit);
    SprungLater(makefile, Full(vars, rank, Read(rest), limit), Expanded(source, rank, Parsed(rest), limit),
      before, name, value, after, Full(vars, rank, tokens, limit), Expanded(source, rank, items, limit));
  }

  /** A trap springs where it stands. */
  lemma TrapIsHere(makefile: Assignments, rank: map<string, nat>, text: string, limit: nat, name: string)
    returns (value: Tokens, after: seq<Item>)
    requires Ready(makefile, rank, text, limit) && BracketFree(makefile)
    requires |text| >= 2 && text[..2] == "$$" && Leading(text[1..]) == Some(name) && name in makefile.value
    ensures Ranked(Tokened(makefile), rank) && Below(Tokened(makefile), rank, Read(text), limit)
    ensures Sprung(makefile, Full(Tokened(makefile), rank, Read(text), limit),
              Expanded(Source(makefile), rank, Parsed(text), limit), [], name, value, after)
  {
    hide Ready, Below, Ranked, Read, Parsed, Dollared, Leading, IsName, Full, Starts, Expanded, TrapFree;
    ReadyMeans(makefile, rank, text, limit);
    var vars, source := Tokened(makefile), Source(makefile);
    TrapStep(makefile, rank, text, limit, name);
    LeadingIsName(text[1..]);
    var rest, pair := text[1 + |Quoted(name)|..], [Char('$'), Ref(name)];
    FullSplits(makefile, rank, text, limit, pair, rest);
    assert Read(text)[1] == Ref(name);
    ValueIsReady(makefile, rank, text, limit, name);
    FullStarts(makefile, rank, makefile.value[name], rank[name]);
    FullOfTrap(makefile, rank, limit, name);
    var first := Full(vars, rank, Read(makefile.value[name]), rank[name]);
    value := first + Full(vars, rank, Read(rest), limit);
    after := Expanded(source, rank, Parsed(rest), limit);
    StartsMore(makefile, first, Full(vars, rank, Read(rest), limit));
    TrapExpands(source, rank, "(" + name + ")", Parsed(rest), limit);
    SprungHere(makefile, name, value, after);
    Text.Regroup([Char('$')], first, Full(vars, rank, Read(rest), limit));
  }

  lemma StartsMore(makefile: Assignments, tokens: Tokens, more: Tokens)
    requires Starts(makefile, tokens)
    ensures Starts(makefile, tokens + more)
  {
    hide IsName;
  }

  lemma TrapExpands(
    source: map<string, seq<Item>>, rank: map<string, nat>, plain: string, more: seq<Item>, limit: nat)
    ensures Expanded(source, rank, [Plain('$')] + (Plains(plain) + more), limit)
         == [Plain('$')] + (Plains(plain) + Expanded(source, rank, more, limit))
  {
    hide Expanded, Plains;
    UnknownExpands(source, rank, plain, limit);
    ExpandedConcat(source, rank, [Plain('$')] + Plains(plain), more, limit);
    Text.Regroup([Plain('$')], Plains(plain), more);
    Text.Regroup([Plain('$')], Plains(plain), Expanded(source, rank, more, limit));
  }

  lemma SprungHere(makefile: Assignments, name: string, value: Tokens, after: seq<Item>)
    requires IsName(name) && name in makefile.value && Starts(makefile, value)
    ensures var all := [Plain('$')] + (Plains("(" + name + ")") + after);
            Sprung(makefile, [Char('$')] + value, all, [], name, value, after)
  {
    hide IsName, Starts, Rendered, Plains;
    var all := [Plain('$')] + (Plains("(" + name + ")") + after);
    assert [] + all == all && Escaped([]) + ([Char('$')] + value) == [Char('$')] + value;
  }

  lemma {:induction false} TrapIsSprung(makefile: Assignments, rank: map<string, nat>, text: string, limit: nat)
    returns (before: seq<Item>, name: string, value: Tokens, after: seq<Item>)
    requires Ready(makefile, rank, text, limit) && BracketFree(makefile) && !TrapFree(makefile, rank, text, limit)
    ensures Ranked(Tokened(makefile), rank) && Below(Tokened(makefile), rank, Read(text), limit)
    ensures Sprung(makefile, Full(Tokened(makefile), rank, Read(text), limit),
              Expanded(Source(makefile), rank, Parsed(text), limit), before, name, value, after)
    decreases limit, |text|
  {
    hide Ready, TrapFree, Below, Ranked, Read, Parsed, Dollared, Leading, IsName, Sprung, Full, Alike, Expanded;
    ReadyMeans(makefile, rank, text, limit);
    NothingTraps(makefile, rank, limit);
    assert text != "";
    var tokens: Tokens, items: seq<Item>, rest: string := [], [], text;
    if |text| >= 2 && text[..2] == "$$" {
      match Leading(text[1..])
      case Some(trapped) =>
        TrapStep(makefile, rank, text, limit, trapped);
        if trapped in makefile.value {
          before, name := [], trapped;
          value, after := TrapIsHere(makefile, rank, text, limit, trapped);
          return;
        }
        LeadingIsName(text[1..]);
        tokens, rest := [Char('$'), Ref(trapped)], text[1 + |Quoted(trapped)|..];
        items := [Plain('$')] + Plains("(" + trapped + ")");
        UnknownIsAlike(makefile, rank, limit, trapped);
        Text.Regroup([Plain('$')], Plains("(" + trapped + ")"), Parsed(rest));
      case None =>
        DollarStep(makefile, rank, text, limit);
        tokens, items, rest := [Char('$'), Char('$')], [Plain('$')], text[2..];
        OneIsAlike(makefile, rank, limit, Plain('$'));
    } else {
      match Leading(text)
      case Some(other) =>
        LeadingIsName(text);
        ReferenceStep(makefile, rank, text, limit, other);
        tokens, items, rest := [Ref(other)], [Named(other)], text[|Quoted(other)|..];
        if other in makefile.value {
          assert Read(text)[0] == Ref(other);
          ValueIsReady(makefile, rank, text, limit, other);
          if !TrapFree(makefile, rank, makefile.value[other], rank[other]) {
            before, name, value, after := TrapIsSprung(makefile, rank, makefile.value[other], rank[other]);
            value, after := TrapInValue(makefile, rank, text, limit, other, rest, before, name, value, after);
            return;
          }
          TrapFreeIsAlike(makefile, rank, makefile.value[other], rank[other]);
          ReadyMeans(makefile, rank, makefile.value[other], rank[other]);
          ReferenceIsAlike(makefile, rank, limit, other);
        } else {
          OneIsAlike(makefile, rank, limit, Named(other));
        }
      case None =>
        DollaredHasNoLone(text);
        PlainStep(makefile, rank, text, limit);
        tokens, items, rest := [Char(text[0])], [Plain(text[0])], text[1..];
        OneIsAlike(makefile, rank, limit, Plain(text[0]));
    }
    RestIsReady(makefile, rank, text, limit, tokens, rest);
    before, name, value, after := TrapIsSprung(makefile, rank, rest, limit);
    ReadyMeans(makefile, rank, rest, limit);
    TrapIsLater(makefile, rank, text, limit, tokens, items, rest, before, name, value, after);
    before := Expanded(Source(makefile), rank, items, limit) + before;
  }

  lemma TrapInValue(
    makefile: Assignments, rank: map<string, nat>, text: string, limit: nat, other: string, rest: string,
    before: seq<Item>, name: string, value: Tokens, after: seq<Item>) returns (value': Tokens, after': seq<Item>)
    requires Ready(makefile, rank, text, limit) && Dollared(rest)
    requires Read(text) == [Ref(other)] + Read(rest) && Parsed(text) == [Named(other)] + Parsed(rest)
    requires other in makefile.value && other in rank && rank[other] < limit
    requires Below(Tokened(makefile), rank, Read(makefile.value[other]), rank[other])
    requires Sprung(makefile, Full(Tokened(makefile), rank, Read(makefile.value[other]), rank[other]),
               Expanded(Source(makefile), rank, Parsed(makefile.value[other]), rank[other]), before, name, value, after)
    ensures Sprung(makefile, Full(Tokened(makefile), rank, Read(text), limit),
              Expanded(Source(makefile), rank, Parsed(text), limit), before, name, value', after')
  {
    hide Below, Ranked, Read, Parsed, Dollared, Sprung, Full, Expanded;
    var vars, source := Tokened(makefile), Source(makefile);
    FullSplits(makefile, rank, text, limit, [Ref(other)], rest);
    ReferenceExpands(makefile, rank, limit, other);
    ExpandedConcat(source, rank, [Named(other)], Parsed(rest), limit);
    var tokens, items := Full(vars, rank, Read(rest), limit), Expanded(source, rank, Parsed(rest), limit);
    SprungBefore(makefile, Full(vars, rank, Read(makefile.value[other]), rank[other]),
      Expanded(source, rank, Parsed(makefile.value[other]), rank[other]), before, name, value, after, tokens, items);
    value', after' := value + tokens, after + items;
  }

  // ---------------------------------------------------------------- what a trap hands the shell

  lemma HalvedFirst(s: string)
    requires s != ""
    ensures Halved(s) != "" && Halved(s)[0] == s[0]
  {
  }

  lemma BracketsDiffer(name: string, other: string, a: string, b: string)
    requires IsName(name) && IsName(other) && name != other
    ensures "(" + name + ")" + a != "(" + other + ")" + b
  {
    NamesHoldNoMark(name);
    NamesHoldNoMark(other);
    hide IsName;
    var x, y := "(" + name + ")" + a, "(" + other + ")" + b;
    assert x[|name| + 1] == ')' && y[|other| + 1] == ')';
    if |name| < |other| {
      assert y[|name| + 1] == other[|name|];
    } else if |other| < |name| {
      assert x[|other| + 1] == name[|other|];
    } else {
      assert x[1..|name| + 1] == name && y[1..|name| + 1] == other;
    }
  }

  lemma {:induction false} PlainsMean(plain: string, after: seq<Item>)
    ensures Meant(Plains(plain) + after) == plain + Meant(after)
  {
    if plain == "" {
      assert Plains(plain) + after == after;
    } else {
      hide Meant;
      PlainsMean(plain[1..], after);
      var more := Plains(plain[1..]) + after;
      Text.Regroup([Plain(plain[0])], Plains(plain[1..]), after);
      MeantCons(plain[0], more);
      Text.Regroup([plain[0]], plain[1..], Meant(after));
      Text.Unshift(plain, "");
    }
  }

  lemma MeantCons(c: char, more: seq<Item>)
    ensures Meant([Plain(c)] + more) == [c] + Meant(more)
  {
    assert ([Plain(c)] + more)[1..] == more;
  }

  /** A lone dollar and what can follow it never come out as a dollar and a bracketed name. */
  lemma LoneDollarDiffers(makefile: Assignments, value: Tokens, name: string, after: string)
    requires Starts(makefile, value) && IsName(name) && name in makefile.value
    ensures Halved("$" + Rendered(value, true)) != "$" + ("(" + name + ")" + after)
  {
    hide IsName, Rendered, Halved, RenderedOne;
    var head, rest := value[0], value[1..];
    Text.Unshift(value, []);
    RenderedCons(head, rest, true);
    match head
    case Char(c) =>
      CharDiffers(c, rest, "(" + name + ")" + after);
    case Ref(other) =>
      NameDiffers(other, name, Rendered(rest, false), after);
  }

  lemma CharDiffers(c: char, rest: Tokens, bracketed: string)
    requires c != '(' && (c == '$' ==> rest != [] && rest[0] != Char('('))
    requires bracketed != "" && bracketed[0] == '('
    ensures Halved("$" + (RenderedOne(Char(c), true) + Rendered(rest, c == '$'))) != "$" + bracketed
  {
    hide Rendered, Halved;
    var more := Rendered(rest, c == '$');
    var s := [c] + more;
    if c != '$' {
      HalvedSingle(s);
      HalvedFirst(s);
      SecondDiffers(Halved(s), bracketed);
    } else {
      assert "$" + s == "$$" + more;
      HalvedDollars(more);
      RenderedSecond(rest);
      HalvedFirst(more);
      SecondDiffers(Halved(more), bracketed);
    }
  }

  lemma NameDiffers(other: string, name: string, more: string, after: string)
    requires IsName(other) && IsName(name) && other != name
    ensures Halved("$" + (RenderedOne(Ref(other), true) + more)) != "$" + ("(" + name + ")" + after)
  {
    hide Halved, IsName;
    var bracketed := "(" + other + ")";
    assert "$" + ("$(" + other + ")" + more) == "$$" + (bracketed + more);
    HalvedDollars(bracketed + more);
    NamesHoldNoMark(other);
    HalvedPlain(bracketed, more);
    BracketsDiffer(other, name, Halved(more), after);
    TailsDiffer(bracketed + Halved(more), "(" + name + ")" + after);
  }

  lemma RenderedSecond(rest: Tokens)
    requires rest != [] && rest[0] != Char('(')
    ensures Rendered(rest, true) != "" && Rendered(rest, true)[0] != '('
  {
    hide IsName;
  }

  lemma TailsDiffer(a: string, b: string)
    requires a != b
    ensures "$" + a != "$" + b
  {
    assert ("$" + a)[1..] == a && ("$" + b)[1..] == b;
  }

  lemma SecondDiffers(a: string, b: string)
    requires a != "" && b != "" && a[0] != b[0]
    ensures "$" + a != "$" + b
  {
    assert ("$" + a)[1] == a[0] && ("$" + b)[1] == b[0];
  }

  /** So a trap is always seen, whatever stands before and after it. */
  lemma {:induction false} TrapIsSeen(
    makefile: Assignments, before: seq<Item>, name: string, value: Tokens, after: seq<Item>, afterDollar: bool)
    requires Starts(makefile, value) && IsName(name) && name in makefile.value
    requires forall i | 0 <= i < |before| && before[i].Named? :: IsName(before[i].name)
    ensures Halved(Rendered(Escaped(before) + ([Char('$')] + value), afterDollar))
         != Meant(before + ([Plain('$')] + (Plains("(" + name + ")") + after)))
  {
    var trap := [Plain('$')] + (Plains("(" + name + ")") + after);
    if before == [] {
      assert [] + ([Char('$')] + value) == [Char('$')] + value && [] + trap == trap;
      RenderedCons(Char('$'), value, afterDollar);
      PlainsMean("(" + name + ")", after);
      assert trap[1..] == Plains("(" + name + ")") + after;
      LoneDollarDiffers(makefile, value, name, Meant(after));
    } else {
      TrapIsSeen(makefile, before[1..], name, value, after, before[0] == Plain('$'));
      TrapIsStillSeen(before, [Char('$')] + value, trap, afterDollar);
    }
  }

  lemma TrapIsStillSeen(before: seq<Item>, tokens: Tokens, items: seq<Item>, afterDollar: bool)
    requires before != [] && (before[0].Named? ==> IsName(before[0].name))
    requires Halved(Rendered(Escaped(before[1..]) + tokens, before[0] == Plain('$'))) != Meant(before[1..] + items)
    ensures Halved(Rendered(Escaped(before) + tokens, afterDollar)) != Meant(before + items)
  {
    OneInFront(before, tokens, items);
    hide Rendered, Halved, IsName, Escaped, EscapedOne, Meant;
    var rest, meant := Escaped(before[1..]) + tokens, Meant(before[1..] + items);
    match before[0]
    case Plain(c) =>
      PlainIsShown(c, rest, afterDollar);
      SameHead([c], Halved(Rendered(rest, c == '$')), meant);
    case Named(other) =>
      NamedIsShown(other, rest, meant, afterDollar);
  }

  lemma OneInFront(before: seq<Item>, tokens: Tokens, items: seq<Item>)
    requires before != []
    ensures Escaped(before) + tokens == EscapedOne(before[0]) + (Escaped(before[1..]) + tokens)
    ensures Meant(before + items)
         == (if before[0].Plain? then [before[0].c] else PLACEHOLDER) + Meant(before[1..] + items)
  {
    hide EscapedOne;
    Text.Regroup(EscapedOne(before[0]), Escaped(before[1..]), tokens);
    assert (before + items)[1..] == before[1..] + items;
  }

  lemma NamedIsShown(name: string, rest: Tokens, meant: string, afterDollar: bool)
    requires IsName(name) && Halved(Rendered(rest, false)) != meant
    ensures Halved(Rendered(EscapedOne(Named(name)) + rest, afterDollar)) != PLACEHOLDER + meant
  {
    hide Rendered, Halved, IsName;
    RenderedCons(Ref(name), rest, afterDollar);
    if afterDollar {
      HalvedReference(name, Rendered(rest, false));
      assert (PLACEHOLDER + meant)[0] == 'U';
    } else {
      HalvedPlain(PLACEHOLDER, Rendered(rest, false));
      SameHead(PLACEHOLDER, Halved(Rendered(rest, false)), meant);
    }
  }

  lemma PlainIsShown(c: char, rest: Tokens, afterDollar: bool)
    ensures Halved(Rendered(EscapedOne(Plain(c)) + rest, afterDollar)) == [c] + Halved(Rendered(rest, c == '$'))
  {
    hide Rendered, Halved;
    if c == '$' {
      assert [Char('$'), Char('$')] + rest == [Char('$')] + ([Char('$')] + rest);
      RenderedCons(Char('$'), [Char('$')] + rest, afterDollar);
      RenderedCons(Char('$'), rest, true);
      assert "$" + ("$" + Rendered(rest, true)) == "$$" + Rendered(rest, true);
      HalvedDollars(Rendered(rest, true));
    } else {
      RenderedCons(Char(c), rest, afterDollar);
      HalvedPlain([c], Rendered(rest, false));
    }
  }

  // ---------------------------------------------------------------- exactly when a recipe is meant

  predicate Names(items: seq<Item>) {
    forall i | 0 <= i < |items| && items[i].Named? :: IsName(items[i].name)
  }

  lemma {:induction false} ExpandedNames(makefile: Assignments, rank: map<string, nat>, items: seq<Item>, limit: nat)
    requires Names(items)
    ensures Names(Expanded(Source(makefile), rank, items, limit))
    decreases limit, |items|
  {
    hide IsName, Parsed;
    if items != [] {
      var item := items[0];
      if item.Named? && item.name in makefile.value && item.name in rank && rank[item.name] < limit {
        ParsedNames(makefile.value[item.name]);
        ExpandedNames(makefile, rank, Parsed(makefile.value[item.name]), rank[item.name]);
      }
      ExpandedNames(makefile, rank, items[1..], limit);
    }
  }

  lemma ParsedNames(text: string)
    ensures Names(Parsed(text))
  {
  }

  /** What the code hands the shell, and what make means by the recipe. */
  function Handed(makefile: Assignments, text: string): string
    requires makefile.Valid()
  {
    Halved(Guarded(RawPasses(makefile, text, 2), false))
  }

  ghost function Meaning(makefile: Assignments, rank: map<string, nat>, text: string): string {
    Meant(Expanded(Source(makefile), rank, Parsed(text), 3))
  }

  /** In the expansion, an unknown reference directly after a doubled dollar. */
  ghost predicate UnknownAfterDollar(makefile: Assignments, rank: map<string, nat>, text: string) {
    FollowsDollar(Expanded(Source(makefile), rank, Parsed(text), 3), false)
  }

  /** A recipe over values nested at most two deep that are sealed where they stand. */
  ghost predicate Covered(makefile: Assignments, seals: Seals, rank: map<string, nat>, text: string) {
    && makefile.Valid() && AllDollared(makefile) && Dollared(text) && Fits(makefile, seals, text)
    && Ranked(Tokened(makefile), rank)
    && forall name | name in Refs(Tokened(makefile), Read(text)) :: rank[name] <= 2
  }

  lemma CoveredIsReady(makefile: Assignments, seals: Seals, rank: map<string, nat>, text: string)
    requires Covered(makefile, seals, rank, text)
    ensures Ready(makefile, rank, text, 3) && Tokened(makefile).Valid()
    ensures Below(Tokened(makefile), rank, Read(text), 3)
    ensures Handed(makefile, text) == Finish(Full(Tokened(makefile), rank, Read(text), 3))
  {
    hide Dollared, Fits, Ranked, Read, Full, Finish, RawPasses, Guarded, Halved;
    TokenedIsValid(makefile);
    ExpandIsFullOnText(makefile, seals, rank, text);
  }

  /** The exact condition: what is handed to the shell is what make means if and only if no unknown
      reference stands directly after a doubled dollar in the expansion, and nowhere in what is expanded do
      the characters `(NAME)` of an assigned variable. That the first half of it is enough, when there is
      no trap, holds whatever the values begin with; that a trap is always seen needs them not to be empty
      or to begin with a bracket themselves. */
  lemma RecipeIsMeantExactly(makefile: Assignments, seals: Seals, rank: map<string, nat>, text: string)
    requires Covered(makefile, seals, rank, text)
    ensures TrapFree(makefile, rank, text, 3) ==>
              (Handed(makefile, text) == Meaning(makefile, rank, text) <==>
               !UnknownAfterDollar(makefile, rank, text))
    ensures BracketFree(makefile) ==>
              (Handed(makefile, text) == Meaning(makefile, rank, text) <==>
               TrapFree(makefile, rank, text, 3) && !UnknownAfterDollar(makefile, rank, text))
  {
    hide Covered, Ready, Full, Read, Parsed, Expanded, Handed, TrapFree, BracketFree, Below, Names, IsName, Dollared;
    hide Rendered, Halved, Escaped, Meant, FollowsDollar, Starts, Ranked;
    CoveredIsReady(makefile, seals, rank, text);
    ReadyMeans(makefile, rank, text, 3);
    var all := Expanded(Source(makefile), rank, Parsed(text), 3);
    ParsedNames(text);
    ExpandedNames(makefile, rank, Parsed(text), 3);
    if TrapFree(makefile, rank, text, 3) {
      TrapFreeIsAlike(makefile, rank, text, 3);
      AlikeIsFinished(makefile, rank, text);
      NamesMean(all);
      FinishExactly(all);
    } else if BracketFree(makefile) {
      var before, name, value, after := TrapIsSprung(makefile, rank, text, 3);
      PrefixNames(before, [Plain('$')] + (Plains("(" + name + ")") + after));
      TrapIsSeen(makefile, before, name, value, after, false);
    }
  }

  lemma AlikeIsFinished(makefile: Assignments, rank: map<string, nat>, text: string)
    requires Ranked(Tokened(makefile), rank) && Below(Tokened(makefile), rank, Read(text), 3)
    requires Alike(makefile, rank, 3, Read(text), Parsed(text))
    ensures Finish(Full(Tokened(makefile), rank, Read(text), 3))
         == Finish(Escaped(Expanded(Source(makefile), rank, Parsed(text), 3)))
  {
    hide Ranked, Below, Full, Read, Parsed, Expanded, Rendered, Halved, Escaped;
  }

  lemma NamesMean(items: seq<Item>)
    requires Names(items)
    ensures forall i | 0 <= i < |items| && items[i].Named? :: IsName(items[i].name)
  {
  }

  lemma PrefixNames(before: seq<Item>, more: seq<Item>)
    requires Names(before + more)
    ensures forall i | 0 <= i < |before| && before[i].Named? :: IsName(before[i].name)
  {
    hide IsName;
    assert forall i | 0 <= i < |before| :: (before + more)[i] == before[i];
  }
}
