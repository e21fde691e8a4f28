/** What the shell is handed of a recipe: dollars that were doubled come out single, and references that
    stayed unknown come out as a harmless word, but for one case. */
module Shell {
  import Text
  import opened Expansion

  /** Characters, and references by name: once a recipe is expanded, to unknown variables only. */
  datatype Item = Plain(c: char) | Named(name: string)

  /** Written as a recipe writes it, every dollar doubled. */
  function Escaped(items: seq<Item>): Tokens {
    if items == [] then [] else EscapedOne(items[0]) + Escaped(items[1..])
  }

  function EscapedOne(item: Item): Tokens {
    match item
    case Plain(c) => if c == '$' then [Char('$'), Char('$')] else [Char(c)]
    case Named(name) => [Ref(name)]
  }

  /** What the shell is meant to see. */
  function Meant(items: seq<Item>): string {
    if items == [] then ""
    else (match items[0] case Plain(c) => [c] case Named(_) => PLACEHOLDER) + Meant(items[1..])
  }

  /** A reference directly after a dollar, or first when a dollar has gone before. */
  predicate FollowsDollar(items: seq<Item>, afterDollar: bool) {
    items != [] && ((afterDollar && items[0].Named?) || FollowsDollar(items[1..], items[0] == Plain('$')))
  }

  /** What the shell does see. */
  function Seen(items: seq<Item>, afterDollar: bool): string {
    if items == [] then ""
    else (match items[0]
          case Plain(c) => [c]
          case Named(name) => if afterDollar then "$(" + name + ")" else PLACEHOLDER)
         + Seen(items[1..], items[0] == Plain('$'))
  }

  lemma {:induction false} HalvedPlain(plain: string, rest: string)
    requires '$' !in plain
    ensures Halved(plain + rest) == plain + Halved(rest)
  {
    if plain == "" {
      assert plain + rest == rest;
    } else {
      HalvedPlain(plain[1..], rest);
      assert (plain + rest)[1..] == plain[1..] + rest;
      assert plain == [plain[0]] + plain[1..];
    }
  }

  lemma HalvedSingle(rest: string)
    requires rest != "" && rest[0] != '$'
    ensures Halved("$" + rest) == "$" + Halved(rest)
  {
    assert ("$" + rest)[1..] == rest;
  }

  lemma NamesHoldNoDollar(name: string)
    requires IsName(name)
    ensures '$' !in "(" + name + ")"
  {
  }

  lemma HalvedReference(name: string, rest: string)
    requires IsName(name)
    ensures Halved("$(" + name + ")" + rest) == "$(" + name + ")" + Halved(rest)
  {
    hide IsName, Halved;
    var plain := "(" + name + ")";
    NamesHoldNoDollar(name);
    HalvedPlain(plain, rest);
    HalvedSingle(plain + rest);
    assert "$(" + name + ")" + rest == "$" + (plain + rest);
    assert "$(" + name + ")" + Halved(rest) == "$" + (plain + Halved(rest));
  }

  lemma HalvedDollars(rest: string)
    ensures Halved("$$" + rest) == "$" + Halved(rest)
  {
    assert ("$$" + rest)[2..] == rest;
  }

  lemma {:induction false} FinishIsSeen(items: seq<Item>, afterDollar: bool)
    requires forall i | 0 <= i < |items| && items[i].Named? :: IsName(items[i].name)
    ensures Halved(Rendered(Escaped(items), afterDollar)) == Seen(items, afterDollar)
  {
    hide Rendered, Halved, IsName;
    if items == [] {
      NothingSeen(afterDollar);
    } else {
      var rest := Escaped(items[1..]);
      FinishIsSeen(items[1..], items[0] == Plain('$'));
      match items[0]
      case Plain(c) =>
        if c == '$' {
          assert Escaped(items) == [Char('$')] + ([Char('$')] + rest);
          RenderedCons(Char('$'), [Char('$')] + rest, afterDollar);
          RenderedCons(Char('$'), rest, true);
          HalvedDollars(Rendered(rest, true));
          assert "$" + ("$" + Rendered(rest, true)) == "$$" + Rendered(rest, true);
        } else {
          RenderedCons(Char(c), rest, afterDollar);
          HalvedPlain([c], Rendered(rest, false));
        }
      case Named(name) =>
        RenderedCons(Ref(name), rest, afterDollar);
        if afterDollar {
          HalvedReference(name, Rendered(rest, false));
        } else {
          HalvedPlain(PLACEHOLDER, Rendered(rest, false));
        }
    }
  }

  lemma NothingSeen(afterDollar: bool)
    ensures Halved(Rendered([], afterDollar)) == ""
  {
  }

  lemma {:induction false} SeenIsMeant(items: seq<Item>, afterDollar: bool)
    ensures Seen(items, afterDollar) == Meant(items) <==> !FollowsDollar(items, afterDollar)
  {
    if items != [] {
      var next := items[0] == Plain('$');
      SeenIsMeant(items[1..], next);
      if afterDollar && items[0].Named? {
        assert Seen(items, afterDollar)[0] == '$' && Meant(items)[0] == 'U';
      } else {
        SameHead(if items[0].Plain? then [items[0].c] else PLACEHOLDER, Seen(items[1..], next), Meant(items[1..]));
      }
    }
  }

  lemma SameHead(head: string, a: string, b: string)
    ensures head + a == head + b <==> a == b
  {
    if head + a == head + b {
      assert (head + a)[|head|..] == a && (head + b)[|head|..] == b;
    }
  }

  /** The exact condition: escaped dollars come out single and unknown references come out harmless
      if and only if no reference stands directly after an escaped dollar. Where one does, its opening
      `$(` reaches the shell. */
  lemma FinishExactly(items: seq<Item>)
    requires forall i | 0 <= i < |items| && items[i].Named? :: IsName(items[i].name)
    ensures Finish(Escaped(items)) == Meant(items) <==> !FollowsDollar(items, false)
  {
    hide IsName, Rendered, Halved, Escaped, Meant, Seen, FollowsDollar;
    FinishIsSeen(items, false);
    SeenIsMeant(items, false);
  }

  /** An escaped dollar and then an unknown reference: the shell sees an opening `$(`. */
  lemma ReferenceAfterADollar()
    ensures Finish(Escaped([Plain('$'), Named("X")])) == "$$(X)"
    ensures Meant([Plain('$'), Named("X")]) == "$" + PLACEHOLDER
  {
    var items := [Plain('$'), Named("X")];
    FinishIsSeen(items, false);
    assert items[1..] == [Named("X")] && items[1..][1..] == [];
    assert Seen(items[1..], true) == "$(X)" && Meant(items[1..]) == PLACEHOLDER;
  }
}
