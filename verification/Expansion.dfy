/** Make's variable expansion by two passes of substitution: how many passes a text needs, and what
    it becomes. A text is a sequence of tokens: characters and references. */
module Expansion {
  import Text

  datatype Token = Char(c: char) | Ref(name: string)

  type Tokens = seq<Token>

  const PLACEHOLDER := "UNEXPANDED"

  /** The variables in the order the file assigns them, which is the order they are substituted in. */
  datatype Variables = Variables(value: map<string, Tokens>, order: seq<string>) {
    ghost predicate Valid() {
      && (forall i, j | 0 <= i < j < |order| :: order[i] != order[j])
      && (forall i | 0 <= i < |order| :: order[i] in value)
      && (forall name | name in value :: name in order)
    }
  }

  // ---------------------------------------------------------------- expansion

  /** `text.replace("$(name)", value)` */
  function Subst(text: Tokens, name: string, value: Tokens): Tokens {
    if text == [] then []
    else (if text[0] == Ref(name) then value else [text[0]]) + Subst(text[1..], name, value)
  }

  /** The first `n` variables substituted, one after another. */
  function PassUpTo(vars: Variables, text: Tokens, n: nat): Tokens
    requires vars.Valid() && n <= |vars.order|
  {
    if n == 0 then text
    else Subst(PassUpTo(vars, text, n - 1), vars.order[n - 1], vars.value[vars.order[n - 1]])
  }

  function Passes(vars: Variables, text: Tokens, k: nat): Tokens
    requires vars.Valid()
  {
    if k == 0 then text else PassUpTo(vars, Passes(vars, text, k - 1), |vars.order|)
  }

  /** A variable's name: a capital or an underscore, then capitals, digits and underscores. */
  predicate IsName(name: string) {
    && name != "" && !('0' <= name[0] <= '9')
    && forall i | 0 <= i < |name| :: 'A' <= name[i] <= 'Z' || '0' <= name[i] <= '9' || name[i] == '_'
  }

  /** A token as written out, with a harmless word for a reference that does not follow a dollar. */
  function RenderedOne(token: Token, afterDollar: bool): string {
    match token
    case Char(c) => [c]
    case Ref(name) => if afterDollar || !IsName(name) then "$(" + name + ")" else PLACEHOLDER
  }

  function Rendered(text: Tokens, afterDollar: bool): string {
    if text == [] then "" else RenderedOne(text[0], afterDollar) + Rendered(text[1..], text[0] == Char('$'))
  }

  lemma RenderedCons(token: Token, rest: Tokens, afterDollar: bool)
    ensures Rendered([token] + rest, afterDollar)
         == RenderedOne(token, afterDollar) + Rendered(rest, token == Char('$'))
  {
    assert ([token] + rest)[1..] == rest;
  }

  /** `text.replace("$$", "$")` */
  function Halved(s: string): string {
    if |s| < 2 then s
    else if s[0] == '$' && s[1] == '$' then "$" + Halved(s[2..])
    else [s[0]] + Halved(s[1..])
  }

  /** What is handed to the shell. */
  function Finish(text: Tokens): string {
    Halved(Rendered(text, false))
  }

  // ---------------------------------------------------------------- references, ranks, and need

  /** The defined variables a text refers to. */
  function Refs(vars: Variables, text: Tokens): set<string> {
    set name | name in vars.value && Ref(name) in text
  }

  /** Nesting ranks: at least one, and above those of everything the value refers to. */
  ghost predicate Ranked(vars: Variables, rank: map<string, nat>) {
    && vars.value.Keys <= rank.Keys
    && (forall name | name in vars.value :: rank[name] >= 1)
    && forall name, inner | name in vars.value && inner in Refs(vars, vars.value[name]) :: rank[inner] < rank[name]
  }

  ghost function Position(vars: Variables, name: string): (i: nat)
    requires vars.Valid() && name in vars.value
    ensures i < |vars.order| && vars.order[i] == name
  {
    var i :| 0 <= i < |vars.order| && vars.order[i] == name;
    i
  }

  ghost function Max(numbers: set<nat>): (m: nat)
    ensures numbers == {} ==> m == 0
    ensures numbers != {} ==> m in numbers
    ensures forall n | n in numbers :: n <= m
  {
    if numbers == {} then 0
    else
      var n :| n in numbers;
      var rest := Max(numbers - {n});
      assert forall k | k in numbers :: k == n || k in numbers - {n};
      if rest <= n then n else rest
  }

  /** How many passes a reference takes to be gone, counted from the start of a pass. What its value
      refers to is still met in the same pass if it is assigned later in the file, and has to wait
      for the next one if it is assigned earlier. */
  ghost function Need(vars: Variables, rank: map<string, nat>, name: string): (n: nat)
    requires vars.Valid() && Ranked(vars, rank) && name in vars.value
    ensures n >= 1
    decreases rank[name], 1
  {
    var inner := Max(InnerNeeds(vars, rank, name));
    if inner == 0 then 1 else inner
  }

  ghost function InnerNeeds(vars: Variables, rank: map<string, nat>, name: string): set<nat>
    requires vars.Valid() && Ranked(vars, rank) && name in vars.value
    decreases rank[name], 0
  {
    set other | other in Refs(vars, vars.value[name]) ::
      Need(vars, rank, other) + if Position(vars, other) > Position(vars, name) then 0 else 1
  }

  /** The need of a reference when the pass has already got to position `at`. */
  ghost function Weight(vars: Variables, rank: map<string, nat>, name: string, at: nat): nat
    requires vars.Valid() && Ranked(vars, rank) && name in vars.value
  {
    Need(vars, rank, name) + if Position(vars, name) >= at then 0 else 1
  }

  ghost function Cost(vars: Variables, rank: map<string, nat>, text: Tokens, at: nat): nat
    requires vars.Valid() && Ranked(vars, rank)
  {
    Max(Weights(vars, rank, text, at))
  }

  ghost function Weights(vars: Variables, rank: map<string, nat>, text: Tokens, at: nat): set<nat>
    requires vars.Valid() && Ranked(vars, rank)
  {
    set name | name in Refs(vars, text) :: Weight(vars, rank, name, at)
  }

  lemma OneInnerNeed(vars: Variables, rank: map<string, nat>, name: string, other: string)
    requires vars.Valid() && Ranked(vars, rank) && name in vars.value && other in vars.value
    ensures Weight(vars, rank, other, Position(vars, name) + 1)
         == Need(vars, rank, other) + if Position(vars, other) > Position(vars, name) then 0 else 1
  {
    hide Need, Ranked, Refs;
  }

  lemma InnerNeedsAreWeights(vars: Variables, rank: map<string, nat>, name: string)
    requires vars.Valid() && Ranked(vars, rank) && name in vars.value
    ensures forall w :: w in InnerNeeds(vars, rank, name) <==>
              exists other :: other in Refs(vars, vars.value[name])
                && Weight(vars, rank, other, Position(vars, name) + 1) == w
  {
    hide Need, Position, Refs, Ranked, Weight;
    DefinedRefs(vars, vars.value[name]);
    forall other | other in vars.value
      ensures Weight(vars, rank, other, Position(vars, name) + 1)
           == Need(vars, rank, other) + if Position(vars, other) > Position(vars, name) then 0 else 1
    {
      OneInnerNeed(vars, rank, name, other);
    }
  }

  lemma InnerNeedsMax(vars: Variables, rank: map<string, nat>, name: string)
    requires vars.Valid() && Ranked(vars, rank) && name in vars.value
    ensures Max(InnerNeeds(vars, rank, name)) == Cost(vars, rank, vars.value[name], Position(vars, name) + 1)
  {
    hide Need, Position, Refs, Ranked, Weight, InnerNeeds, Max;
    InnerNeedsAreWeights(vars, rank, name);
    DefinedRefs(vars, vars.value[name]);
    var weights := Weights(vars, rank, vars.value[name], Position(vars, name) + 1);
    assert forall w :: w in InnerNeeds(vars, rank, name) <==> w in weights;
    assert InnerNeeds(vars, rank, name) == weights;
  }

  lemma NeedIsCost(vars: Variables, rank: map<string, nat>, name: string)
    requires vars.Valid() && Ranked(vars, rank) && name in vars.value
    ensures var inner := Cost(vars, rank, vars.value[name], Position(vars, name) + 1);
            Need(vars, rank, name) == if inner == 0 then 1 else inner
  {
    hide Cost;
    InnerNeedsMax(vars, rank, name);
  }

  lemma CostIsAttained(vars: Variables, rank: map<string, nat>, text: Tokens, at: nat)
    requires vars.Valid() && Ranked(vars, rank)
    ensures forall name | name in Refs(vars, text) :: Weight(vars, rank, name, at) <= Cost(vars, rank, text, at)
    ensures Cost(vars, rank, text, at) > 0 ==>
              exists name :: name in Refs(vars, text) && Weight(vars, rank, name, at) == Cost(vars, rank, text, at)
    ensures Refs(vars, text) == {} <==> Cost(vars, rank, text, at) == 0
  {
    var weights := Weights(vars, rank, text, at);
    forall name | name in Refs(vars, text) ensures Weight(vars, rank, name, at) in weights {
    }
    if Refs(vars, text) != {} {
      var name :| name in Refs(vars, text);
      assert Weight(vars, rank, name, at) in weights;
    }
  }

  // ---------------------------------------------------------------- what one substitution does

  lemma {:induction false} SubstRefs(vars: Variables, text: Tokens, name: string, value: Tokens, other: string)
    ensures Ref(other) in Subst(text, name, value) <==>
            (Ref(other) in text && other != name) || (Ref(name) in text && Ref(other) in value)
  {
    if text != [] {
      SubstRefs(vars, text[1..], name, value, other);
      assert text == [text[0]] + text[1..];
    }
  }

  /** Substituting the next variable of a pass leaves a cost of two or more as it is. */
  lemma SubstCost(vars: Variables, rank: map<string, nat>, text: Tokens, i: nat)
    requires vars.Valid() && Ranked(vars, rank) && i < |vars.order|
    ensures var after := Subst(text, vars.order[i], vars.value[vars.order[i]]);
            var c, d := Cost(vars, rank, text, i), Cost(vars, rank, after, i + 1);
            if c >= 2 then d == c else d <= c
  {
    var name := vars.order[i];
    var value := vars.value[name];
    var after := Subst(text, name, value);
    assert Position(vars, name) == i;
    forall other ensures other in Refs(vars, after) <==>
      (other in Refs(vars, text) && other != name) || (name in Refs(vars, text) && other in Refs(vars, value))
    {
      SubstRefs(vars, text, name, value, other);
    }
    NeedIsCost(vars, rank, name);
    CostIsAttained(vars, rank, text, i);
    CostIsAttained(vars, rank, after, i + 1);
    CostIsAttained(vars, rank, value, i + 1);
    SubstCostBound(vars, rank, text, i, after);
    SubstCostKept(vars, rank, text, i, after);
  }

  lemma SameWeight(vars: Variables, rank: map<string, nat>, i: nat, other: string)
    requires vars.Valid() && Ranked(vars, rank) && i < |vars.order|
    requires other in vars.value && other != vars.order[i]
    ensures Weight(vars, rank, other, i) == Weight(vars, rank, other, i + 1)
  {
  }

  lemma SubstCostBound(vars: Variables, rank: map<string, nat>, text: Tokens, i: nat, after: Tokens)
    requires vars.Valid() && Ranked(vars, rank) && i < |vars.order|
    requires forall other :: other in Refs(vars, after) <==>
               (other in Refs(vars, text) && other != vars.order[i])
               || (vars.order[i] in Refs(vars, text) && other in Refs(vars, vars.value[vars.order[i]]))
    ensures Cost(vars, rank, after, i + 1) <= Cost(vars, rank, text, i)
  {
    hide Refs, Weight, Need, Cost;
    var name := vars.order[i];
    CostIsAttained(vars, rank, text, i);
    CostIsAttained(vars, rank, after, i + 1);
    if Cost(vars, rank, after, i + 1) > 0 {
      DefinedRefs(vars, after);
      var other :| other in Refs(vars, after) && Weight(vars, rank, other, i + 1) == Cost(vars, rank, after, i + 1);
      if other in Refs(vars, text) && other != name {
        SameWeight(vars, rank, i, other);
      } else {
        OwnWeight(vars, rank, i);
        CostIsAttained(vars, rank, vars.value[name], i + 1);
      }
    }
  }

  lemma DefinedRefs(vars: Variables, text: Tokens)
    ensures Refs(vars, text) <= vars.value.Keys
  {
  }

  lemma OwnWeight(vars: Variables, rank: map<string, nat>, i: nat)
    requires vars.Valid() && Ranked(vars, rank) && i < |vars.order|
    ensures var inner := Cost(vars, rank, vars.value[vars.order[i]], i + 1);
            Weight(vars, rank, vars.order[i], i) == if inner == 0 then 1 else inner
  {
    hide Need, Cost, Refs;
    assert Position(vars, vars.order[i]) == i;
    NeedIsCost(vars, rank, vars.order[i]);
  }

  lemma SubstCostKept(vars: Variables, rank: map<string, nat>, text: Tokens, i: nat, after: Tokens)
    requires vars.Valid() && Ranked(vars, rank) && i < |vars.order|
    requires forall other :: other in Refs(vars, after) <==>
               (other in Refs(vars, text) && other != vars.order[i])
               || (vars.order[i] in Refs(vars, text) && other in Refs(vars, vars.value[vars.order[i]]))
    ensures Cost(vars, rank, text, i) >= 2 ==> Cost(vars, rank, after, i + 1) >= Cost(vars, rank, text, i)
  {
    hide Refs, Weight, Need, Cost;
    var name := vars.order[i];
    CostIsAttained(vars, rank, text, i);
    CostIsAttained(vars, rank, after, i + 1);
    if Cost(vars, rank, text, i) >= 2 {
      DefinedRefs(vars, text);
      var top :| top in Refs(vars, text) && Weight(vars, rank, top, i) == Cost(vars, rank, text, i);
      if top != name {
        SameWeight(vars, rank, i, top);
      } else {
        OwnWeight(vars, rank, i);
        CostIsAttained(vars, rank, vars.value[name], i + 1);
        DefinedRefs(vars, vars.value[name]);
        var inner :| inner in Refs(vars, vars.value[name])
          && Weight(vars, rank, inner, i + 1) == Cost(vars, rank, vars.value[name], i + 1);
        assert inner in Refs(vars, after);
      }
    }
  }

  // ---------------------------------------------------------------- what one pass does

  lemma PassCostUpTo(vars: Variables, rank: map<string, nat>, text: Tokens, n: nat)
    requires vars.Valid() && Ranked(vars, rank) && n <= |vars.order|
    ensures var c, d := Cost(vars, rank, text, 0), Cost(vars, rank, PassUpTo(vars, text, n), n);
            if c >= 2 then d == c else d <= c
  {
    hide Cost, Subst;
    if n > 0 {
      PassCostUpTo(vars, rank, text, n - 1);
      SubstCost(vars, rank, PassUpTo(vars, text, n - 1), n - 1);
    }
  }

  /** At the end of a pass every reference left is one that has to wait for the next. */
  lemma EndOfPass(vars: Variables, rank: map<string, nat>, text: Tokens)
    requires vars.Valid() && Ranked(vars, rank)
    ensures Cost(vars, rank, text, 0) == 0 ==> Cost(vars, rank, text, |vars.order|) == 0
    ensures Cost(vars, rank, text, 0) > 0 ==> Cost(vars, rank, text, |vars.order|) == Cost(vars, rank, text, 0) + 1
  {
    hide Refs, Need, Cost;
    var n := |vars.order|;
    DefinedRefs(vars, text);
    CostIsAttained(vars, rank, text, 0);
    CostIsAttained(vars, rank, text, n);
    forall name | name in Refs(vars, text)
      ensures Weight(vars, rank, name, n) == Weight(vars, rank, name, 0) + 1
    {
    }
  }

  /** A pass takes the cost down by one, exactly. */
  lemma PassCost(vars: Variables, rank: map<string, nat>, text: Tokens)
    requires vars.Valid() && Ranked(vars, rank)
    ensures var c := Cost(vars, rank, text, 0);
            Cost(vars, rank, PassUpTo(vars, text, |vars.order|), 0) == if c == 0 then 0 else c - 1
  {
    hide Cost, PassUpTo;
    PassCostUpTo(vars, rank, text, |vars.order|);
    EndOfPass(vars, rank, PassUpTo(vars, text, |vars.order|));
  }

  lemma {:induction false} PassesCost(vars: Variables, rank: map<string, nat>, text: Tokens, k: nat)
    requires vars.Valid() && Ranked(vars, rank)
    ensures var c := Cost(vars, rank, text, 0);
            Cost(vars, rank, Passes(vars, text, k), 0) == if c <= k then 0 else c - k
  {
    hide Cost, PassUpTo;
    if k > 0 {
      PassesCost(vars, rank, text, k - 1);
      PassCost(vars, rank, Passes(vars, text, k - 1));
    }
  }

  /** The exact condition: k passes leave no defined reference if and only if every variable the text
      refers to needs at most k. */
  lemma PassesSuffice(vars: Variables, rank: map<string, nat>, text: Tokens, k: nat)
    requires vars.Valid() && Ranked(vars, rank)
    ensures Refs(vars, Passes(vars, text, k)) == {} <==>
            forall name | name in Refs(vars, text) :: Need(vars, rank, name) <= k
  {
    hide Refs, Need, Cost, Passes;
    DefinedRefs(vars, text);
    PassesCost(vars, rank, text, k);
    CostIsAttained(vars, rank, text, 0);
    CostIsAttained(vars, rank, Passes(vars, text, k), 0);
    forall name | name in Refs(vars, text) ensures Weight(vars, rank, name, 0) == Need(vars, rank, name) {
    }
  }

  /** A variable never needs more passes than its nesting rank, in whatever order the file has it. */
  lemma {:induction false} NeedIsAtMostRank(vars: Variables, rank: map<string, nat>, name: string)
    requires vars.Valid() && Ranked(vars, rank) && name in vars.value
    ensures Need(vars, rank, name) <= rank[name]
    decreases rank[name]
  {
    forall other | other in Refs(vars, vars.value[name]) ensures Need(vars, rank, other) <= rank[other] {
      NeedIsAtMostRank(vars, rank, other);
    }
  }

  /** So k passes are enough for references of rank at most k, whatever the order. */
  lemma RankBoundsPasses(vars: Variables, rank: map<string, nat>, text: Tokens, k: nat)
    requires vars.Valid() && Ranked(vars, rank)
    requires forall name | name in Refs(vars, text) :: rank[name] <= k
    ensures Refs(vars, Passes(vars, text, k)) == {}
  {
    hide Passes, Need;
    PassesSuffice(vars, rank, text, k);
    forall name | name in Refs(vars, text) ensures Need(vars, rank, name) <= k {
      NeedIsAtMostRank(vars, rank, name);
    }
  }

  // ---------------------------------------------------------------- what the text becomes

  /** Every defined reference of the text has a rank below `limit`. */
  ghost predicate Below(vars: Variables, rank: map<string, nat>, text: Tokens, limit: nat)
    requires Ranked(vars, rank)
  {
    forall name | name in Refs(vars, text) :: rank[name] < limit
  }

  /** Full recursive expansion: each defined reference replaced by the expansion of its value. */
  ghost function Full(vars: Variables, rank: map<string, nat>, text: Tokens, limit: nat): Tokens
    requires Ranked(vars, rank) && Below(vars, rank, text, limit)
    decreases limit, |text|
  {
    if text == [] then []
    else
      var rest := text[1..];
      assert forall token | token in rest :: token in text;
      (match text[0]
       case Ref(name) =>
         if name in vars.value then
           assert name in Refs(vars, text);
           Full(vars, rank, vars.value[name], rank[name])
         else [text[0]]
       case _ => [text[0]]) + Full(vars, rank, rest, limit)
  }

  lemma {:induction false} LimitIsFree(vars: Variables, rank: map<string, nat>, text: Tokens, a: nat, b: nat)
    requires Ranked(vars, rank) && Below(vars, rank, text, a) && Below(vars, rank, text, b)
    ensures Full(vars, rank, text, a) == Full(vars, rank, text, b)
  {
    if text != [] {
      assert forall token | token in text[1..] :: token in text;
      LimitIsFree(vars, rank, text[1..], a, b);
    }
  }

  lemma BelowConcat(vars: Variables, rank: map<string, nat>, a: Tokens, b: Tokens, limit: nat)
    requires Ranked(vars, rank)
    ensures Below(vars, rank, a + b, limit) <==> Below(vars, rank, a, limit) && Below(vars, rank, b, limit)
  {
    hide Ranked;
    assert forall name :: name in Refs(vars, a + b) <==> name in Refs(vars, a) || name in Refs(vars, b);
  }

  lemma FullCons(vars: Variables, rank: map<string, nat>, token: Token, rest: Tokens, limit: nat)
    requires Ranked(vars, rank) && Below(vars, rank, [token] + rest, limit)
    ensures Below(vars, rank, [token], limit) && Below(vars, rank, rest, limit)
    ensures Full(vars, rank, [token] + rest, limit) == Full(vars, rank, [token], limit) + Full(vars, rank, rest, limit)
  {
    hide Ranked, Refs, Below;
    BelowConcat(vars, rank, [token], rest, limit);
    assert ([token] + rest)[1..] == rest && [token][1..] == [];
  }

  lemma {:induction false} FullOfConcat(vars: Variables, rank: map<string, nat>, a: Tokens, b: Tokens, limit: nat)
    requires Ranked(vars, rank) && Below(vars, rank, a, limit) && Below(vars, rank, b, limit)
    ensures Below(vars, rank, a + b, limit)
    ensures Full(vars, rank, a + b, limit) == Full(vars, rank, a, limit) + Full(vars, rank, b, limit)
  {
    hide Ranked, Refs, Below, Full;
    BelowConcat(vars, rank, a, b, limit);
    if a == [] {
      FullOfNone(vars, rank, limit);
      assert a + b == b;
    } else {
      var head, rest := a[0], a[1..];
      assert a == [head] + rest && a + b == [head] + (rest + b);
      FullCons(vars, rank, head, rest, limit);
      FullCons(vars, rank, head, rest + b, limit);
      FullOfConcat(vars, rank, rest, b, limit);
      Text.Regroup(Full(vars, rank, [head], limit), Full(vars, rank, rest, limit), Full(vars, rank, b, limit));
    }
  }

  lemma FullOfNone(vars: Variables, rank: map<string, nat>, limit: nat)
    requires Ranked(vars, rank) && Below(vars, rank, [], limit)
    ensures Full(vars, rank, [], limit) == []
  {
  }

  /** Substituting a variable's own value does not change what a text expands to. */
  lemma {:induction false} SubstKeepsFull(
    vars: Variables, rank: map<string, nat>, text: Tokens, name: string, limit: nat)
    requires Ranked(vars, rank) && Below(vars, rank, text, limit) && name in vars.value
    ensures Below(vars, rank, Subst(text, name, vars.value[name]), limit)
    ensures Full(vars, rank, Subst(text, name, vars.value[name]), limit) == Full(vars, rank, text, limit)
  {
    if text != [] {
      var value := vars.value[name];
      assert forall token | token in text[1..] :: token in text;
      SubstKeepsFull(vars, rank, text[1..], name, limit);
      var head := if text[0] == Ref(name) then value else [text[0]];
      HeadKeepsFull(vars, rank, text, name, limit);
      FullOfConcat(vars, rank, head, Subst(text[1..], name, value), limit);
      FullOfConcat(vars, rank, [text[0]], text[1..], limit);
      assert text == [text[0]] + text[1..];
    }
  }

  lemma HeadKeepsFull(vars: Variables, rank: map<string, nat>, text: Tokens, name: string, limit: nat)
    requires Ranked(vars, rank) && text != [] && Below(vars, rank, text, limit) && name in vars.value
    ensures Below(vars, rank, [text[0]], limit)
    ensures var head := if text[0] == Ref(name) then vars.value[name] else [text[0]];
            && Below(vars, rank, head, limit)
            && Full(vars, rank, head, limit) == Full(vars, rank, [text[0]], limit)
  {
    assert forall token | token in [text[0]] :: token in text;
    if text[0] == Ref(name) {
      assert name in Refs(vars, text);
      LimitIsFree(vars, rank, vars.value[name], limit, rank[name]);
      assert [text[0]][1..] == [];
      assert Full(vars, rank, vars.value[name], rank[name]) + [] == Full(vars, rank, vars.value[name], rank[name]);
    }
  }

  lemma {:induction false} PassKeepsFull(vars: Variables, rank: map<string, nat>, text: Tokens, n: nat, limit: nat)
    requires vars.Valid() && Ranked(vars, rank) && Below(vars, rank, text, limit) && n <= |vars.order|
    ensures Below(vars, rank, PassUpTo(vars, text, n), limit)
    ensures Full(vars, rank, PassUpTo(vars, text, n), limit) == Full(vars, rank, text, limit)
  {
    hide Full, Below, Subst;
    if n > 0 {
      PassKeepsFull(vars, rank, text, n - 1, limit);
      SubstKeepsFull(vars, rank, PassUpTo(vars, text, n - 1), vars.order[n - 1], limit);
    }
  }

  lemma {:induction false} PassesKeepFull(vars: Variables, rank: map<string, nat>, text: Tokens, k: nat, limit: nat)
    requires vars.Valid() && Ranked(vars, rank) && Below(vars, rank, text, limit)
    ensures Below(vars, rank, Passes(vars, text, k), limit)
    ensures Full(vars, rank, Passes(vars, text, k), limit) == Full(vars, rank, text, limit)
  {
    hide Full, Below, PassUpTo;
    if k > 0 {
      PassesKeepFull(vars, rank, text, k - 1, limit);
      PassKeepsFull(vars, rank, Passes(vars, text, k - 1), |vars.order|, limit);
    }
  }

  lemma NoRefs(vars: Variables, text: Tokens)
    requires text != []
    ensures Refs(vars, text) == {} <==>
            Refs(vars, text[1..]) == {} && (text[0].Ref? ==> text[0].name !in vars.value)
  {
    assert text == [text[0]] + text[1..];
    assert forall name | name in vars.value ::
        Ref(name) in text <==> Ref(name) == text[0] || Ref(name) in text[1..];
    assert text[0].Ref? ==> text[0] == Ref(text[0].name);
    if Refs(vars, text) == {} {
      assert forall name | name in vars.value :: Ref(name) in text ==> name in Refs(vars, text);
    }
  }

  lemma {:induction false} NothingToExpand(vars: Variables, rank: map<string, nat>, text: Tokens, limit: nat)
    requires Ranked(vars, rank) && Below(vars, rank, text, limit) && Refs(vars, text) == {}
    ensures Full(vars, rank, text, limit) == text
  {
    hide Refs, Ranked;
    if text != [] {
      NoRefs(vars, text);
      NothingToExpand(vars, rank, text[1..], limit);
      assert [text[0]] + text[1..] == text;
    }
  }

  /** When k passes are enough, what they give is the full recursive expansion. */
  lemma PassesAreFull(vars: Variables, rank: map<string, nat>, text: Tokens, k: nat, limit: nat)
    requires vars.Valid() && Ranked(vars, rank) && Below(vars, rank, text, limit)
    requires forall name | name in Refs(vars, text) :: Need(vars, rank, name) <= k
    ensures Passes(vars, text, k) == Full(vars, rank, text, limit)
  {
    hide Full, Below, Passes, Need;
    PassesSuffice(vars, rank, text, k);
    PassesKeepFull(vars, rank, text, k, limit);
    NothingToExpand(vars, rank, Passes(vars, text, k), limit);
  }

  /** The two passes `Expand` makes are full expansion for variables of nesting rank at most two,
      whatever order they are assigned in. */
  lemma ExpandIsFull(vars: Variables, rank: map<string, nat>, text: Tokens)
    requires vars.Valid() && Ranked(vars, rank)
    requires forall name | name in Refs(vars, text) :: rank[name] <= 2
    ensures Below(vars, rank, text, 3) && Passes(vars, text, 2) == Full(vars, rank, text, 3)
    ensures Refs(vars, Passes(vars, text, 2)) == {}
  {
    forall name | name in Refs(vars, text) ensures Need(vars, rank, name) <= 2 {
      NeedIsAtMostRank(vars, rank, name);
    }
    PassesAreFull(vars, rank, text, 2, 3);
    PassesSuffice(vars, rank, text, 2);
  }

  // ---------------------------------------------------------------- where two are not enough

  /** Three variables, each assigned before it is used by the next. */
  function Chain(): Variables {
    Variables(map["A" := [Char('x')], "B" := [Ref("A")], "C" := [Ref("B")]], ["A", "B", "C"])
  }

  /** The same three, the other way round. */
  function Reversed(): Variables {
    Chain().(order := ["C", "B", "A"])
  }

  /** In definition-before-use order two passes leave a reference of rank three unexpanded, while in
      the opposite order a single pass expands it. */
  lemma RankThreeOutrunsTwoPasses()
    ensures Chain().Valid() && Reversed().Valid()
    ensures Passes(Chain(), [Ref("C")], 2) == [Ref("A")]
    ensures Passes(Reversed(), [Ref("C")], 1) == [Char('x')]
  {
    OneRef("A");
    OneRef("B");
    OneRef("C");
    hide Subst;
    assert PassUpTo(Chain(), [Ref("C")], 3) == [Ref("B")] by {
      assert PassUpTo(Chain(), [Ref("C")], 1) == [Ref("C")];
      assert PassUpTo(Chain(), [Ref("C")], 2) == [Ref("C")];
    }
    assert PassUpTo(Chain(), [Ref("B")], 3) == [Ref("A")] by {
      assert PassUpTo(Chain(), [Ref("B")], 1) == [Ref("B")];
      assert PassUpTo(Chain(), [Ref("B")], 2) == [Ref("A")];
    }
    assert Passes(Chain(), [Ref("C")], 1) == [Ref("B")];
    assert PassUpTo(Reversed(), [Ref("C")], 3) == [Char('x')] by {
      assert PassUpTo(Reversed(), [Ref("C")], 1) == [Ref("B")];
      assert PassUpTo(Reversed(), [Ref("C")], 2) == [Ref("A")];
    }
  }

  lemma ChainIsRanked()
    ensures Ranked(Chain(), map["A" := 1, "B" := 2, "C" := 3])
  {
  }

  lemma OneRef(name: string)
    ensures forall other, value :: Subst([Ref(name)], other, value) == if other == name then value else [Ref(name)]
  {
    forall other, value ensures Subst([Ref(name)], other, value) == if other == name then value else [Ref(name)] {
      assert [Ref(name)][1..] == [] && Subst([], other, value) == [];
      assert value + [] == value;
    }
  }
}
