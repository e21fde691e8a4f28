/** Brace depth: where the brace that closes an opening one is, and what lies between them. */
module Braces {
  import opened Wrappers

  function Step(c: char): int {
    if c == '{' then 1 else if c == '}' then -1 else 0
  }

  /** Opening braces less closing braces. */
  function Depth(s: string): int {
    if s == "" then 0 else Depth(s[..|s| - 1]) + Step(s[|s| - 1])
  }

  /** Depth zero, and never below on the way. */
  ghost predicate Balanced(body: string) {
    Depth(body) == 0 && forall k | 0 <= k <= |body| :: Depth(body[..k]) >= 0
  }

  /** The brace at `close` is where the depth counted from `open` first returns to zero. */
  ghost predicate Closes(text: string, open: nat, close: nat) {
    && open < close < |text|
    && Depth(text[open..close + 1]) == 0
    && forall k | open < k <= close :: Depth(text[open..k]) > 0
  }

  ghost function CloseOf(text: string, open: nat): (close: Option<nat>)
    ensures close.Some? ==> Closes(text, open, close.value)
    ensures close.None? ==> forall c: nat :: !Closes(text, open, c)
  {
    if c: nat :| Closes(text, open, c) then Some(c) else None
  }

  lemma DepthSnoc(text: string, from: nat, index: nat)
    requires from <= index < |text|
    ensures Depth(text[from..index + 1]) == Depth(text[from..index]) + Step(text[index])
  {
    assert text[from..index + 1][..index - from] == text[from..index];
  }

  lemma CloseIsUnique(text: string, open: nat, a: nat, b: nat)
    requires Closes(text, open, a) && Closes(text, open, b)
    ensures a == b
  {
    hide Depth;
  }

  // ---------------------------------------------------------------- what a body is

  lemma {:induction false} DepthConcat(a: string, b: string)
    ensures Depth(a + b) == Depth(a) + Depth(b)
  {
    if b == "" {
      assert a + b == a;
    } else {
      DepthConcat(a, b[..|b| - 1]);
      assert (a + b)[..|a + b| - 1] == a + b[..|b| - 1];
    }
  }

  lemma DepthOfOne(c: char)
    ensures Depth([c]) == Step(c)
  {
    assert [c][..0] == "";
  }

  /** Depth counted from an opening brace is one more than depth counted inside it. */
  lemma InsideBrace(text: string, open: nat, k: nat)
    requires open < k <= |text| && text[open] == '{'
    ensures Depth(text[open..k]) == 1 + Depth(text[open + 1..k])
  {
    assert text[open..k] == "{" + text[open + 1..k];
    DepthConcat("{", text[open + 1..k]);
    DepthOfOne('{');
  }

  /** A closing brace closes an opening one exactly when what is between them is balanced. */
  lemma ClosesExactly(text: string, open: nat, close: nat)
    requires open < close < |text| && text[open] == '{'
    ensures Closes(text, open, close) <==> text[close] == '}' && Balanced(text[open + 1..close])
  {
    hide Depth;
    var body := text[open + 1..close];
    forall k | open < k <= close ensures Depth(text[open..k]) == 1 + Depth(body[..k - open - 1]) {
      InsideBrace(text, open, k);
      assert text[open + 1..k] == body[..k - open - 1];
    }
    DepthSnoc(text, open, close);
    assert body[..|body|] == body;
    if Closes(text, open, close) {
      forall k | 0 <= k <= |body| ensures Depth(body[..k]) >= 0 {
        assert Depth(text[open..k + open + 1]) == 1 + Depth(body[..k]);
      }
    }
  }

  lemma CloseIsInRange(text: string, open: nat, close: nat)
    requires Closes(text, open, close)
    ensures open < close < |text|
  {
  }

  /** An arm is left out exactly when the depth never returns to zero after its opening brace. */
  lemma LeftOutExactly(text: string, open: nat)
    requires open < |text| && text[open] == '{'
    ensures CloseOf(text, open).None? <==> forall k | open < k <= |text| :: Depth(text[open..k]) > 0
  {
    if CloseOf(text, open).None? {
      forall k | open < k <= |text| ensures Depth(text[open..k]) > 0 {
        StaysOpen(text, open, k);
      }
    } else {
      var close := CloseOf(text, open).value;
      assert Depth(text[open..close + 1]) == 0;
    }
  }

  lemma {:induction false} StaysOpen(text: string, open: nat, k: nat)
    requires open < k <= |text| && text[open] == '{'
    requires forall c: nat :: !Closes(text, open, c)
    ensures forall j | open < j <= k :: Depth(text[open..j]) > 0
    decreases k
  {
    hide Depth;
    DepthSnoc(text, open, k - 1);
    if k == open + 1 {
      assert Depth(text[open..open]) == 0 by { DepthOfNone(text, open); }
    } else {
      StaysOpen(text, open, k - 1);
      assert !Closes(text, open, k - 1);
    }
  }

  lemma DepthOfNone(text: string, open: nat)
    requires open <= |text|
    ensures Depth(text[open..open]) == 0
  {
  }

  // ---------------------------------------------------------------- nesting

  /** Text with properly nested blocks. */
  datatype Piece = Plain(c: char) | Block(inner: seq<Piece>)

  ghost predicate Proper(pieces: seq<Piece>) {
    forall i | 0 <= i < |pieces| ::
      match pieces[i]
      case Plain(c) => Step(c) == 0
      case Block(inner) => Proper(inner)
  }

  ghost function Printed(pieces: seq<Piece>): string {
    if pieces == [] then ""
    else (match pieces[0]
          case Plain(c) => [c]
          case Block(inner) => "{" + Printed(inner) + "}") + Printed(pieces[1..])
  }

  lemma BalancedConcat(a: string, b: string)
    requires Balanced(a) && Balanced(b)
    ensures Balanced(a + b)
  {
    hide Depth;
    DepthConcat(a, b);
    forall k | 0 <= k <= |a + b| ensures Depth((a + b)[..k]) >= 0 {
      if k <= |a| {
        assert (a + b)[..k] == a[..k];
      } else {
        assert (a + b)[..k] == a + b[..k - |a|];
        DepthConcat(a, b[..k - |a|]);
      }
    }
  }

  lemma BalancedBlock(inner: string)
    requires Balanced(inner)
    ensures Balanced("{" + inner + "}")
  {
    hide Depth;
    var s := "{" + inner + "}";
    DepthOfOne('{');
    DepthOfOne('}');
    DepthConcat("{", inner);
    DepthConcat("{" + inner, "}");
    forall k | 0 <= k <= |s| ensures Depth(s[..k]) >= 0 {
      if k == 0 {
        DepthOfNone(s, 0);
        assert s[..0] == s[0..0];
      } else if k < |s| {
        assert s[..k] == "{" + inner[..k - 1];
        DepthConcat("{", inner[..k - 1]);
      } else {
        assert s[..k] == s;
      }
    }
  }

  lemma BalancedChar(c: char)
    requires Step(c) == 0
    ensures Balanced([c])
  {
    DepthOfOne(c);
    assert [c][..0] == "" && [c][..1] == [c];
  }

  lemma {:induction false} NestedIsBalanced(pieces: seq<Piece>)
    requires Proper(pieces)
    ensures Balanced(Printed(pieces))
    decreases pieces
  {
    hide Balanced;
    if pieces == [] {
      assert Balanced("") by { NoneIsBalanced(); }
    } else {
      NestedIsBalanced(pieces[1..]);
      match pieces[0] {
        case Plain(c) =>
          BalancedChar(c);
          BalancedConcat([c], Printed(pieces[1..]));
        case Block(inner) =>
          NestedIsBalanced(inner);
          BalancedBlock(Printed(inner));
          BalancedConcat("{" + Printed(inner) + "}", Printed(pieces[1..]));
      }
    }
  }

  lemma NoneIsBalanced()
    ensures Balanced("")
  {
  }

  /** Balanced text is exactly the text of properly nested blocks. */
  lemma {:induction false} BalancedIsNested(body: string) returns (pieces: seq<Piece>)
    requires Balanced(body)
    ensures Proper(pieces) && Printed(pieces) == body
    decreases |body|
  {
    if body == "" {
      pieces := [];
    } else if Step(body[0]) == 0 {
      DropBalanced(body, 1);
      var rest := BalancedIsNested(body[1..]);
      pieces := [Plain(body[0])] + rest;
      assert pieces[1..] == rest && body == [body[0]] + body[1..];
    } else {
      hide Balanced, Depth;
      var close := FirstBlock(body);
      var inner := BalancedIsNested(body[1..close]);
      var rest := BalancedIsNested(body[close + 1..]);
      pieces := [Block(inner)] + rest;
      assert pieces[1..] == rest;
    }
  }

  lemma FirstBlock(body: string) returns (close: nat)
    requires Balanced(body) && body != "" && Step(body[0]) != 0
    ensures 0 < close < |body| && body == "{" + body[1..close] + "}" + body[close + 1..]
    ensures Balanced(body[1..close]) && Balanced(body[close + 1..])
  {
    OpensWithBrace(body);
    assert body[0..|body|] == body && body[..|body|] == body;
    LeftOutExactly(body, 0);
    close := CloseOf(body, 0).value;
    hide Depth;
    CloseIsInRange(body, 0, close);
    ClosesExactly(body, 0, close);
    assert body[..close + 1] == body[0..close + 1];
    DropBalanced(body, close + 1);
    assert body == "{" + body[1..close] + "}" + body[close + 1..];
  }

  lemma OpensWithBrace(body: string)
    requires Balanced(body) && body != "" && Step(body[0]) != 0
    ensures body[0] == '{'
  {
    DepthOfOne(body[0]);
    assert body[..1] == [body[0]];
  }

  /** What follows a prefix of depth zero is balanced. */
  lemma DropBalanced(body: string, n: nat)
    requires Balanced(body) && n <= |body| && (Depth(body[..n]) == 0 || (n == 1 && Step(body[0]) == 0))
    ensures Balanced(body[n..])
  {
    if n == 1 {
      assert body[..1] == [body[0]];
      DepthOfOne(body[0]);
    }
    hide Depth;
    var rest := body[n..];
    assert body == body[..n] + rest;
    DepthConcat(body[..n], rest);
    forall k | 0 <= k <= |rest| ensures Depth(rest[..k]) >= 0 {
      assert body[..n + k] == body[..n] + rest[..k];
      DepthConcat(body[..n], rest[..k]);
    }
  }

  // ---------------------------------------------------------------- printing and reading back

  /** An arm printed between any two texts gives its body back exactly when the body is balanced. */
  lemma BodyReadsBack(before: string, body: string, after: string)
    ensures var text := before + "{" + body + "}" + after;
            CloseOf(text, |before|) == Some(|before| + 1 + |body|) <==> Balanced(body)
    ensures var text := before + "{" + body + "}" + after;
            (CloseOf(text, |before|).Some? && text[|before| + 1..CloseOf(text, |before|).value] == body)
                <==> Balanced(body)
  {
    hide Depth, Balanced, Closes;
    var text, open, close := before + "{" + body + "}" + after, |before|, |before| + 1 + |body|;
    assert text[open] == '{' && text[close] == '}' && text[open + 1..close] == body;
    ClosesExactly(text, open, close);
    if Balanced(body) {
      CloseIsUnique(text, open, CloseOf(text, open).value, close);
    }
    if CloseOf(text, open).Some? {
      CloseIsInRange(text, open, CloseOf(text, open).value);
    }
  }
}
