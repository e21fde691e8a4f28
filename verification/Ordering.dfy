/** Python's order on strings, and `sorted` over a set: the one strictly increasing list of its
    elements. */
module Ordering {
  predicate Less(a: string, b: string) {
    b != "" && (a == "" || a[0] < b[0] || (a[0] == b[0] && Less(a[1..], b[1..])))
  }

  lemma {:induction false} LessIsTotal(a: string, b: string)
    ensures Less(a, b) || Less(b, a) || a == b
    ensures !(Less(a, b) && Less(b, a)) && !Less(a, a)
  {
    if a != "" {
      LessIsTotal(a[1..], a[1..]);
    }
    if a != "" && b != "" {
      LessIsTotal(a[1..], b[1..]);
      if a[0] == b[0] && a[1..] == b[1..] {
        assert a == [a[0]] + a[1..] && b == [b[0]] + b[1..];
      }
    }
  }

  /** A text comes before every text it begins; and where two texts first differ, the smaller character
      decides, whatever follows. */
  lemma {:induction false} LessIsByCharacter(prefix: string, c: char, x: string, d: char, y: string)
    ensures Less(prefix, prefix + [c] + x)
    ensures c < d ==> Less(prefix + [c] + x, prefix + [d] + y)
  {
    if prefix == "" {
      assert prefix + [c] + x == [c] + x && prefix + [d] + y == [d] + y;
    } else {
      LessIsByCharacter(prefix[1..], c, x, d, y);
      assert (prefix + [c] + x)[1..] == prefix[1..] + [c] + x;
      assert (prefix + [d] + y)[1..] == prefix[1..] + [d] + y;
    }
  }

  lemma {:induction false} LessIsTransitive(a: string, b: string, c: string)
    requires Less(a, b) && Less(b, c)
    ensures Less(a, c)
  {
    if a != "" && a[0] == b[0] == c[0] {
      LessIsTransitive(a[1..], b[1..], c[1..]);
    }
  }

  ghost predicate Increasing(names: seq<string>) {
    forall i, j | 0 <= i < j < |names| :: Less(names[i], names[j])
  }

  function Elements(names: seq<string>): set<string> {
    set name | name in names
  }

  /** `name` put where it belongs in an increasing list; a name already there is not repeated. */
  function Insert(name: string, names: seq<string>): seq<string> {
    if names == [] then [name]
    else if name == names[0] then names
    else if Less(name, names[0]) then [name] + names
    else [names[0]] + Insert(name, names[1..])
  }

  lemma ConsIncreasing(head: string, tail: seq<string>)
    requires Increasing(tail) && forall name | name in tail :: Less(head, name)
    ensures Increasing([head] + tail)
  {
    var list := [head] + tail;
    forall i, j | 0 <= i < j < |list| ensures Less(list[i], list[j]) {
      assert list[j] == tail[j - 1];
      assert i > 0 ==> list[i] == tail[i - 1];
    }
  }

  lemma HeadIsLeast(names: seq<string>, name: string)
    requires Increasing(names) && name in names
    ensures name == names[0] || Less(names[0], name)
  {
    var i :| 0 <= i < |names| && names[i] == name;
  }

  lemma {:induction false} InsertInOrder(name: string, names: seq<string>)
    requires Increasing(names)
    ensures Increasing(Insert(name, names))
    ensures Elements(Insert(name, names)) == Elements(names) + {name}
  {
    if names != [] && name != names[0] {
      hide Less;
      var rest := names[1..];
      assert names == [names[0]] + rest;
      if Less(name, names[0]) {
        forall other | other in names ensures Less(name, other) {
          HeadIsLeast(names, other);
          if other != names[0] {
            LessIsTransitive(name, names[0], other);
          }
        }
        ConsIncreasing(name, names);
      } else {
        LessIsTotal(name, names[0]);
        InsertInOrder(name, rest);
        InsertAfterHead(name, names);
      }
    }
  }

  lemma InsertAfterHead(name: string, names: seq<string>)
    requires names != [] && Increasing(names) && Less(names[0], name)
    requires Increasing(Insert(name, names[1..]))
    requires Elements(Insert(name, names[1..])) == Elements(names[1..]) + {name}
    ensures Increasing([names[0]] + Insert(name, names[1..]))
    ensures Elements([names[0]] + Insert(name, names[1..])) == Elements(names) + {name}
  {
    hide Less, Insert;
    var inner := Insert(name, names[1..]);
    forall other | other in inner ensures Less(names[0], other) {
      assert other in Elements(inner);
      if other != name {
        var i :| 0 <= i < |names[1..]| && names[1..][i] == other;
        assert names[i + 1] == other;
      }
    }
    ConsIncreasing(names[0], inner);
    var all := [names[0]] + inner;
    assert names == [names[0]] + names[1..];
    assert forall other :: other in all <==> other == names[0] || other in Elements(inner);
  }

  /** The sorted list of a set. */
  ghost function SortedOf(names: set<string>): (list: seq<string>)
    ensures Increasing(list) && Elements(list) == names
  {
    if names == {} then []
    else
      var name :| name in names;
      var rest := SortedOf(names - {name});
      InsertInOrder(name, rest);
      Insert(name, rest)
  }

  /** There is only one: an increasing list is determined by its elements. */
  lemma {:induction false} SortedIsUnique(a: seq<string>, b: seq<string>)
    requires Increasing(a) && Increasing(b) && Elements(a) == Elements(b)
    ensures a == b
  {
    NoElements(a);
    NoElements(b);
    if a != [] {
      HeadsAgree(a, b);
      TailElements(a);
      TailElements(b);
      SortedIsUnique(a[1..], b[1..]);
      assert a == [a[0]] + a[1..] && b == [b[0]] + b[1..];
    }
  }

  lemma NoElements(names: seq<string>)
    ensures Elements(names) == {} <==> names == []
  {
    if names != [] {
      assert names[0] in Elements(names);
    }
  }

  lemma HeadsAgree(a: seq<string>, b: seq<string>)
    requires Increasing(a) && Increasing(b) && Elements(a) == Elements(b) && a != [] && b != []
    ensures a[0] == b[0]
  {
    assert a[0] in Elements(b) && b[0] in Elements(a);
    HeadIsLeast(a, b[0]);
    HeadIsLeast(b, a[0]);
    LessIsTotal(a[0], b[0]);
  }

  lemma TailElements(names: seq<string>)
    requires Increasing(names) && names != []
    ensures Elements(names[1..]) == Elements(names) - {names[0]} && Increasing(names[1..])
  {
    LessIsTotal(names[0], names[0]);
    forall name | name in Elements(names) && name != names[0] ensures name in names[1..] {
      var i :| 0 <= i < |names| && names[i] == name;
      assert names[1..][i - 1] == name;
    }
  }

  method Sorted(names: set<string>) returns (list: seq<string>)
    ensures list == SortedOf(names)
    ensures forall i, j | 0 <= i < j < |list| :: Less(list[i], list[j])
    ensures forall name :: name in list <==> name in names
  {
    list := [];
    var pending := names;
    while pending != {}
      invariant pending <= names
      invariant Increasing(list) && Elements(list) == names - pending
    {
      var name :| name in pending;
      InsertInOrder(name, list);
      list := Insert(name, list);
      pending := pending - {name};
    }
    SortedIsUnique(list, SortedOf(names));
    assert forall name :: name in list <==> name in Elements(list);
  }
}
