/** The dotenv reader, how a value is resolved, what is missing, and the fingerprint of a pair. */
module Credentials {
  import opened Wrappers
  import opened Text

  type Pairs = map<string, string>

  // ---------------------------------------------------------------- reading

  predicate Wrapped(value: string, quote: char) {
    |value| >= 2 && value[0] == quote && value[|value| - 1] == quote
  }

  function Unquote(value: string): string {
    if Wrapped(value, '"') || Wrapped(value, '\'') then value[1..|value| - 1] else value
  }

  function LineBinding(line: string): Option<(string, string)> {
    var stripped := Strip(line);
    if stripped == "" || stripped[0] == '#' || '=' !in stripped then None
    else
      var (name, value) := Partition(stripped, "=");
      Some((Strip(name), Unquote(Strip(value))))
  }

  function Bind(pairs: Pairs, line: string): Pairs {
    match LineBinding(line)
    case None => pairs
    case Some((name, value)) => pairs[name := value]
  }

  /** The bindings of some lines, a later line replacing an earlier one. */
  function Bindings(lines: seq<string>): Pairs {
    if lines == [] then map[] else Bind(Bindings(lines[..|lines| - 1]), lines[|lines| - 1])
  }

  function EnvPairs(text: string): Pairs {
    Bindings(SplitLines(text))
  }

  method ParseEnvPairs(text: string) returns (pairs: Pairs)
    ensures pairs == EnvPairs(text)
  {
    pairs := map[];
    var lines := SplitLines(text);
    for i := 0 to |lines|
      invariant pairs == Bindings(lines[..i])
    {
      assert lines[..i + 1][..i] == lines[..i];
      var stripped := Strip(lines[i]);
      if stripped == "" || stripped[0] == '#' || '=' !in stripped {
        continue;
      }
      var (name, value) := Partition(stripped, "=");
      pairs := pairs[Strip(name) := Unquote(Strip(value))];
    }
    assert lines[..|lines|] == lines;
  }

  // ---------------------------------------------------------------- printing

  datatype Style = Bare | Double | Single

  /** A line of a dotenv file: a binding, or a comment or blank line. */
  datatype Entry = Binding(name: string, value: string, style: Style) | Remark(text: string)

  function PrintEntry(entry: Entry): string {
    match entry
    case Remark(text) => text
    case Binding(name, value, Bare) => name + "=" + value
    case Binding(name, value, Double) => name + "=" + ("\"" + value + "\"")
    case Binding(name, value, Single) => name + "=" + ("'" + value + "'")
  }

  function PrintEntries(entries: seq<Entry>): seq<string> {
    seq(|entries|, i requires 0 <= i < |entries| => PrintEntry(entries[i]))
  }

  function Print(entries: seq<Entry>): string {
    Unlines(PrintEntries(entries))
  }

  predicate PlainName(name: string) {
    Trimmed(name) && NoBreak(name) && '=' !in name && (name != "" ==> name[0] != '#')
  }

  /** A value that survives without quotes. */
  predicate BareSafe(value: string) {
    NoBreak(value) && Trimmed(value) && !Wrapped(value, '"') && !Wrapped(value, '\'')
  }

  predicate Printable(entry: Entry) {
    match entry
    case Binding(name, value, style) => PlainName(name) && NoBreak(value) && (style == Bare ==> BareSafe(value))
    case Remark(text) => NoBreak(text) && LineBinding(text) == None
  }

  /** What a list of entries means: each name's last value. */
  function Meaning(entries: seq<Entry>): Pairs {
    if entries == [] then map[]
    else
      var before := Meaning(entries[..|entries| - 1]);
      match entries[|entries| - 1]
      case Binding(name, value, _) => before[name := value]
      case Remark(_) => before
  }

  // ---------------------------------------------------------------- printing and reading undo each other

  /** Only the right end of the value is at the end of the line. */
  lemma StripBinding(name: string, value: string)
    requires Trimmed(name)
    ensures Strip(name + "=" + value) == name + "=" + RStrip(value)
  {
    hide IsSpace;
    var line := name + "=" + value;
    EqualsIsPlain();
    assert line[|name|] == '=' && line[0] == (name + "=")[0];
    assert Lead(line) == 0;
    assert LStrip(line) == line;
    var m := |name| + 1 + Trail(value);
    assert forall i | m <= i < |line| :: line[i] == value[i - |name| - 1];
    assert line[m - 1] == if Trail(value) == 0 then '=' else value[Trail(value) - 1];
    assert Trail(line) == m;
  }

  lemma EqualsIsPlain()
    ensures !IsSpace('=') && !IsSpace('#')
  {
  }

  lemma StripRight(value: string)
    ensures Strip(RStrip(value)) == Strip(value)
  {
    hide IsSpace;
    var k, m := Lead(value), Trail(value);
    var cut := RStrip(value);
    if m == 0 {
      assert LStrip(value) == "";
    } else {
      assert k < m && Lead(cut) == k;
      assert LStrip(cut) == value[k..m] && LStrip(value) == value[k..];
      assert Trail(value[k..m]) == m - k == Trail(value[k..]);
    }
  }

  /** A line that prints a plain name and any text is read as that name and that text, stripped and
      without one layer of quotes. */
  lemma LineOfBinding(name: string, value: string)
    requires PlainName(name)
    ensures LineBinding(name + "=" + value) == Some((name, Unquote(Strip(value))))
  {
    hide IsSpace, IsBreak, Strip, RStrip, Unquote;
    StripBinding(name, value);
    var stripped := name + "=" + RStrip(value);
    assert stripped[|name|] == '=';
    assert name != "" ==> stripped[0] == name[0];
    PartitionAt(name, '=', RStrip(value));
    StripRight(value);
  }

  /** A layer of quotes is taken off whatever is between them. */
  lemma UnquoteQuoted(value: string)
    ensures Unquote(Strip("\"" + value + "\"")) == value && Unquote(Strip("'" + value + "'")) == value
  {
    var double, single := "\"" + value + "\"", "'" + value + "'";
    assert Trimmed(double) && Trimmed(single);
    assert double[1..|double| - 1] == value && single[1..|single| - 1] == value;
  }

  lemma EntryReadsBack(entry: Entry)
    requires Printable(entry)
    ensures NoBreak(PrintEntry(entry))
    ensures LineBinding(PrintEntry(entry)) == match entry
              case Binding(name, value, _) => Some((name, value))
              case Remark(_) => None
  {
    hide LineBinding, Strip, IsSpace, IsBreak;
    match entry
    case Remark(_) =>
    case Binding(name, value, Bare) =>
      LineOfBinding(name, value);
      QuotesAreNoBreak();
    case Binding(name, value, Double) =>
      LineOfBinding(name, "\"" + value + "\"");
      UnquoteQuoted(value);
      QuotesAreNoBreak();
    case Binding(name, value, Single) =>
      LineOfBinding(name, "'" + value + "'");
      UnquoteQuoted(value);
      QuotesAreNoBreak();
  }

  lemma QuotesAreNoBreak()
    ensures !IsBreak('"') && !IsBreak('\'') && !IsBreak('=')
  {
  }

  /** Reading undoes printing, whatever the mix of styles, comments and blank lines: the result is
      each name's last value, with exactly one layer of quotes taken off. */
  lemma PrintThenParse(entries: seq<Entry>)
    requires forall i | 0 <= i < |entries| :: Printable(entries[i])
    ensures EnvPairs(Print(entries)) == Meaning(entries)
  {
    forall i | 0 <= i < |entries| ensures NoBreak(PrintEntries(entries)[i]) {
      EntryReadsBack(entries[i]);
    }
    UnlinesReadBack(PrintEntries(entries));
    LinesMean(entries);
  }

  lemma {:induction false} LinesMean(entries: seq<Entry>)
    requires forall i | 0 <= i < |entries| :: Printable(entries[i])
    ensures Bindings(PrintEntries(entries)) == Meaning(entries)
  {
    if entries != [] {
      var last := |entries| - 1;
      LinesMean(entries[..last]);
      EntryReadsBack(entries[last]);
      assert PrintEntries(entries)[..last] == PrintEntries(entries[..last]);
    }
  }

  lemma {:induction false} ValuesHoldNoBreak(lines: seq<string>, name: string)
    requires EveryNoBreak(lines) && name in Bindings(lines)
    ensures NoBreak(Bindings(lines)[name])
  {
    hide LineBinding, NoBreak;
    var last := |lines| - 1;
    if name in Bindings(lines[..last]) {
      ValuesHoldNoBreak(lines[..last], name);
    }
    LineValueHoldsNoBreak(lines[last]);
  }

  lemma LineValueHoldsNoBreak(line: string)
    requires NoBreak(line)
    ensures LineBinding(line).Some? ==> NoBreak(LineBinding(line).value.1)
  {
    hide IsBreak, IsSpace;
    StripNoBreak(line);
    var stripped := Strip(line);
    var parts := Partition(stripped, "=");
    PartsAreFrom(stripped, "=");
    StripNoBreak(parts.1);
  }

  lemma PartsAreFrom(s: string, mark: string)
    ensures forall c | c in Partition(s, mark).1 :: c in s
  {
  }

  /** Quotes are needed exactly when they are: a bare value reads back as itself if and only if it
      holds no line break, has no white space at its ends and is not itself in quotes. */
  lemma BareReadsBack(name: string, value: string)
    requires PlainName(name)
    ensures EnvPairs(name + "=" + value) == map[name := value] <==> BareSafe(value)
  {
    hide LineBinding, Strip, IsSpace, IsBreak, NoBreak;
    var line := name + "=" + value;
    assert map[name := value][name] == value;
    if NoBreak(value) {
      BindingHoldsNoBreak(name, value);
      SplitLinesLast(line);
      LineOfBinding(name, value);
      assert [line][..0] == [] && Bindings([]) == map[];
      assert Bindings([line]) == Bind(Bindings([line][..0]), line);
      assert EnvPairs(line) == map[name := Unquote(Strip(value))];
      assert map[name := Unquote(Strip(value))][name] == Unquote(Strip(value));
      StripIsNoLonger(value);
    } else if EnvPairs(line) == map[name := value] {
      SplitLinesNoBreak(line);
      ValuesHoldNoBreak(SplitLines(line), name);
    }
  }

  lemma BindingHoldsNoBreak(name: string, value: string)
    requires NoBreak(name) && NoBreak(value)
    ensures NoBreak(name + "=" + value)
  {
    QuotesAreNoBreak();
    hide IsBreak;
  }

  lemma StripIsNoLonger(s: string)
    ensures |Strip(s)| <= |s| && (Strip(s) == s <==> |Strip(s)| == |s|) && (Strip(s) == s <==> Trimmed(s))
  {
  }

  // ---------------------------------------------------------------- resolving

  function TextOf(text: Option<string>): string {
    if text.Some? then text.value else ""
  }

  function Lookup(pairs: Pairs, name: string): string {
    if name in pairs then pairs[name] else ""
  }

  /** The value compose would interpolate: the shell's, if it is not blank, else the file's. */
  function EffectiveValue(name: string, envText: Option<string>, environ: Pairs): string {
    var exported := Lookup(environ, name);
    if Strip(exported) != "" then exported else Lookup(EnvPairs(TextOf(envText)), name)
  }

  /** A value exported in the shell wins unless it is blank; else it is the file's last binding of the
      name, and nothing if the file has none. */
  lemma ShellWinsOverFile(name: string, entries: seq<Entry>, environ: Pairs)
    requires forall i | 0 <= i < |entries| :: Printable(entries[i])
    ensures EffectiveValue(name, Some(Print(entries)), environ) ==
            if name in environ && !AllSpace(environ[name]) then environ[name]
            else if name in Meaning(entries) then Meaning(entries)[name]
            else ""
    ensures EffectiveValue(name, None, environ) ==
            if name in environ && !AllSpace(environ[name]) then environ[name] else ""
  {
    hide Print, Printable, EnvPairs, Meaning, Strip, AllSpace;
    PrintThenParse(entries);
    NothingIsBound();
    if name in environ {
      BlankIsStripped(environ[name]);
    }
    BlankIsStripped("");
  }

  lemma NothingIsBound()
    ensures EnvPairs("") == map[]
  {
  }

  method MissingCredentials(exampleText: string, envText: Option<string>, environ: Pairs)
    returns (missing: set<string>)
    ensures missing == Missing(exampleText, envText, environ)
    ensures forall name :: name in missing <==>
              && name in EnvPairs(exampleText)
              && !(name in environ && !AllSpace(environ[name]))
              && !(envText.Some? && name in EnvPairs(envText.value) && EnvPairs(envText.value)[name] != "")
  {
    MissingMeans(exampleText, envText, environ);
    hide EnvPairs, Strip, AllSpace;
    var required := ParseEnvPairs(exampleText);
    var pairs := ParseEnvPairs(TextOf(envText));
    var satisfied := set name | name in pairs && pairs[name] != "";
    satisfied := satisfied + set name | name in environ && Strip(environ[name]) != "";
    missing := required.Keys - satisfied;
  }

  /** The variables the example declares that resolve to nothing. */
  function Missing(exampleText: string, envText: Option<string>, environ: Pairs): set<string> {
    set name | name in EnvPairs(exampleText) && EffectiveValue(name, envText, environ) == ""
  }

  /** A declared variable is missing when the shell exports nothing but blanks for it, and the file, if there
      is one, binds it to nothing. */
  lemma MissingMeans(exampleText: string, envText: Option<string>, environ: Pairs)
    ensures forall name :: name in Missing(exampleText, envText, environ) <==>
              && name in EnvPairs(exampleText)
              && !(name in environ && !AllSpace(environ[name]))
              && !(envText.Some? && name in EnvPairs(envText.value) && EnvPairs(envText.value)[name] != "")
  {
    NothingIsBound();
    BlankIsStripped("");
    hide EnvPairs, Strip, AllSpace;
    forall name | name in environ ensures Strip(environ[name]) == "" <==> AllSpace(environ[name]) {
      BlankIsStripped(environ[name]);
    }
  }

  /** An entry that binds a name, with no later one of that name. */
  predicate BindsLast(entries: seq<Entry>, i: nat, name: string, value: string) {
    && i < |entries| && entries[i].Binding? && entries[i].name == name && entries[i].value == value
    && forall j | i < j < |entries| && entries[j].Binding? :: entries[j].name != name
  }

  /** Entries mean each name's last value, and nothing else. */
  lemma {:induction false} MeaningIsLast(entries: seq<Entry>, name: string, value: string)
    ensures name in Meaning(entries) && Meaning(entries)[name] == value <==>
            exists i: nat :: BindsLast(entries, i, name, value)
  {
    if entries != [] {
      var n := |entries| - 1;
      MeaningIsLast(entries[..n], name, value);
      if i: nat :| BindsLast(entries[..n], i, name, value) && (entries[n].Binding? ==> entries[n].name != name) {
        assert BindsLast(entries, i, name, value);
      }
      if i: nat :| BindsLast(entries, i, name, value) && i < n {
        assert BindsLast(entries[..n], i, name, value);
      }
      assert entries[n].Binding? && entries[n].name == name ==> BindsLast(entries, n, name, entries[n].value);
    }
  }

  /** The same of printed files, entry by entry. */
  lemma MissingExactly(example: seq<Entry>, env: seq<Entry>, environ: Pairs, name: string)
    requires forall i | 0 <= i < |example| :: Printable(example[i])
    requires forall i | 0 <= i < |env| :: Printable(env[i])
    ensures name in Missing(Print(example), Some(Print(env)), environ) <==>
            && (exists i :: 0 <= i < |example| && example[i].Binding? && example[i].name == name)
            && !(name in environ && exists c :: c in environ[name] && !IsSpace(c))
            && !(exists i: nat, value :: BindsLast(env, i, name, value) && value != "")
    ensures name in Missing(Print(example), None, environ) <==>
            && (exists i :: 0 <= i < |example| && example[i].Binding? && example[i].name == name)
            && !(name in environ && exists c :: c in environ[name] && !IsSpace(c))
  {
    hide Print, Printable, EnvPairs, Missing, IsSpace;
    MissingMeans(Print(example), Some(Print(env)), environ);
    MissingMeans(Print(example), None, environ);
    PrintThenParse(example);
    PrintThenParse(env);
    MeaningBinds(example, name);
    if name in Meaning(env) {
      MeaningIsLast(env, name, Meaning(env)[name]);
    }
    forall i: nat, value | BindsLast(env, i, name, value) ensures name in Meaning(env) && Meaning(env)[name] == value {
      MeaningIsLast(env, name, value);
    }
  }

  lemma {:induction false} MeaningBinds(entries: seq<Entry>, name: string)
    ensures name in Meaning(entries) <==>
            exists i :: 0 <= i < |entries| && entries[i].Binding? && entries[i].name == name
  {
    if entries != [] {
      var n := |entries| - 1;
      MeaningBinds(entries[..n], name);
      assert forall i | 0 <= i < n :: entries[..n][i] == entries[i];
      assert entries[n] == entries[n];
    }
  }

  /** A comment sign makes a line a comment, whatever else is on it. */
  lemma CommentsBindNothing(before: string, comment: string)
    requires AllSpace(before)
    ensures LineBinding(before + "#" + comment) == None
  {
    var line := before + "#" + comment;
    CommentIsStripped(before, comment);
  }

  lemma CommentIsStripped(before: string, comment: string)
    requires AllSpace(before)
    ensures Strip(before + "#" + comment) != "" && Strip(before + "#" + comment)[0] == '#'
  {
    hide IsSpace;
    EqualsIsPlain();
    var line := before + "#" + comment;
    assert line[|before|] == '#' && forall i | 0 <= i < |before| :: line[i] == before[i];
    assert Lead(line) == |before|;
    assert LStrip(line)[0] == '#';
  }

  // ---------------------------------------------------------------- the fingerprint

  type Digest = string -> string

  function Joined(salt: string, user: string, password: string): string {
    salt + ":" + user + ":" + password
  }

  function Fingerprint(hash: Digest, salt: string, user: string, password: string): string {
    hash(Joined(salt, user, password))
  }

  ghost predicate Injective(hash: Digest) {
    forall a, b | hash(a) == hash(b) :: a == b
  }

  /** A colon has moved: `user` runs on into what is the start of the other password. */
  ghost predicate ColonMoved(user: string, password: string, user': string, password': string) {
    exists middle :: user == user' + ":" + middle && password' == middle + ":" + password
  }

  /** Two pairs have one fingerprint exactly when they are the same pair or a colon has moved
      between user and password, in one direction or the other. */
  lemma FingerprintsAgree(
    hash: Digest, salt: string, user: string, password: string, user': string, password': string)
    requires Injective(hash)
    ensures Fingerprint(hash, salt, user, password) == Fingerprint(hash, salt, user', password') <==>
            || (user == user' && password == password')
            || ColonMoved(user, password, user', password')
            || ColonMoved(user', password', user, password)
  {
    var a, b := Joined(salt, user, password), Joined(salt, user', password');
    assert Fingerprint(hash, salt, user, password) == Fingerprint(hash, salt, user', password') <==> a == b;
    if a == b {
      if |user| <= |user'| {
        SplitJoin(salt, user, password, user', password');
      } else {
        SplitJoin(salt, user', password', user, password);
      }
    }
    MovedJoins(salt, user, password, user', password');
    MovedJoins(salt, user', password', user, password);
  }

  lemma SplitJoin(salt: string, user: string, password: string, user': string, password': string)
    requires Joined(salt, user, password) == Joined(salt, user', password') && |user| <= |user'|
    ensures (user == user' && password == password') || ColonMoved(user', password', user, password)
  {
    var a, b := Joined(salt, user, password), Joined(salt, user', password');
    var n := |salt| + 1;
    assert a[n..] == user + ":" + password && b[n..] == user' + ":" + password';
    assert user == a[n..][..|user|] && user' == b[n..][..|user'|];
    assert password == a[n..][|user| + 1..] && password' == b[n..][|user'| + 1..];
    if |user| < |user'| {
      var middle := user'[|user| + 1..];
      assert user' == user + ":" + middle by { assert user'[|user|] == a[n..][|user|]; }
      assert password == middle + ":" + password';
    }
  }

  lemma MovedJoins(salt: string, user: string, password: string, user': string, password': string)
    ensures ColonMoved(user, password, user', password') ==>
              Joined(salt, user, password) == Joined(salt, user', password')
  {
    if middle :| user == user' + ":" + middle && password' == middle + ":" + password {
      assert Joined(salt, user, password) == salt + ":" + user' + ":" + middle + ":" + password;
    }
  }

  /** For users without a colon the fingerprint tells pairs apart. */
  lemma ColonFreeUsersAreTold(
    hash: Digest, salt: string, user: string, password: string, user': string, password': string)
    requires Injective(hash) && ':' !in user && ':' !in user'
    ensures Fingerprint(hash, salt, user, password) == Fingerprint(hash, salt, user', password')
       <==> user == user' && password == password'
  {
    FingerprintsAgree(hash, salt, user, password, user', password');
    assert forall middle :: (user' + ":" + middle)[|user'|] == ':' && (user + ":" + middle)[|user|] == ':';
  }

  lemma CollisionWitness(hash: Digest, salt: string)
    ensures Fingerprint(hash, salt, "a:b", "c") == Fingerprint(hash, salt, "a", "b:c")
  {
    assert Joined(salt, "a:b", "c") == salt + ":a:b:c" == Joined(salt, "a", "b:c");
  }
}
