/** The reduction of an SPDX document to a sorted list of `name==version` lines, and back. */
module Inventory {
  import opened Wrappers
  import opened Text
  import opened Ordering
  import opened Json

  const NO_VERSION := "NOASSERTION"
  const SEPARATOR := "=="
  const DESCRIBES := "DESCRIBES"

  datatype Fault = NotAnObject | NoName | CarriesSeparator | UnhashableId

  datatype Error = NotADocument | NoPackagesKey | NoPackages | BadPackage(index: nat, fault: Fault) | OnlyTheSubject

  // ---------------------------------------------------------------- the subject

  predicate Describes(relationship: Value) {
    && relationship.Object?
    && Get(relationship.members, "relationshipType") == String(DESCRIBES)
    && Get(relationship.members, "relatedSpdxElement").String?
  }

  function ItemsOf(value: Value): seq<Value> {
    if value.List? then value.items else []
  }

  /** What the document is about, in either spelling. */
  function Described(document: map<string, Value>): set<string> {
    StringsIn(ItemsOf(Get(document, "documentDescribes")))
    + set relationship | relationship in ItemsOf(Get(document, "relationships")) && Describes(relationship) ::
        Get(relationship.members, "relatedSpdxElement").text
  }

  method DescribedIds(document: map<string, Value>) returns (found: set<string>)
    ensures found == Described(document)
    ensures forall id :: id in found <==>
              || (exists items :: Get(document, "documentDescribes") == List(items) && String(id) in items)
              || (exists items :: Get(document, "relationships") == List(items) && IsRelated(items, id))
  {
    found := {};
    var describes := Get(document, "documentDescribes");
    if describes.List? {
      found := StringsIn(describes.items);
    }
    var spelled := found;
    var relationships := Get(document, "relationships");
    if relationships.List? {
      var items := relationships.items;
      for i := 0 to |items|
        invariant found == spelled + set r | r in items[..i] && Describes(r) ::
                    Get(r.members, "relatedSpdxElement").text
      {
        var relationship := items[i];
        assert items[..i + 1] == items[..i] + [relationship];
        if !relationship.Object? || Get(relationship.members, "relationshipType") != String(DESCRIBES) {
          continue;
        }
        var related := Get(relationship.members, "relatedSpdxElement");
        if related.String? {
          found := found + {related.text};
        }
      }
      assert items[..|items|] == items;
    }
  }

  /** An identifier is the subject's when the document says so in one of the two spellings, and in no
      other way. */
  lemma SubjectExactly(document: map<string, Value>, id: string)
    ensures id in Described(document) <==>
            || (exists items :: Get(document, "documentDescribes") == List(items) && String(id) in items)
            || (exists items :: Get(document, "relationships") == List(items) && IsRelated(items, id))
  {
    var listed, related := Get(document, "documentDescribes"), Get(document, "relationships");
    if listed.List? {
      assert listed == List(listed.items);
      assert String(id) in listed.items <==> id in StringsIn(listed.items);
    }
    if related.List? {
      assert related == List(related.items);
    }
  }

  /** As the document writes it. */
  ghost predicate IsRelated(relationships: seq<Value>, id: string) {
    exists relationship ::
      && relationship in relationships && relationship.Object?
      && Get(relationship.members, "relationshipType") == String("DESCRIBES")
      && Get(relationship.members, "relatedSpdxElement") == String(id)
  }

  // ---------------------------------------------------------------- one package

  datatype Outcome = Subject | Line(text: string) | Refused(fault: Fault)

  function LineOf(name: string, version: string): string {
    name + SEPARATOR + version
  }

  /** The version a package is listed with: its own, or the note that it has none. */
  function VersionOf(members: map<string, Value>): string {
    var version := Get(members, "versionInfo");
    if version.String? && version.text != "" then version.text else NO_VERSION
  }

  /** The guard on a line: neither half holds the separator. */
  predicate Guarded(name: string, version: string) {
    !Occurs(name, SEPARATOR) && !Occurs(version, SEPARATOR)
  }

  /** An identifier that cannot be looked up in a set makes the lookup raise. */
  function Reduce(entry: Value, described: set<string>): Outcome {
    if !entry.Object? then Refused(NotAnObject)
    else
      var id, name := Get(entry.members, "SPDXID"), Get(entry.members, "name");
      if id.List? || id.Object? then Refused(UnhashableId)
      else if id.String? && id.text in described then Subject
      else if !name.String? || name.text == "" then Refused(NoName)
      else if !Guarded(name.text, VersionOf(entry.members)) then Refused(CarriesSeparator)
      else Line(LineOf(name.text, VersionOf(entry.members)))
  }

  // ---------------------------------------------------------------- the reduction

  function Packages(document: Value): Result<seq<Value>, Error> {
    if !document.Object? then Err(NotADocument)
    else match Get(document.members, "packages")
      case Null => Err(NoPackagesKey)
      case List(items) => if items == [] then Err(NoPackages) else Ok(items)
      case _ => Err(NoPackages)
  }

  /** The packages of a document are its list of them, all of it. */
  lemma PackagesAreTheList(document: Value, items: seq<Value>)
    ensures Packages(document) == Ok(items) <==>
            && document.Object? && "packages" in document.members && document.members["packages"] == List(items)
            && items != []
  {
  }

  /** The index of the first package that is refused, or the number of packages. */
  function FirstRefused(entries: seq<Value>, described: set<string>): (n: nat)
    ensures n <= |entries| && (forall i | 0 <= i < n :: !Reduce(entries[i], described).Refused?)
    ensures n < |entries| ==> Reduce(entries[n], described).Refused?
  {
    if entries == [] || Reduce(entries[0], described).Refused? then 0 else 1 + FirstRefused(entries[1..], described)
  }

  function LinesOf(entries: seq<Value>, described: set<string>): set<string> {
    set entry | entry in entries && Reduce(entry, described).Line? :: Reduce(entry, described).text
  }

  ghost function Inventoried(document: Value): Result<seq<string>, Error> {
    match Packages(document)
    case Err(error) => Err(error)
    case Ok(entries) =>
      var described := Described(document.members);
      var bad := FirstRefused(entries, described);
      if bad < |entries| then Err(BadPackage(bad, Reduce(entries[bad], described).fault))
      else if LinesOf(entries, described) == {} then Err(OnlyTheSubject)
      else Ok(SortedOf(LinesOf(entries, described)))
  }

  method Inventory(document: Value) returns (r: Result<seq<string>, Error>)
    ensures r == Inventoried(document)
  {
    var packages := Packages(document);
    if packages.Err? {
      return Err(packages.error);
    }
    var described := DescribedIds(document.members);
    var lines := ReduceAll(packages.value, described);
    if lines.Err? {
      return Err(lines.error);
    }
    if lines.value == {} {
      return Err(OnlyTheSubject);
    }
    var list := Sorted(lines.value);
    r := Ok(list);
  }

  /** The loop over the packages: every line, or the first package that is refused. */
  method ReduceAll(entries: seq<Value>, described: set<string>) returns (r: Result<set<string>, Error>)
    ensures var bad := FirstRefused(entries, described);
            r == if bad < |entries| then Err(BadPackage(bad, Reduce(entries[bad], described).fault))
                 else Ok(LinesOf(entries, described))
  {
    hide Reduce;
    var lines: set<string> := {};
    for index := 0 to |entries|
      invariant lines == LinesOf(entries[..index], described)
      invariant forall i | 0 <= i < index :: !Reduce(entries[i], described).Refused?
    {
      assert entries[..index + 1] == entries[..index] + [entries[index]];
      match Reduce(entries[index], described)
      case Refused(fault) => return Err(BadPackage(index, fault));
      case Subject => continue;
      case Line(text) => lines := lines + {text};
    }
    assert entries[..|entries|] == entries;
    r := Ok(lines);
  }

  // ---------------------------------------------------------------- what the inventory holds

  /** A package's version as it declares it, or NOASSERTION when it declares none. */
  ghost predicate CarriesVersion(members: map<string, Value>, version: string) {
    var declared := Get(members, "versionInfo");
    if declared.String? && declared.text != "" then declared == String(version) else version == "NOASSERTION"
  }

  /** A package that is not the document's subject, by name and by listed version. */
  ghost predicate Lists(document: Value, name: string, version: string) {
    && Packages(document).Ok?
    && exists entry :: entry in Packages(document).value && entry.Object?
         && Get(entry.members, "name") == String(name) && CarriesVersion(entry.members, version)
         && !(Get(entry.members, "SPDXID").String? && Get(entry.members, "SPDXID").text in Described(document.members))
  }

  /** An inventory is strictly increasing, so sorted and without repeats, and its lines are those of
      the packages that are not the subject, none left out and none added. */
  lemma InventoryIsExact(document: Value)
    requires Inventoried(document).Ok?
    ensures var lines := Inventoried(document).value;
            && Increasing(lines) && lines != []
            && (forall name, version | Lists(document, name, version) :: name + "==" + version in lines)
            && (forall line | line in lines ::
                  exists name, version ::
                    Lists(document, name, version) && Guarded(name, version) && line == name + "==" + version)
  {
    hide Guarded, Described;
    var entries, described := Packages(document).value, Described(document.members);
    var lines := Inventoried(document).value;
    assert Elements(lines) == LinesOf(entries, described);
    forall line | line in lines
      ensures exists name, version ::
                Lists(document, name, version) && Guarded(name, version) && line == name + "==" + version
    {
      assert line in Elements(lines);
      var entry :| entry in entries && Reduce(entry, described).Line? && Reduce(entry, described).text == line;
      var name, version := Get(entry.members, "name").text, VersionOf(entry.members);
      assert Lists(document, name, version);
    }
    forall name, version | Lists(document, name, version) ensures name + "==" + version in lines {
      ListedIsALine(document, name, version);
    }
  }

  lemma ListedIsALine(document: Value, name: string, version: string)
    requires Inventoried(document).Ok? && Lists(document, name, version)
    ensures LineOf(name, version) in Elements(Inventoried(document).value) && Guarded(name, version)
  {
    hide Guarded, Described;
    var entries, described := Packages(document).value, Described(document.members);
    var entry :| entry in entries && entry.Object?
      && Get(entry.members, "name") == String(name) && CarriesVersion(entry.members, version)
      && !(Get(entry.members, "SPDXID").String? && Get(entry.members, "SPDXID").text in described);
    var i :| 0 <= i < |entries| && entries[i] == entry;
    assert !Reduce(entries[i], described).Refused?;
    assert Reduce(entry, described) == Line(LineOf(name, version));
  }

  /** Only the two spellings of the subject leave a package out: one that nothing but other relationships
      name is listed. */
  lemma OthersAreListed(document: map<string, Value>, entry: Value, id: string, name: string, version: string)
    requires Inventoried(Object(document)).Ok? && entry in Packages(Object(document)).value && entry.Object?
    requires Get(entry.members, "SPDXID") == String(id) && Get(entry.members, "name") == String(name)
    requires CarriesVersion(entry.members, version)
    requires forall items | Get(document, "documentDescribes") == List(items) :: String(id) !in items
    requires forall items | Get(document, "relationships") == List(items) :: !IsRelated(items, id)
    ensures name + "==" + version in Inventoried(Object(document)).value
  {
    hide Described;
    SubjectExactly(document, id);
    hide IsRelated;
    ListedIsALine(Object(document), name, version);
  }

  /** A package can be contained in another without being what the document is about. */
  lemma ContainedIsListed(id: string)
    ensures var package := Object(map["SPDXID" := String(id), "name" := String("a"), "versionInfo" := String("1")]);
            var relationship := Object(
              map["relationshipType" := String("CONTAINS"), "relatedSpdxElement" := String(id)]);
            Inventoried(Object(map["packages" := List([package]), "relationships" := List([relationship])]))
            == Ok(["a==1"])
  {
    var package := Object(map["SPDXID" := String(id), "name" := String("a"), "versionInfo" := String("1")]);
    var relationship := Object(map["relationshipType" := String("CONTAINS"), "relatedSpdxElement" := String(id)]);
    var document := map["packages" := List([package]), "relationships" := List([relationship])];
    assert id !in Described(document);
    assert LinesOf([package], Described(document)) == {"a==1"} && FirstRefused([package], Described(document)) == 1 by {
      hide Described;
      OnePackageIsALine(package, id, Described(document));
    }
    hide Described, LinesOf, Reduce, FirstRefused;
    SortedIsUnique(["a==1"], SortedOf({"a==1"}));
  }

  lemma OnePackageIsALine(package: Value, id: string, described: set<string>)
    requires package == Object(map["SPDXID" := String(id), "name" := String("a"), "versionInfo" := String("1")])
    requires id !in described
    ensures LinesOf([package], described) == {"a==1"} && FirstRefused([package], described) == 1
  {
    PlainIsGuarded("a");
    PlainIsGuarded("1");
    assert Reduce(package, described) == Line("a==1");
    hide Reduce;
    assert [package][1..] == [] && FirstRefused([], described) == 0;
  }

  lemma PlainIsGuarded(s: string)
    requires |s| == 1
    ensures !Occurs(s, SEPARATOR)
  {
  }

  /** A package that can be listed: its identifier can be looked up, and it is named, and fit for a line that
      can be split. */
  ghost predicate Fit(entry: Value) {
    && entry.Object?
    && !Get(entry.members, "SPDXID").List? && !Get(entry.members, "SPDXID").Object?
    && Get(entry.members, "name").String? && Get(entry.members, "name").text != ""
    && forall version | CarriesVersion(entry.members, version) :: Guarded(Get(entry.members, "name").text, version)
  }

  ghost predicate IsSubject(document: map<string, Value>, entry: Value) {
    entry.Object? && Get(entry.members, "SPDXID").String? && Get(entry.members, "SPDXID").text in Described(document)
  }

  /** When there is an inventory at all: some package is not the subject, and all such can be listed. */
  lemma InventoriedExactly(document: Value)
    requires Packages(document).Ok?
    ensures Inventoried(document).Ok? <==>
            && (exists entry :: entry in Packages(document).value && !IsSubject(document.members, entry))
            && (forall entry | entry in Packages(document).value :: IsSubject(document.members, entry) || Fit(entry))
  {
    hide Guarded, Described;
    var entries, described := Packages(document).value, Described(document.members);
    forall i | 0 <= i < |entries|
      ensures Reduce(entries[i], described).Subject? <==> IsSubject(document.members, entries[i])
      ensures Reduce(entries[i], described).Line? <==> !IsSubject(document.members, entries[i]) && Fit(entries[i])
    {
      FitIsALine(document.members, entries[i]);
    }
    hide Reduce, Fit, IsSubject;
    assert LinesOf(entries, described) != {} <==>
        exists i :: 0 <= i < |entries| && Reduce(entries[i], described).Line? by {
      LinesComeFromPackages(entries, described);
    }
  }

  /** When there is none: every package is the subject, or the first that is neither that nor listed is
      named by its place. */
  lemma FirstPackageIsRefused(document: Value, items: seq<Value>)
    requires Packages(document) == Ok(items) && Inventoried(document).Err?
    ensures || (Inventoried(document) == Err(OnlyTheSubject)
                && forall i | 0 <= i < |items| :: IsSubject(document.members, items[i]))
            || (exists n, fault | 0 <= n < |items| ::
                  && Inventoried(document) == Err(BadPackage(n, fault))
                  && !IsSubject(document.members, items[n]) && !Fit(items[n])
                  && forall i | 0 <= i < n :: IsSubject(document.members, items[i]) || Fit(items[i]))
  {
    hide Guarded, Described;
    var described := Described(document.members);
    forall i | 0 <= i < |items|
      ensures Reduce(items[i], described).Subject? <==> IsSubject(document.members, items[i])
      ensures Reduce(items[i], described).Line? <==> !IsSubject(document.members, items[i]) && Fit(items[i])
    {
      FitIsALine(document.members, items[i]);
    }
    hide Reduce, Fit, IsSubject;
    LinesComeFromPackages(items, described);
    var bad := FirstRefused(items, described);
    if bad < |items| {
      assert Inventoried(document) == Err(BadPackage(bad, Reduce(items[bad], described).fault));
    }
  }

  lemma LinesComeFromPackages(entries: seq<Value>, described: set<string>)
    ensures LinesOf(entries, described) != {} <==> exists i :: 0 <= i < |entries| && Reduce(entries[i], described).Line?
  {
    hide Reduce;
    if i :| 0 <= i < |entries| && Reduce(entries[i], described).Line? {
      assert Reduce(entries[i], described).text in LinesOf(entries, described);
    }
    if LinesOf(entries, described) != {} {
      var line :| line in LinesOf(entries, described);
    }
  }

  lemma FitIsALine(document: map<string, Value>, entry: Value)
    ensures Reduce(entry, Described(document)).Subject? <==> IsSubject(document, entry)
    ensures Reduce(entry, Described(document)).Line? <==> !IsSubject(document, entry) && Fit(entry)
  {
    hide Guarded, Described;
    if entry.Object? {
      assert CarriesVersion(entry.members, VersionOf(entry.members));
    }
  }

  /** Success and output depend on the packages only as a set, and on the subject only as a set of
      identifiers: order, repeats and the spelling of the subject make no difference. */
  lemma InventoryIsCanonical(a: Value, b: Value)
    requires Packages(a).Ok? && Packages(b).Ok?
    requires forall entry :: entry in Packages(a).value <==> entry in Packages(b).value
    requires Described(a.members) == Described(b.members)
    ensures Inventoried(a).Ok? <==> Inventoried(b).Ok?
    ensures Inventoried(a).Ok? ==> Inventoried(a) == Inventoried(b)
  {
    var described := Described(a.members);
    SameEntries(Packages(a).value, Packages(b).value, described);
  }

  lemma SameEntries(a: seq<Value>, b: seq<Value>, described: set<string>)
    requires forall entry :: entry in a <==> entry in b
    ensures LinesOf(a, described) == LinesOf(b, described)
    ensures FirstRefused(a, described) == |a| <==> FirstRefused(b, described) == |b|
  {
    hide Reduce;
    OneWay(a, b, described);
    OneWay(b, a, described);
  }

  lemma OneWay(a: seq<Value>, b: seq<Value>, described: set<string>)
    requires forall entry | entry in b :: entry in a
    ensures FirstRefused(a, described) == |a| ==> FirstRefused(b, described) == |b|
  {
    hide Reduce;
    var n := FirstRefused(b, described);
    if n < |b| {
      assert b[n] in a;
    }
  }

  function Relationship(id: string): Value {
    Object(map["relationshipType" := String(DESCRIBES), "relatedSpdxElement" := String(id)])
  }

  /** The two spellings of the subject are one: a list of identifiers under `documentDescribes` and
      one DESCRIBES relationship for each of them describe the same set. */
  lemma SpellingsAgree(document: map<string, Value>, ids: seq<string>)
    requires "documentDescribes" !in document && "relationships" !in document
    ensures Described(document["documentDescribes" := List(seq(|ids|, i requires 0 <= i < |ids| => String(ids[i])))])
         == Described(document["relationships" := List(seq(|ids|, i requires 0 <= i < |ids| => Relationship(ids[i])))])
         == Elements(ids)
  {
    var strings := seq(|ids|, i requires 0 <= i < |ids| => String(ids[i]));
    var relationships := seq(|ids|, i requires 0 <= i < |ids| => Relationship(ids[i]));
    forall id | id in ids
      ensures id in StringsIn(strings)
      ensures exists r :: r in relationships && Describes(r) && Get(r.members, "relatedSpdxElement").text == id
    {
      var i :| 0 <= i < |ids| && ids[i] == id;
      assert strings[i] in strings && relationships[i] in relationships;
      assert Describes(relationships[i]);
    }
    var a := document["documentDescribes" := List(strings)];
    var b := document["relationships" := List(relationships)];
    assert Described(a) == Elements(ids);
    assert Described(b) == Elements(ids);
  }

  // ---------------------------------------------------------------- the line codec

  /** Splitting at the first separator. */
  function SplitLine(line: string): (string, string) {
    Partition(line, SEPARATOR)
  }

  predicate EndsInEquals(name: string) {
    name != "" && name[|name| - 1] == '='
  }

  predicate DoubleEquals(s: string) {
    exists i | 0 <= i < |s| - 1 :: s[i] == '=' && s[i + 1] == '='
  }

  /** The guard passes two texts without two equals signs in a row, and no others. */
  lemma GuardedExactly(name: string, version: string)
    ensures Guarded(name, version) <==> !DoubleEquals(name) && !DoubleEquals(version)
  {
    SeparatorIsDoubleEquals(name);
    SeparatorIsDoubleEquals(version);
  }

  lemma SeparatorIsDoubleEquals(s: string)
    ensures Occurs(s, SEPARATOR) <==> DoubleEquals(s)
  {
    forall i | 0 <= i < |s| - 1 ensures OccursAt(s, SEPARATOR, i) <==> s[i] == '=' && s[i + 1] == '=' {
      assert s[i..i + 2] == [s[i], s[i + 1]];
    }
    if Occurs(s, SEPARATOR) {
      var i :| 0 <= i <= |s| && OccursAt(s, SEPARATOR, i);
      assert s[i] == '=' && s[i + 1] == '=';
    }
  }

  /** The exact reach of the guard: splitting a guarded line gives the pair back if and only if the
      name does not end in an equals sign. */
  lemma SplitRecovers(name: string, version: string)
    requires Guarded(name, version)
    ensures SplitLine(LineOf(name, version)) == (name, version) <==> !EndsInEquals(name)
  {
    var line := LineOf(name, version);
    assert OccursAt(line, SEPARATOR, |name|);
    assert line[..|name|] == name && line[|name| + 2..] == version;
    if EndsInEquals(name) {
      assert line[|name| - 1..|name| + 1] == SEPARATOR;
      assert OccursAt(line, SEPARATOR, |name| - 1);
    } else {
      forall i | 0 <= i < |name| ensures !OccursAt(line, SEPARATOR, i) {
        if i + 1 < |name| {
          assert name[i..i + 2] == line[i..i + 2] && !OccursAt(name, SEPARATOR, i);
        } else {
          assert line[i..i + 2][0] == name[i];
        }
      }
    }
  }

  /** Two guarded pairs share a line exactly when they are one pair, or an equals sign has moved
      from the end of one name to the start of the other version. */
  lemma LinesCollide(name: string, version: string, name': string, version': string)
    requires Guarded(name, version) && Guarded(name', version')
    ensures LineOf(name, version) == LineOf(name', version') <==>
            || (name == name' && version == version')
            || (name == name' + "=" && version' == "=" + version)
            || (name' == name + "=" && version == "=" + version')
  {
    var a, b := LineOf(name, version), LineOf(name', version');
    if a == b {
      if |name| <= |name'| {
        ShorterName(name, version, name', version');
      } else {
        ShorterName(name', version', name, version);
      }
    }
    assert (name' + "=") + "==" + version == name' + "==" + ("=" + version);
    assert (name + "=") + "==" + version' == name + "==" + ("=" + version');
  }

  lemma ShorterName(name: string, version: string, name': string, version': string)
    requires Guarded(name, version) && Guarded(name', version') && |name| <= |name'|
    requires LineOf(name, version) == LineOf(name', version')
    ensures (name == name' && version == version') || (name' == name + "=" && version == "=" + version')
  {
    var line := LineOf(name, version);
    var n, n' := |name|, |name'|;
    assert line[..n] == name && line[..n'] == name';
    assert line[n + 2..] == version && line[n' + 2..] == version';
    assert line[n] == '=' && line[n + 1] == '=' && line[n'] == '=';
    if n + 2 <= n' {
      assert name'[n..n + 2] == line[n..n + 2] == SEPARATOR;
      assert OccursAt(name', SEPARATOR, n);
    } else if n < n' {
      assert name' == name + [line[n]];
      assert version == [line[n + 2]] + version';
    }
  }

  lemma GuardAloneIsNotInjective()
    ensures Guarded("a=", "b") && Guarded("a", "=b") && LineOf("a=", "b") == LineOf("a", "=b")
  {
    ShortHasNoSeparator("a=", '=');
    ShortHasNoSeparator("=b", 'b');
    assert LineOf("a=", "b") == "a===b" == LineOf("a", "=b");
  }

  lemma ShortHasNoSeparator(s: string, last: char)
    requires |s| == 2 && s[1] == last && (s[0] != '=' || last != '=')
    ensures !Occurs(s, SEPARATOR) && !Occurs([s[0]], SEPARATOR) && !Occurs([s[1]], SEPARATOR)
  {
    forall i | 0 <= i <= |s| ensures !OccursAt(s, SEPARATOR, i) {
      if i == 0 {
        assert s[0..2][0] == s[0] && s[0..2][1] == s[1];
      }
    }
  }

  // ---------------------------------------------------------------- the file

  function FileText(lines: seq<string>): string {
    Join(lines, "\n") + "\n"
  }

  /** The written inventory reads back, line for line, exactly when no line holds a line break. */
  lemma FileReadsBack(lines: seq<string>)
    requires lines != []
    ensures SplitLines(FileText(lines)) == lines <==> EveryNoBreak(lines)
  {
    JoinIsUnlines(lines);
    UnlinesReadBack(lines);
  }

  /** A document none of whose fields holds a line break or a name ending in an equals sign loses
      nothing: the packages can be read back out of the written file. */
  lemma PackagesReadBack(document: Value)
    requires Inventoried(document).Ok?
    requires forall name, version | Lists(document, name, version) ::
               NoBreak(name) && NoBreak(version) && !EndsInEquals(name)
    ensures var lines := SplitLines(FileText(Inventoried(document).value));
            && (forall i | 0 <= i < |lines| :: Lists(document, SplitLine(lines[i]).0, SplitLine(lines[i]).1))
            && (forall name, version | Lists(document, name, version) ::
                  exists i :: 0 <= i < |lines| && SplitLine(lines[i]) == (name, version))
  {
    hide Lists, Inventoried, NoBreak, Guarded, Partition, SplitLine, EndsInEquals, FileText, SplitLines;
    var lines := Inventoried(document).value;
    InventoryIsExact(document);
    forall i | 0 <= i < |lines|
      ensures NoBreak(lines[i]) && Lists(document, SplitLine(lines[i]).0, SplitLine(lines[i]).1)
    {
      assert lines[i] in lines;
      var name, version :|
        Lists(document, name, version) && Guarded(name, version) && lines[i] == LineOf(name, version);
      SplitRecovers(name, version);
      LineHoldsNoBreak(name, version);
    }
    FileReadsBack(lines);
    forall name, version | Lists(document, name, version)
      ensures exists i :: 0 <= i < |lines| && SplitLine(lines[i]) == (name, version)
    {
      ListedLineSplits(document, lines, name, version);
    }
  }

  lemma ListedLineSplits(document: Value, lines: seq<string>, name: string, version: string)
    requires Inventoried(document) == Ok(lines) && Lists(document, name, version) && !EndsInEquals(name)
    ensures exists i :: 0 <= i < |lines| && SplitLine(lines[i]) == (name, version)
  {
    hide Lists, Inventoried, SplitLine, Partition, EndsInEquals, LineOf, Guarded;
    ListedIsALine(document, name, version);
    var i :| 0 <= i < |lines| && lines[i] == LineOf(name, version);
    SplitRecovers(name, version);
  }

  lemma LineHoldsNoBreak(name: string, version: string)
    requires NoBreak(name) && NoBreak(version)
    ensures NoBreak(LineOf(name, version))
  {
  }
}
