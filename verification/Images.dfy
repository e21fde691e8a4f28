/** The images to catalogue: every service's image, and the base of everything that is built. Beside
    it the second, independent reader of the same file, and when the two agree. */
module Images {
  import opened Wrappers
  import opened Text
  import opened Ordering
  import opened Json

  datatype Service = Service(name: string, body: Value)

  /** The compose file: not a mapping, or one with the services in the order they are written, if
      there is a mapping of services at all. */
  datatype Document = Other | Mapping(services: Option<seq<Service>>)

  /** The text of the Dockerfile in each build context that has one. */
  type Dockerfiles = map<string, string>

  datatype Problem =
    | NotAMapping
    | NoServices
    | ServiceNotAMapping(service: string)
    | NoImage(service: string)
    | ImageNotAString(service: string)
    | NoContext
    | Unreadable(context: string)
    | NoBase(context: string)

  function ServicesOf(document: Document): Result<seq<Service>, Problem> {
    match document
    case Other => Err(NotAMapping)
    case Mapping(None) => Err(NoServices)
    case Mapping(Some(services)) => if services == [] then Err(NoServices) else Ok(services)
  }

  function Context(members: map<string, Value>): Result<Option<string>, Problem> {
    match Get(members, "build")
    case Null => Ok(None)
    case String(context) => Ok(Some(context))
    case Object(build) =>
      (match Get(build, "context")
       case String(context) => Ok(Some(context))
       case _ => Err(NoContext))
    case _ => Err(NoContext)
  }

  // ---------------------------------------------------------------- bases

  /** `str.split()`: the words between white space. */
  function Split(s: string): (words: seq<string>)
    ensures forall i | 0 <= i < |words| :: words[i] != "" && forall c | c in words[i] :: !IsSpace(c)
    decreases |s|
  {
    var line := LStrip(s);
    if line == "" then []
    else [line[..WordEnd(line)]] + Split(line[WordEnd(line)..])
  }

  function WordEnd(s: string): (n: nat)
    ensures n <= |s| && forall i | 0 <= i < n :: !IsSpace(s[i])
    ensures s != "" && !IsSpace(s[0]) ==> n > 0
  {
    if s == "" || IsSpace(s[0]) then 0 else 1 + WordEnd(s[1..])
  }

  /** A word between white space, of any kind and length, is split off as it is. */
  lemma SplitWord(space: string, word: string, rest: string)
    requires AllSpace(space) && IsWord(word) && (rest == "" || IsSpace(rest[0]))
    ensures Split(space + word + rest) == [word] + Split(rest)
  {
    hide IsSpace;
    var s, line := space + word + rest, word + rest;
    LeadIsSpace(space, word, rest);
    WordIsCut(word, rest);
    hide Lead, WordEnd;
    assert LStrip(s) == line;
  }

  lemma LeadIsSpace(space: string, word: string, rest: string)
    requires AllSpace(space) && IsWord(word)
    ensures var s := space + word + rest;
            Lead(s) == |space| && s[|space|..] == word + rest
  {
    hide IsSpace;
    var s := space + word + rest;
    assert forall i | 0 <= i < |space| :: s[i] == space[i];
    assert s[|space|] == word[0];
  }

  lemma WordIsCut(word: string, rest: string)
    requires IsWord(word) && (rest == "" || IsSpace(rest[0]))
    ensures var line := word + rest;
            WordEnd(line) == |word| && line[..|word|] == word && line[|word|..] == rest
  {
    hide IsSpace;
    var line := word + rest;
    assert forall i | 0 <= i < |word| :: line[i] == word[i];
    assert |word| < |line| ==> line[|word|] == rest[0];
    WordEndsAt(line, |word|);
  }

  lemma {:induction false} WordEndsAt(s: string, n: nat)
    requires n <= |s| && forall i | 0 <= i < n :: !IsSpace(s[i])
    requires n < |s| ==> IsSpace(s[n])
    ensures WordEnd(s) == n
  {
    hide IsSpace;
    if n > 0 {
      WordEndsAt(s[1..], n - 1);
    }
  }

  /** A `FROM` line names the word after it, whatever stands between them and whatever follows. */
  lemma FromNamesItsBase(space: string, base: string, rest: string)
    requires AllSpace(space) && IsWord(base) && (rest == "" || IsSpace(rest[0]))
    ensures var line := "FROM" + (" " + space + base + rest);
            HasBase(line) && Split(line)[1] == base
  {
    var tail := " " + space + base + rest;
    assert "" + "FROM" + tail == "FROM" + tail;
    assert ("FROM" + tail)[..5] == "FROM ";
    SplitWord("", "FROM", tail);
    SplitWord(" " + space, base, rest);
  }

  predicate IsFrom(line: string) {
    |line| >= 5 && line[..5] == "FROM "
  }

  predicate HasBase(line: string) {
    IsFrom(line) && |Split(line)| > 1
  }

  function BasesIn(text: string): set<string> {
    set line | line in SplitLines(text) && HasBase(line) :: Split(line)[1]
  }

  function Bases(files: Dockerfiles, context: string): Result<set<string>, Problem> {
    if context !in files then Err(Unreadable(context))
    else if BasesIn(files[context]) == {} then Err(NoBase(context))
    else Ok(BasesIn(files[context]))
  }

  // ---------------------------------------------------------------- the list

  /** What one service adds. */
  function Named(service: Service, files: Dockerfiles): Result<set<string>, Problem> {
    if !service.body.Object? then Err(ServiceNotAMapping(service.name))
    else
      match Get(service.body.members, "image")
      case Null => Err(NoImage(service.name))
      case String(image) =>
        if Strip(image) == "" then Err(ImageNotAString(service.name))
        else (
          match Context(service.body.members)
          case Err(problem) => Err(problem)
          case Ok(None) => Ok({Strip(image)})
          case Ok(Some(context)) =>
            match Bases(files, context)
            case Err(problem) => Err(problem)
            case Ok(bases) => Ok({Strip(image)} + bases)
        )
      case _ => Err(ImageNotAString(service.name))
  }

  /** What the services name together, or the first problem among them. */
  function NamedBy(services: seq<Service>, files: Dockerfiles): Result<set<string>, Problem> {
    if services == [] then Ok({})
    else
      match NamedBy(services[..|services| - 1], files)
      case Err(problem) => Err(problem)
      case Ok(found) =>
        match Named(services[|services| - 1], files)
        case Err(problem) => Err(problem)
        case Ok(more) => Ok(found + more)
  }

  ghost function ReferencesOf(document: Document, files: Dockerfiles): Result<seq<string>, Problem> {
    match ServicesOf(document)
    case Err(problem) => Err(problem)
    case Ok(services) =>
      match NamedBy(services, files)
      case Err(problem) => Err(problem)
      case Ok(found) => Ok(SortedOf(found))
  }

  method References(document: Document, files: Dockerfiles) returns (list: Result<seq<string>, Problem>)
    ensures list == ReferencesOf(document, files)
    ensures document == Other ==> list == Err(NotAMapping)
    ensures document == Mapping(None) || document == Mapping(Some([])) ==> list == Err(NoServices)
    ensures list.Ok? ==> IsListOf(document, files, list.value)
  {
    ListedExactly(document, files);
    hide Named, SortedOf, IsListOf, Listable;
    match ServicesOf(document) {
      case Err(problem) => return Err(problem);
      case Ok(services) =>
        var found: set<string> := {};
        for i := 0 to |services|
          invariant NamedBy(services[..i], files) == Ok(found)
        {
          assert services[..i + 1][..i] == services[..i];
          match Named(services[i], files) {
            case Err(problem) =>
              FirstProblemStays(services, files, i + 1);
              return Err(problem);
            case Ok(more) => found := found + more;
          }
        }
        assert services[..|services|] == services;
        var sorted := Sorted(found);
        return Ok(sorted);
    }
  }

  lemma {:induction false} FirstProblemStays(services: seq<Service>, files: Dockerfiles, n: nat)
    requires n <= |services| && NamedBy(services[..n], files).Err?
    ensures NamedBy(services, files) == NamedBy(services[..n], files)
  {
    hide Named;
    if n == |services| {
      assert services[..n] == services;
    } else {
      var rest := services[..|services| - 1];
      assert rest[..n] == services[..n];
      FirstProblemStays(rest, files, n);
    }
  }

  // ---------------------------------------------------------------- exhaustive

  /** A service that can be catalogued. */
  predicate Accounted(service: Service, files: Dockerfiles) {
    && service.body.Object?
    && Get(service.body.members, "image").String?
    && Strip(Get(service.body.members, "image").text) != ""
    && Context(service.body.members).Ok?
    && var context := Context(service.body.members).value;
       context.Some? ==> context.value in files && BasesIn(files[context.value]) != {}
  }

  /** The image a service is run from, as written. */
  function ImageOf(service: Service, files: Dockerfiles): string
    requires Accounted(service, files)
  {
    Get(service.body.members, "image").text
  }

  predicate IsBuilt(service: Service, files: Dockerfiles)
    requires Accounted(service, files)
  {
    Context(service.body.members).value.Some?
  }

  function BasesOf(service: Service, files: Dockerfiles): set<string>
    requires Accounted(service, files)
  {
    match Context(service.body.members).value
    case None => {}
    case Some(context) => BasesIn(files[context])
  }

  lemma NamedExactly(service: Service, files: Dockerfiles)
    ensures Named(service, files).Ok? <==> Accounted(service, files)
    ensures Accounted(service, files) ==>
              Named(service, files) == Ok({Strip(ImageOf(service, files))} + BasesOf(service, files))
  {
    hide BasesIn, Strip;
    if Accounted(service, files) {
      var image := {Strip(ImageOf(service, files))};
      assert image + {} == image;
    }
  }

  ghost predicate AllAccounted(services: seq<Service>, files: Dockerfiles) {
    forall i | 0 <= i < |services| :: Accounted(services[i], files)
  }

  /** Some service is run from this image, or has this base. */
  ghost predicate IsNamed(services: seq<Service>, files: Dockerfiles, name: string)
    requires AllAccounted(services, files)
  {
    exists i :: 0 <= i < |services|
      && (name == Strip(ImageOf(services[i], files)) || name in BasesOf(services[i], files))
  }

  lemma {:induction false} NamedByExactly(services: seq<Service>, files: Dockerfiles)
    ensures NamedBy(services, files).Ok? <==> AllAccounted(services, files)
    ensures AllAccounted(services, files) ==>
              forall name :: name in NamedBy(services, files).value <==> IsNamed(services, files, name)
  {
    hide Named, Accounted, ImageOf, BasesOf, Strip;
    if services != [] {
      var n := |services| - 1;
      NamedByExactly(services[..n], files);
      NamedExactly(services[n], files);
      if AllAccounted(services, files) {
        forall name ensures name in NamedBy(services, files).value <==> IsNamed(services, files, name) {
          IsNamedSnoc(services, files, name);
        }
      }
    }
  }

  lemma IsNamedSnoc(services: seq<Service>, files: Dockerfiles, name: string)
    requires services != [] && AllAccounted(services, files)
    ensures var n := |services| - 1;
            AllAccounted(services[..n], files)
            && (IsNamed(services, files, name) <==>
                IsNamed(services[..n], files, name)
                || name == Strip(ImageOf(services[n], files)) || name in BasesOf(services[n], files))
  {
    hide Accounted, ImageOf, BasesOf, Strip;
    var n := |services| - 1;
    assert forall i | 0 <= i < n :: services[..n][i] == services[i];
  }

  /** The list is made exactly when every service can be accounted for; and then it is strictly
      sorted, and is every service's image and every base, no more and no fewer. */
  lemma ReferencesAreExhaustive(document: Document, files: Dockerfiles)
    ensures ReferencesOf(document, files).Ok? <==>
              ServicesOf(document).Ok? && AllAccounted(ServicesOf(document).value, files)
    ensures ReferencesOf(document, files).Ok? ==>
              var list := ReferencesOf(document, files).value;
              Increasing(list)
              && forall name :: name in Elements(list) <==> IsNamed(ServicesOf(document).value, files, name)
  {
    hide NamedBy, IsNamed, AllAccounted, Increasing;
    if ServicesOf(document).Ok? {
      NamedByExactly(ServicesOf(document).value, files);
    }
  }

  // ---------------------------------------------------------------- as the file is written

  /** The build of a service, in either form: a string, or a mapping with a string under `context`. */
  predicate BuildsFrom(members: map<string, Value>, context: string) {
    && "build" in members
    && (members["build"] == String(context)
        || (members["build"].Object? && "context" in members["build"].members
            && members["build"].members["context"] == String(context)))
  }

  /** Without one, or with a null for it, an image is pulled. */
  predicate BuildsNothing(members: map<string, Value>) {
    "build" !in members || members["build"] == Null
  }

  /** A word that directly follows a `FROM` at the start of a line. */
  ghost predicate IsBaseIn(text: string, base: string) {
    exists line :: line in SplitLines(text) && |line| >= 5 && line[..5] == "FROM "
                   && |Split(line)| >= 2 && Split(line)[1] == base
  }

  /** A service that runs an image that is not blank, and builds nothing, or something with a base. */
  ghost predicate Listable(service: Service, files: Dockerfiles) {
    && service.body.Object?
    && (exists image :: Get(service.body.members, "image") == String(image) && !AllSpace(image))
    && (BuildsNothing(service.body.members)
        || exists context :: BuildsFrom(service.body.members, context) && context in files
             && exists base :: IsBaseIn(files[context], base))
  }

  /** The image is named without the white space at its ends, and what is built by its bases too. */
  ghost predicate Adds(service: Service, files: Dockerfiles, name: string) {
    service.body.Object?
    && (|| (exists image :: Get(service.body.members, "image") == String(image) && name == Strip(image))
        || (exists context :: BuildsFrom(service.body.members, context) && context in files
              && IsBaseIn(files[context], name)))
  }

  lemma AddsExactly(service: Service, files: Dockerfiles)
    ensures Named(service, files).Ok? <==> Listable(service, files)
    ensures Named(service, files).Ok? ==>
              forall name :: name in Named(service, files).value <==> Adds(service, files, name)
  {
    hide SplitLines, Split, AllSpace, Strip;
    if service.body.Object? {
      var members := service.body.members;
      var image := Get(members, "image");
      if image.String? {
        BlankIsStripped(image.text);
        assert image == String(image.text);
      }
      ContextExactly(members);
      forall text, base ensures base in BasesIn(text) <==> IsBaseIn(text, base) {
      }
      hide BuildsFrom, BuildsNothing, IsBaseIn, BasesIn, Context;
      if context :| BuildsFrom(members, context) {
        assert Context(members) == Ok(Some(context));
      }
    }
  }

  lemma ContextExactly(members: map<string, Value>)
    ensures Context(members) == Ok(None) <==> BuildsNothing(members)
    ensures forall context :: Context(members) == Ok(Some(context)) <==> BuildsFrom(members, context)
    ensures Context(members).Ok? || Context(members) == Err(NoContext)
  {
  }

  /** The list of a file: only of one whose services can all be listed, strictly sorted, and all that they
      add, no more and no fewer. */
  ghost predicate IsListOf(document: Document, files: Dockerfiles, list: seq<string>) {
    && document.Mapping? && document.services.Some? && document.services.value != []
    && (forall i | 0 <= i < |document.services.value| :: Listable(document.services.value[i], files))
    && Increasing(list)
    && forall name :: name in list <==>
         exists service :: service in document.services.value && Adds(service, files, name)
  }

  lemma ListedExactly(document: Document, files: Dockerfiles)
    ensures ReferencesOf(document, files).Ok? <==>
            && document.Mapping? && document.services.Some? && document.services.value != []
            && (forall i | 0 <= i < |document.services.value| :: Listable(document.services.value[i], files))
    ensures ReferencesOf(document, files).Ok? ==> IsListOf(document, files, ReferencesOf(document, files).value)
  {
    ReferencesAreExhaustive(document, files);
    hide Accounted, Listable, ReferencesOf, IsNamed, Adds, Increasing;
    if document.Mapping? && document.services.Some? {
      var services := document.services.value;
      forall i | 0 <= i < |services| ensures Accounted(services[i], files) <==> Listable(services[i], files) {
        AccountedIsListable(services[i], files, "");
      }
      if ReferencesOf(document, files).Ok? {
        var list := ReferencesOf(document, files).value;
        forall name ensures name in list <==> exists service :: service in services && Adds(service, files, name) {
          assert name in list <==> name in Elements(list);
          NamedIsAdded(services, files, name);
        }
      }
    }
  }

  lemma AccountedIsListable(service: Service, files: Dockerfiles, name: string)
    ensures Accounted(service, files) <==> Listable(service, files)
    ensures Accounted(service, files) ==>
              (Adds(service, files, name)
               <==> name == Strip(ImageOf(service, files)) || name in BasesOf(service, files))
  {
    NamedExactly(service, files);
    AddsExactly(service, files);
  }

  lemma NamedIsAdded(services: seq<Service>, files: Dockerfiles, name: string)
    requires AllAccounted(services, files)
    ensures IsNamed(services, files, name) <==> exists service :: service in services && Adds(service, files, name)
  {
    hide Accounted, Adds, ImageOf, BasesOf, Strip;
    forall i | 0 <= i < |services|
      ensures Adds(services[i], files, name)
         <==> name == Strip(ImageOf(services[i], files)) || name in BasesOf(services[i], files)
    {
      AccountedIsListable(services[i], files, name);
    }
    if service :| service in services && Adds(service, files, name) {
      var i :| 0 <= i < |services| && services[i] == service;
    }
  }

  /** Otherwise the problem is that of the first service that cannot be listed. */
  lemma {:induction false} FirstProblemIsReported(services: seq<Service>, files: Dockerfiles)
    requires NamedBy(services, files).Err?
    ensures exists i | 0 <= i < |services| ::
              Named(services[i], files).Err? && Named(services[i], files).error == NamedBy(services, files).error
              && !Listable(services[i], files) && forall k | 0 <= k < i :: Listable(services[k], files)
  {
    hide Named, Listable;
    var n := |services| - 1;
    var rest := services[..n];
    if NamedBy(rest, files).Err? {
      FirstProblemIsReported(rest, files);
      var i :| 0 <= i < |rest|
        && Named(rest[i], files).Err? && Named(rest[i], files).error == NamedBy(rest, files).error
        && !Listable(rest[i], files) && forall k | 0 <= k < i :: Listable(rest[k], files);
      assert services[i] == rest[i] && forall k | 0 <= k < i :: services[k] == rest[k];
    } else {
      NamedByExactly(rest, files);
      forall k | 0 <= k < n ensures Listable(services[k], files) {
        assert rest[k] == services[k] && Accounted(rest[k], files);
        AccountedIsListable(services[k], files, "");
      }
      AddsExactly(services[n], files);
      assert Named(services[n], files).error == NamedBy(services, files).error;
    }
  }

  /** In both forms of a build, every base of what is built is listed. */
  lemma EveryBaseIsListed(document: Document, files: Dockerfiles, service: Service, context: string, base: string)
    requires ReferencesOf(document, files).Ok? && service in document.services.value && service.body.Object?
    requires || Get(service.body.members, "build") == String(context)
             || (exists build :: Get(service.body.members, "build") == Object(build)
                   && Get(build, "context") == String(context))
    requires context in files && IsBaseIn(files[context], base)
    ensures base in ReferencesOf(document, files).value
  {
    ListedExactly(document, files);
    hide ReferencesOf, Listable, IsBaseIn;
    assert BuildsFrom(service.body.members, context);
    assert Adds(service, files, base);
  }

  /** No other form of a build is passed over. */
  lemma OtherBuildsAreRefused(document: Document, files: Dockerfiles, service: Service)
    requires document.Mapping? && document.services.Some? && service in document.services.value
    requires service.body.Object? && Get(service.body.members, "build") != Null
    requires forall context :: Get(service.body.members, "build") != String(context)
    requires forall build, context | Get(service.body.members, "build") == Object(build) ::
               Get(build, "context") != String(context)
    ensures ReferencesOf(document, files).Err?
  {
    ListedExactly(document, files);
    hide ReferencesOf, IsBaseIn, IsListOf;
    var i :| 0 <= i < |document.services.value| && document.services.value[i] == service;
    var members := service.body.members;
    if context :| BuildsFrom(members, context) {
      if members["build"].Object? {
        assert Get(members, "build") == Object(members["build"].members);
      }
    }
  }

  /** The two services name the same image and build, whatever else they say: profiles, ports, limits. */
  ghost predicate SameSource(a: Service, b: Service) {
    && a.name == b.name && (a.body.Object? <==> b.body.Object?)
    && (a.body.Object? ==>
          && Get(a.body.members, "image") == Get(b.body.members, "image")
          && Get(a.body.members, "build") == Get(b.body.members, "build"))
  }

  /** Nothing but images and builds decides the list, so a profile cannot leave a service out of it. */
  lemma {:induction false} ProfilesDoNotMatter(a: seq<Service>, b: seq<Service>, files: Dockerfiles)
    requires |a| == |b| && forall i | 0 <= i < |a| :: SameSource(a[i], b[i])
    ensures NamedBy(a, files) == NamedBy(b, files)
    ensures ReferencesOf(Mapping(Some(a)), files) == ReferencesOf(Mapping(Some(b)), files)
  {
    hide Named, SameSource, SortedOf;
    if a != [] {
      var n := |a| - 1;
      ProfilesDoNotMatter(a[..n], b[..n], files);
      SameSourceSameNames(a[n], b[n], files);
    }
  }

  lemma SameSourceSameNames(a: Service, b: Service, files: Dockerfiles)
    requires SameSource(a, b)
    ensures Named(a, files) == Named(b, files)
  {
    hide Bases, Strip;
  }

  // ---------------------------------------------------------------- the second reader

  /** The tags of the services that are not built. */
  ghost function Pulled(services: seq<Service>, files: Dockerfiles): set<string>
    requires AllAccounted(services, files)
  {
    set i | 0 <= i < |services| && !IsBuilt(services[i], files) :: ImageOf(services[i], files)
  }

  ghost function BuiltTags(services: seq<Service>, files: Dockerfiles): set<string>
    requires AllAccounted(services, files)
  {
    set i | 0 <= i < |services| && IsBuilt(services[i], files) :: ImageOf(services[i], files)
  }

  ghost function Keys(services: seq<Service>, files: Dockerfiles): set<string>
    requires AllAccounted(services, files)
  {
    set i | 0 <= i < |services| :: ImageOf(services[i], files)
  }

  /** The bases as the second reader takes them: a `FROM` with nothing after it makes it fail, where
      the first reader passes over it. */
  function BasesStrictly(text: string): Option<set<string>> {
    if exists line :: line in SplitLines(text) && IsFrom(line) && |Split(line)| < 2 then None
    else Some(set line | line in SplitLines(text) && IsFrom(line) && |Split(line)| >= 2 :: Split(line)[1])
  }

  function BuiltBases(services: seq<Service>, files: Dockerfiles): Option<set<string>>
    requires AllAccounted(services, files)
  {
    if services == [] then Some({})
    else
      var n := |services| - 1;
      match (BuiltBases(services[..n], files), Context(services[n].body.members).value)
      case (None, _) => None
      case (found, None) => found
      case (Some(found), Some(context)) =>
        match BasesStrictly(files[context])
        case None => None
        case Some(more) => Some(found + more)
  }

  /** A `FROM` with nothing after it. */
  predicate HasBareFrom(text: string) {
    exists line :: line in SplitLines(text) && |line| >= 5 && line[..5] == "FROM " && |Split(line)| < 2
  }

  lemma StrictBasesAgree(text: string)
    ensures BasesStrictly(text).Some? ==> BasesStrictly(text).value == BasesIn(text)
    ensures BasesStrictly(text).None? <==> HasBareFrom(text)
  {
    hide SplitLines, Split;
    if BasesStrictly(text).Some? {
      forall line ensures line in SplitLines(text) && IsFrom(line) && |Split(line)| >= 2
                     <==> line in SplitLines(text) && HasBase(line) {
      }
    }
  }

  /** Where the second reader gets through, its bases are the first one's. */
  lemma {:induction false} BuiltBasesAgree(services: seq<Service>, files: Dockerfiles)
    requires AllAccounted(services, files) && BuiltBases(services, files).Some?
    ensures forall name :: name in BuiltBases(services, files).value <==> IsBase(services, files, name)
  {
    if services != [] {
      hide BuiltBases, BasesOf, Accounted, IsBase;
      LastBases(services, files);
      BuiltBasesAgree(services[..|services| - 1], files);
      forall name ensures name in BuiltBases(services, files).value <==> IsBase(services, files, name) {
        IsBaseSnoc(services, files, name);
      }
    }
  }

  /** And it gets through exactly when nothing that is built has a bare `FROM`. */
  lemma {:induction false} BuiltBasesExactly(services: seq<Service>, files: Dockerfiles)
    requires AllAccounted(services, files)
    ensures BuiltBases(services, files).Some? <==>
            forall i | 0 <= i < |services| :: !BuildsOnBareFrom(services[i], files)
  {
    hide BuildsOnBareFrom, Accounted, BuiltBases;
    if services == [] {
      NoBuiltBases(services, files);
    } else {
      var n := |services| - 1;
      assert forall i | 0 <= i < n :: services[..n][i] == services[i];
      BuiltBasesExactly(services[..n], files);
      LastIsBare(services, files);
    }
  }

  ghost predicate BuildsOnBareFrom(service: Service, files: Dockerfiles) {
    service.body.Object?
    && exists context :: BuildsFrom(service.body.members, context) && context in files && HasBareFrom(files[context])
  }

  lemma NoBuiltBases(services: seq<Service>, files: Dockerfiles)
    requires services == []
    ensures BuiltBases(services, files) == Some({})
  {
  }

  lemma LastIsBare(services: seq<Service>, files: Dockerfiles)
    requires services != [] && AllAccounted(services, files)
    ensures var n := |services| - 1;
            && AllAccounted(services[..n], files)
            && (BuiltBases(services, files).Some? <==>
                BuiltBases(services[..n], files).Some? && !BuildsOnBareFrom(services[n], files))
  {
    hide BasesStrictly, BasesIn, HasBareFrom;
    var n := |services| - 1;
    ContextExactly(services[n].body.members);
    hide BuildsFrom, BuildsNothing;
    var context := Context(services[n].body.members).value;
    hide Context;
    if context.Some? {
      StrictBasesAgree(files[context.value]);
    }
  }

  ghost predicate IsBase(services: seq<Service>, files: Dockerfiles, name: string)
    requires AllAccounted(services, files)
  {
    exists i :: 0 <= i < |services| && name in BasesOf(services[i], files)
  }

  lemma IsBaseSnoc(services: seq<Service>, files: Dockerfiles, name: string)
    requires services != [] && AllAccounted(services, files)
    ensures var n := |services| - 1;
            && AllAccounted(services[..n], files)
            && (IsBase(services, files, name) <==>
                IsBase(services[..n], files, name) || name in BasesOf(services[n], files))
  {
    hide Accounted, BasesOf;
    var n := |services| - 1;
    assert forall i | 0 <= i < n :: services[..n][i] == services[i];
  }

  lemma LastBases(services: seq<Service>, files: Dockerfiles)
    requires services != [] && AllAccounted(services, files) && BuiltBases(services, files).Some?
    ensures var n := |services| - 1;
            && AllAccounted(services[..n], files) && BuiltBases(services[..n], files).Some?
            && BuiltBases(services, files).value == BuiltBases(services[..n], files).value + BasesOf(services[n], files)
  {
    hide Context, BasesStrictly, BasesIn;
    var n := |services| - 1;
    var context := Context(services[n].body.members).value;
    if context.Some? {
      StrictBasesAgree(files[context.value]);
    }
  }

  lemma BasesAreWords(service: Service, files: Dockerfiles, name: string)
    requires Accounted(service, files) && name in BasesOf(service, files)
    ensures Trimmed(name)
  {
  }

  /** The exact condition: the two readers list the same names if and only if no image is written
      with surrounding blanks. */
  lemma ReadersAgreeExactly(document: Document, files: Dockerfiles)
    requires ReferencesOf(document, files).Ok?
    ensures AllAccounted(ServicesOf(document).value, files)
    ensures var services := ServicesOf(document).value;
            BuiltBases(services, files).Some? ==>
              (Elements(ReferencesOf(document, files).value)
               == Keys(services, files) + BuiltBases(services, files).value
               <==> forall i | 0 <= i < |services| :: Trimmed(ImageOf(services[i], files)))
  {
    hide ReferencesOf, AllAccounted, Accounted, ImageOf, BasesOf, Strip, Trimmed, BuiltBases;
    ReferencesAreExhaustive(document, files);
    var services := ServicesOf(document).value;
    if BuiltBases(services, files).Some? {
      BuiltBasesAgree(services, files);
      var list := Elements(ReferencesOf(document, files).value);
      ListAgainstKeys(services, files, list, BuiltBases(services, files).value);
    }
  }

  lemma ListAgainstKeys(services: seq<Service>, files: Dockerfiles, list: set<string>, bases: set<string>)
    requires AllAccounted(services, files)
    requires forall name :: name in list <==> IsNamed(services, files, name)
    requires forall name :: name in bases <==> IsBase(services, files, name)
    ensures list == Keys(services, files) + bases <==>
            forall i | 0 <= i < |services| :: Trimmed(ImageOf(services[i], files))
  {
    hide Accounted, ImageOf, BasesOf, Strip, Trimmed;
    if forall i | 0 <= i < |services| :: Trimmed(ImageOf(services[i], files)) {
      forall i | 0 <= i < |services| ensures Strip(ImageOf(services[i], files)) == ImageOf(services[i], files) {
        TrimmedIsStripped(ImageOf(services[i], files));
      }
      assert forall name :: name in list <==> name in Keys(services, files) + bases;
    }
    if list == Keys(services, files) + bases {
      forall i | 0 <= i < |services| ensures Trimmed(ImageOf(services[i], files)) {
        assert ImageOf(services[i], files) in Keys(services, files);
        ListedIsTrimmed(services, files, ImageOf(services[i], files));
      }
    }
  }

  lemma TrimmedIsStripped(image: string)
    requires Trimmed(image)
    ensures Strip(image) == image
  {
  }

  lemma ListedIsTrimmed(services: seq<Service>, files: Dockerfiles, name: string)
    requires AllAccounted(services, files) && IsNamed(services, files, name)
    ensures Trimmed(name)
  {
    hide Accounted, ImageOf, BasesOf, Trimmed;
    var i :| 0 <= i < |services| && (name == Strip(ImageOf(services[i], files)) || name in BasesOf(services[i], files));
    if name in BasesOf(services[i], files) {
      BasesAreWords(services[i], files, name);
    }
  }

  function Padded(): Service {
    Service("s", Object(map["image" := String(" a")]))
  }

  /** An image written with a blank before it: the first reader lists it without, the second with. */
  lemma BlanksPartTheReaders()
    ensures ReferencesOf(Mapping(Some([Padded()])), map[]).Ok?
    ensures Elements(ReferencesOf(Mapping(Some([Padded()])), map[]).value) == {"a"}
    ensures AllAccounted([Padded()], map[]) && Keys([Padded()], map[]) == {" a"}
    ensures BuiltBases([Padded()], map[]) == Some({})
  {
    StripPadding(" ", "a", "");
    assert " " + "a" + "" == " a";
    hide Strip;
    assert [Padded()][..0] == [];
    assert NamedBy([Padded()], map[]) == Ok({"a"}) by {
      assert Named(Padded(), map[]) == Ok({"a"});
      assert NamedBy([], map[]) == Ok({});
      assert {} + {"a"} == {"a"};
    }
    assert BuiltBases([], map[]) == Some({});
  }

  /** Pulled and built tags are all the keys between them; and a tag is in both exactly when one
      service builds it and another has it pulled. */
  lemma TagsAreSorted(services: seq<Service>, files: Dockerfiles)
    requires AllAccounted(services, files)
    ensures Pulled(services, files) + BuiltTags(services, files) == Keys(services, files)
    ensures Pulled(services, files) !! BuiltTags(services, files) <==>
            forall i, j | 0 <= i < |services| && 0 <= j < |services|
                       && ImageOf(services[i], files) == ImageOf(services[j], files) ::
              IsBuilt(services[i], files) == IsBuilt(services[j], files)
  {
    hide Accounted, ImageOf, IsBuilt;
    var pulled, built := Pulled(services, files), BuiltTags(services, files);
    assert forall i | 0 <= i < |services| ::
        ImageOf(services[i], files) in if IsBuilt(services[i], files) then built else pulled;
    if !(pulled !! built) {
      var tag :| tag in pulled && tag in built;
      var i :| 0 <= i < |services| && !IsBuilt(services[i], files) && ImageOf(services[i], files) == tag;
      var j :| 0 <= j < |services| && IsBuilt(services[j], files) && ImageOf(services[j], files) == tag;
    }
  }
}
