/** The Makefile targets that act on the Postgres volume, and what a whole history of them, and of
    edits to the credentials, keeps. */
module Lifecycle {
  import opened Wrappers
  import opened Text
  import opened Credentials
  import opened VolumeReport
  import opened Doctor

  /** The data directory. Once built it keeps the role it was built with, whatever is offered later,
      and the record the init script left, if it left one. */
  datatype Volume = Fresh | Built(user: string, password: string, record: Option<string>)

  /** What stays fixed: the committed example file and the digest function. */
  datatype Setting = Setting(exampleText: string, hash: Digest)

  datatype World = World(volume: Volume, envText: Option<string>, environ: Pairs)

  /** One run of the probe container: its exit code, and what else was printed. */
  datatype ProbeRun = ProbeRun(returncode: int, noise: string, stderr: string)

  /** What the machine does during one `up`: the daemon's state, the probe, the salt the init script
      would draw, and whether compose got as far as starting Postgres. */
  datatype Attempt = Attempt(docker: Docker, probe: ProbeRun, salt: string, started: bool)

  datatype Event =
    | Edit(envText: Option<string>)
    | Export(environ: Pairs)
    | Up(attempt: Attempt)
    | Down(removed: bool)
    | Clean(removed: bool)
    | Reset(removed: bool, attempt: Attempt)

  // ---------------------------------------------------------------- the doctor, in this world

  function RecordOf(volume: Volume): Option<string> {
    if volume.Built? then volume.record else None
  }

  /** What the doctor learns about the volume: the script's report, among what else was printed. */
  function Observed(volume: Volume, probe: ProbeRun): VolumeState {
    Parsed(probe.returncode, probe.noise + Report(RecordOf(volume), volume.Built?), probe.stderr)
  }

  function InputsOf(setting: Setting, w: World, docker: Docker): Inputs {
    Inputs(docker, setting.exampleText, w.envText, w.environ)
  }

  function Pair(w: World): (string, string) {
    (EffectiveValue(POSTGRES_USER, w.envText, w.environ), EffectiveValue(POSTGRES_PASSWORD, w.envText, w.environ))
  }

  predicate Admits(setting: Setting, w: World, attempt: Attempt) {
    ExitCode(Verdicts(setting.hash, InputsOf(setting, w, attempt.docker), Observed(w.volume, attempt.probe))) == 0
  }

  // ---------------------------------------------------------------- the targets

  /** The pair a start runs with, if the doctor admits it, compose can render the file with it, and
      Postgres starts. */
  function StartOf(setting: Setting, w: World, attempt: Attempt): Option<(string, string)> {
    if Admits(setting, w, attempt) && Pair(w).0 != "" && Pair(w).1 != "" && attempt.started then Some(Pair(w)) else None
  }

  /** A start initialises a fresh volume with the pair in hand and leaves a built one as it is. */
  function AfterUp(setting: Setting, w: World, attempt: Attempt): World {
    match StartOf(setting, w, attempt)
    case None => w
    case Some((user, password)) =>
      if w.volume.Fresh? then
        w.(volume := Built(user, password, InitRecord(setting.hash, attempt.salt, user, password)))
      else w
  }

  function Cleaned(w: World, removed: bool): World {
    if removed then w.(volume := Fresh) else w
  }

  function Apply(setting: Setting, w: World, event: Event): World {
    match event
    case Edit(envText) => w.(envText := envText)
    case Export(environ) => w.(environ := environ)
    case Up(attempt) => AfterUp(setting, w, attempt)
    case Down(_) => w
    case Clean(removed) => Cleaned(w, removed)
    case Reset(removed, attempt) => if removed then AfterUp(setting, Cleaned(w, true), attempt) else w
  }

  /** The start an event leads to, if it leads to one. */
  function Started(setting: Setting, w: World, event: Event): Option<(string, string)> {
    match event
    case Up(attempt) => StartOf(setting, w, attempt)
    case Reset(removed, attempt) => if removed then StartOf(setting, Cleaned(w, true), attempt) else None
    case _ => None
  }

  function Replay(setting: Setting, w: World, events: seq<Event>): World {
    if events == [] then w else Apply(setting, Replay(setting, w, events[..|events| - 1]), events[|events| - 1])
  }

  /** The machine the targets run on. Each target is carried out command by command. */
  class Machine {
    const setting: Setting
    var volume: Volume
    var envText: Option<string>
    var environ: Pairs
    var running: bool

    function Now(): World
      reads this
    {
      World(volume, envText, environ)
    }

    constructor (setting: Setting, envText: Option<string>, environ: Pairs)
      ensures this.setting == setting && Now() == World(Fresh, envText, environ) && !running
    {
      this.setting := setting;
      this.volume := Fresh;
      this.envText := envText;
      this.environ := environ;
      this.running := false;
    }

    /** `make doctor`: exit 0 exactly when a start is admitted, having changed nothing. */
    method RunDoctor(docker: Docker, probeRun: ProbeRun) returns (status: int)
      ensures status == ExitCode(Verdicts(setting.hash, InputsOf(setting, Now(), docker), Observed(volume, probeRun)))
    {
      var stdout := probeRun.noise + Report(RecordOf(volume), volume.Built?);
      var state := ParseVolumeReport(probeRun.returncode, stdout, probeRun.stderr);
      var probe := new Probe(state);
      var results := Run(setting.hash, InputsOf(setting, Now(), docker), probe);
      status := ExitCode(results);
    }

    /** The credentials file is edited, or removed. */
    method Edit(envText: Option<string>)
      modifies this`envText
      ensures this.envText == envText && Now() == Apply(setting, old(Now()), Event.Edit(envText))
    {
      this.envText := envText;
    }

    /** Other variables are exported. */
    method Export(environ: Pairs)
      modifies this`environ
      ensures this.environ == environ && Now() == Apply(setting, old(Now()), Event.Export(environ))
    {
      this.environ := environ;
    }

    /** `make up`: the doctor is a prerequisite, so nothing happens unless it exits 0. */
    method Up(attempt: Attempt) returns (start: Option<(string, string)>)
      modifies this
      ensures Now() == Apply(setting, old(Now()), Event.Up(attempt))
      ensures start == Started(setting, old(Now()), Event.Up(attempt))
      ensures start.Some? <==> Admits(setting, old(Now()), attempt) && attempt.started
                               && Pair(old(Now())).0 != "" && Pair(old(Now())).1 != ""
      ensures start.Some? ==> start.value == Pair(old(Now()))
      ensures envText == old(envText) && environ == old(environ)
      ensures volume == if start.None? || old(volume).Built? then old(volume)
                        else var (user, password) := start.value;
                          Built(user, password, InitRecord(setting.hash, attempt.salt, user, password))
      ensures running == (old(running) || start.Some?)
    {
      hide EffectiveValue, Verdicts, ExitCode, Observed, InitRecord;
      start := None;
      var status := RunDoctor(attempt.docker, attempt.probe);
      if status != 0 {
        return;
      }
      var user := EffectiveValue(POSTGRES_USER, envText, environ);
      var password := EffectiveValue(POSTGRES_PASSWORD, envText, environ);
      if user == "" || password == "" || !attempt.started {
        return;
      }
      if volume.Fresh? {
        volume := Built(user, password, InitRecord(setting.hash, attempt.salt, user, password));
      }
      running := true;
      start := Some((user, password));
    }

    /** `make down` keeps the volumes. */
    method Down(removed: bool)
      modifies this`running
      ensures Now() == Apply(setting, old(Now()), Event.Down(removed)) && Now() == old(Now())
      ensures running == (old(running) && !removed)
    {
      if removed {
        running := false;
      }
    }

    /** `make clean` removes them too. */
    method Clean(removed: bool)
      modifies this`running, this`volume
      ensures Now() == Apply(setting, old(Now()), Event.Clean(removed))
      ensures volume == if removed then Fresh else old(volume)
      ensures running == (old(running) && !removed)
    {
      if removed {
        running, volume := false, Fresh;
      }
    }

    /** `make reset` is `clean`, then `up`; a failed `clean` stops it there. */
    method Reset(removed: bool, attempt: Attempt) returns (start: Option<(string, string)>)
      modifies this
      ensures Now() == Apply(setting, old(Now()), Event.Reset(removed, attempt))
      ensures start == Started(setting, old(Now()), Event.Reset(removed, attempt))
      ensures !removed ==> start == None && Now() == old(Now())
      ensures envText == old(envText) && environ == old(environ)
      ensures removed ==>
                volume == if start.None? then Fresh
                          else var (user, password) := start.value;
                            Built(user, password, InitRecord(setting.hash, attempt.salt, user, password))
    {
      hide StartOf, AfterUp, InitRecord;
      start := None;
      Clean(removed);
      if removed {
        start := Up(attempt);
      }
    }
  }

  // ---------------------------------------------------------------- what the doctor is told

  /** The volume is fresh, or holds the record of the very pair it was built with. */
  ghost predicate Recorded(setting: Setting, volume: Volume) {
    volume.Built? ==> exists salt :: RecordedWith(setting, volume, salt)
  }

  ghost predicate RecordedWith(setting: Setting, volume: Volume, salt: string)
    requires volume.Built?
  {
    Hex(salt) && volume.record == InitRecord(setting.hash, salt, volume.user, volume.password)
  }

  ghost predicate GoodHash(hash: Digest) {
    Injective(hash) && HexDigest(hash)
  }

  /** The probe exited 0, and nothing it printed first keeps the volume's record from being read. */
  ghost predicate Told(volume: Volume, probe: ProbeRun) {
    volume.Built? && volume.record.Some? ==>
      && probe.returncode == 0
      && (Narration(probe.noise) || Echoes(Heard(Whole(probe.noise)), volume.record.value))
  }

  /** Nothing but the report could be taken for a record. */
  predicate Quiet(probe: ProbeRun) {
    probe.returncode == 0 ==> FINGERPRINTED !in Heard(Whole(probe.noise))
  }

  ghost predicate SamePair(user: string, password: string, pair: (string, string)) {
    || (user == pair.0 && password == pair.1)
    || ColonMoved(user, password, pair.0, pair.1)
    || ColonMoved(pair.0, pair.1, user, password)
  }

  /** The doctor reads a volume's own record if and only if it is told. */
  lemma ToldExactly(setting: Setting, volume: Volume, probe: ProbeRun, salt: string)
    requires GoodHash(setting.hash) && volume.Built? && RecordedWith(setting, volume, salt)
    ensures Told(volume, probe) <==>
            Observed(volume, probe) == Fingerprinted(salt,
                Fingerprint(setting.hash, salt, volume.user, volume.password))
  {
    hide Narration, Parsed, Report, Heard, Echoes, Fingerprint;
    var digest := Fingerprint(setting.hash, salt, volume.user, volume.password);
    assert Hex(digest) by { DigestIsHex(setting.hash, salt, volume.user, volume.password); }
    RecordIsReadExactly(probe.returncode, probe.noise, salt, digest, true, probe.stderr);
  }

  lemma DigestIsHex(hash: Digest, salt: string, user: string, password: string)
    requires HexDigest(hash)
    ensures Hex(Fingerprint(hash, salt, user, password))
  {
  }

  // ---------------------------------------------------------------- one start

  /** Whatever the probe did: the doctor admits every pair unless it has read a fingerprint, and then
      exactly the pairs of that fingerprint. */
  lemma AdmitsByWhatIsRead(setting: Setting, w: World, attempt: Attempt)
    ensures var state := Observed(w.volume, attempt.probe);
            Admits(setting, w, attempt) <==>
            && attempt.docker == Ready && AllSet(InputsOf(setting, w, attempt.docker))
            && (state.Fingerprinted? ==>
                  state.digest == Fingerprint(setting.hash, state.salt, Pair(w).0, Pair(w).1))
  {
    hide EffectiveValue, Missing, Report, Parsed, ExitCode, Verdicts, Fingerprint, AllSet;
    var state := Observed(w.volume, attempt.probe);
    var inputs := InputsOf(setting, w, attempt.docker);
    ReachesExactly(inputs);
    ExitCodeMeans(setting.hash, inputs, state);
    ExitCodeIsBinary(Verdicts(setting.hash, inputs, state));
  }

  lemma ExitCodeIsBinary(results: seq<Verdict>)
    ensures ExitCode(results) == 0 || ExitCode(results) == 1
  {
  }

  /** Over a built and recorded volume a doctor that is told admits exactly the recorded pair, up to a
      moved colon; one that reads no fingerprint admits every pair. */
  lemma AdmitsExactly(setting: Setting, w: World, attempt: Attempt)
    requires GoodHash(setting.hash) && w.volume.Built? && Recorded(setting, w.volume)
    ensures Told(w.volume, attempt.probe) ==>
              (Admits(setting, w, attempt) <==>
               && ReachesVolume(InputsOf(setting, w, attempt.docker))
               && SamePair(w.volume.user, w.volume.password, Pair(w)))
    ensures !Observed(w.volume, attempt.probe).Fingerprinted? ==>
              (Admits(setting, w, attempt) <==> ReachesVolume(InputsOf(setting, w, attempt.docker)))
  {
    hide ColonMoved, EffectiveValue, Missing, AllSet, Told, Observed, Fingerprint, Admits, ReachesVolume, InitRecord;
    var salt :| RecordedWith(setting, w.volume, salt);
    ToldExactly(setting, w.volume, attempt.probe, salt);
    ReachesExactly(InputsOf(setting, w, attempt.docker));
    AdmitsByWhatIsRead(setting, w, attempt);
    FingerprintsAgree(setting.hash, salt, w.volume.user, w.volume.password, Pair(w).0, Pair(w).1);
  }

  /** A fresh volume is admitted whatever the pair, and whether or not the probe got through. */
  lemma FreshIsAdmitted(setting: Setting, w: World, attempt: Attempt)
    requires w.volume.Fresh? && Quiet(attempt.probe)
    ensures Admits(setting, w, attempt) <==> ReachesVolume(InputsOf(setting, w, attempt.docker))
  {
    hide Admits, ReachesVolume, AllSet, Heard, FailureTail;
    FreshIsNotFingerprinted(attempt.probe);
    ReachesExactly(InputsOf(setting, w, attempt.docker));
    AdmitsByWhatIsRead(setting, w, attempt);
  }

  lemma FreshIsNotFingerprinted(probe: ProbeRun)
    requires Quiet(probe)
    ensures !Observed(Fresh, probe).Fingerprinted?
  {
    hide Heard, Scan, FailureTail;
    if probe.returncode == 0 {
      ParsedIsScanned(probe.noise + Report(None, false), probe.stderr);
      assert EMPTY + "\n" + "" == EMPTY + "\n";
      ReportIsHeard(probe.noise, EMPTY, "");
      var line := LStrip(Begun(probe.noise)) + EMPTY;
      assert line[|line| - 1] == 'y';
      NothingIsHeard();
      var lines := Heard(Whole(probe.noise)) + ([line] + Heard(""));
      assert FINGERPRINTED !in lines;
      ScanNeedsAMark(lines);
    }
  }

  lemma NothingIsHeard()
    ensures Heard("") == []
  {
  }

  lemma {:induction false} ScanNeedsAMark(lines: seq<string>)
    requires FINGERPRINTED !in lines
    ensures !Scan(lines).Fingerprinted?
  {
    if lines != [] {
      assert lines[0] != FINGERPRINTED;
      ScanNeedsAMark(lines[1..]);
    }
  }

  // ---------------------------------------------------------------- a start with another pair

  function Offering(user: string, password: string): Pairs {
    map["POSTGRES_USER" := user, "POSTGRES_PASSWORD" := password]
  }

  /** A doctor that reads nothing lets Postgres start with a pair the volume was not built with: when
      the probe fails, and also when it exits 0 behind a line that was begun and not ended. */
  lemma MismatchedStart(hash: Digest, probe: ProbeRun)
    requires GoodHash(hash)
    requires probe == ProbeRun(1, "", "") || probe == ProbeRun(0, "x", "")
    ensures var setting := Setting("", hash);
            var volume := Built("u", "p", InitRecord(hash, "0", "u", "p"));
            var w := World(volume, None, Offering("u", "q"));
            && Recorded(setting, volume) && !SamePair("u", "p", ("u", "q"))
            && StartOf(setting, w, Attempt(Ready, probe, "0", true)) == Some(("u", "q"))
  {
    hide EffectiveValue, Missing, Fingerprint, Admits, Observed;
    var setting := Setting("", hash);
    var volume := Built("u", "p", InitRecord(hash, "0", "u", "p"));
    var w := World(volume, None, Offering("u", "q"));
    DigestIsHex(hash, "0", "u", "p");
    assert RecordedWith(setting, volume, "0");
    assert "u"[0] in "u" && "q"[0] in "q";
    OfferedPair(volume, None, "u", "q");
    NothingIsMissing(None, w.environ);
    PlainPairsDiffer();
    NothingIsRead(volume, probe, "0", Fingerprint(hash, "0", "u", "p"));
    AdmitsExactly(setting, w, Attempt(Ready, probe, "0", true));
  }

  /** A pair exported in the shell is the pair in hand. */
  lemma OfferedPair(volume: Volume, envText: Option<string>, user: string, password: string)
    requires !AllSpace(user) && !AllSpace(password)
    ensures Pair(World(volume, envText, Offering(user, password))) == (user, password)
  {
    BlankIsStripped(user);
    BlankIsStripped(password);
    hide Strip, AllSpace, EnvPairs;
    assert POSTGRES_USER != POSTGRES_PASSWORD by { assert |POSTGRES_USER| != |POSTGRES_PASSWORD|; }
  }

  lemma NothingIsMissing(envText: Option<string>, environ: Pairs)
    ensures Missing("", envText, environ) == {}
  {
    NothingIsBound();
  }

  lemma PlainPairsDiffer()
    ensures !SamePair("u", "p", ("u", "q"))
  {
    ColonFreeIsTheSamePair("u", "p", ("u", "q"));
  }

  lemma NothingIsRead(volume: Volume, probe: ProbeRun, salt: string, digest: string)
    requires volume.Built? && volume.record == Some(salt + ":" + digest) && Hex(salt) && Hex(digest)
    requires probe == ProbeRun(1, "", "") || probe == ProbeRun(0, "x", "")
    ensures Observed(volume, probe).Unreadable?
  {
    hide Heard, Hex, Parsed, FailureTail, Report;
    if probe.returncode == 0 {
      LineIsBegunByX();
      BegunLineHidesTheReport("x", salt, digest, true, "");
    } else {
      FailuresAreUnreadable(1, "" + Report(volume.record, true), "");
    }
  }

  lemma LineIsBegunByX()
    ensures NoMarks(Heard(Whole("x"))) && !IsMarker(LStrip(Begun("x")) + FINGERPRINTED)
  {
    assert LastStart("x") == 0 by { assert !IsBreak('x') && "x"[..0] == ""; }
    assert Whole("x") == "" && Begun("x") == "x";
    NothingIsHeard();
    hide Heard;
    assert Lead("x") == 0 && LStrip("x") == "x";
    assert ("x" + FINGERPRINTED)[0] == 'x';
  }

  // ---------------------------------------------------------------- whole histories

  /** The init script drew a salt, if it ran. Nothing is asked of the probe. */
  predicate Salted(event: Event) {
    match event
    case Up(attempt) => Hex(attempt.salt)
    case Reset(_, attempt) => Hex(attempt.salt)
    case _ => true
  }

  /** An `up` over a built volume is told; a `reset` starts over, so it need not be. */
  ghost predicate ToldAt(volume: Volume, event: Event) {
    event.Up? ==> Told(volume, event.attempt.probe)
  }

  lemma UpKeepsTheRecord(setting: Setting, w: World, attempt: Attempt)
    requires Recorded(setting, w.volume) && Hex(attempt.salt)
    ensures Recorded(setting, AfterUp(setting, w, attempt).volume)
  {
    hide StartOf, InitRecord, Hex;
    var after := AfterUp(setting, w, attempt).volume;
    if w.volume.Fresh? && after.Built? {
      assert RecordedWith(setting, after, attempt.salt);
    }
  }

  /** Every history from an empty volume leaves it empty or with the record of its own pair, whatever
      the probes did along the way and whichever pairs were admitted. */
  lemma {:induction false} HistoriesKeepTheRecord(setting: Setting, w: World, events: seq<Event>)
    requires w.volume.Fresh? && forall i | 0 <= i < |events| :: Salted(events[i])
    ensures Recorded(setting, Replay(setting, w, events).volume)
  {
    hide Recorded, AfterUp, Hex;
    if events == [] {
      FreshIsRecorded(setting, w);
    } else {
      var last := |events| - 1;
      var before := Replay(setting, w, events[..last]);
      HistoriesKeepTheRecord(setting, w, events[..last]);
      EventKeepsTheRecord(setting, before, events[last]);
    }
  }

  lemma FreshIsRecorded(setting: Setting, w: World)
    requires w.volume.Fresh?
    ensures Recorded(setting, w.volume)
  {
  }

  lemma EventKeepsTheRecord(setting: Setting, w: World, event: Event)
    requires Recorded(setting, w.volume) && Salted(event)
    ensures Recorded(setting, Apply(setting, w, event).volume)
  {
    hide AfterUp, Hex, InitRecord;
    match event
    case Up(attempt) => UpKeepsTheRecord(setting, w, attempt);
    case Reset(removed, attempt) => UpKeepsTheRecord(setting, Cleaned(w, removed), attempt);
    case _ =>
  }

  /** One start over a recorded volume, by a doctor that is told, runs with the pair the volume was
      built with. */
  lemma StartUsesThePair(setting: Setting, w: World, attempt: Attempt)
    requires GoodHash(setting.hash) && Recorded(setting, w.volume) && Told(w.volume, attempt.probe)
    ensures StartOf(setting, w, attempt).Some? ==>
              var volume := AfterUp(setting, w, attempt).volume;
              volume.Built? && SamePair(volume.user, volume.password, StartOf(setting, w, attempt).value)
  {
    hide ColonMoved, EffectiveValue, Told, Recorded, Admits, InitRecord;
    if w.volume.Built? {
      AdmitsExactly(setting, w, attempt);
    }
  }

  /** Safety of every history: from an empty volume, whatever the interleaving of edits, starts, stops
      and resets, and whatever earlier probes did, a start by a doctor that is told runs with the pair
      that initialised the volume then in place. */
  lemma StartsMatchTheVolume(setting: Setting, w: World, events: seq<Event>, event: Event)
    requires GoodHash(setting.hash)
    requires w.volume.Fresh? && (forall i | 0 <= i < |events| :: Salted(events[i]))
    requires ToldAt(Replay(setting, w, events).volume, event)
    ensures var before := Replay(setting, w, events);
            var after := Replay(setting, w, events + [event]);
            Started(setting, before, event).Some? ==>
              && after.volume.Built?
              && SamePair(after.volume.user, after.volume.password, Started(setting, before, event).value)
  {
    hide SamePair, Recorded, AfterUp, StartOf, Told, Hex, GoodHash;
    assert (events + [event])[..|events|] == events;
    var before := Replay(setting, w, events);
    HistoriesKeepTheRecord(setting, w, events);
    match event
    case Up(attempt) => StartUsesThePair(setting, before, attempt);
    case Reset(removed, attempt) =>
      FreshIsRecorded(setting, Cleaned(before, true));
      FreshIsTold(attempt.probe);
      StartUsesThePair(setting, Cleaned(before, true), attempt);
    case _ =>
  }

  lemma FreshIsTold(probe: ProbeRun)
    ensures Told(Fresh, probe)
  {
  }

  lemma ColonFreeIsTheSamePair(user: string, password: string, pair: (string, string))
    requires ':' !in user && ':' !in pair.0
    ensures SamePair(user, password, pair) <==> user == pair.0 && password == pair.1
  {
    assert forall middle :: (pair.0 + ":" + middle)[|pair.0|] == ':' && (user + ":" + middle)[|user|] == ':';
  }

  /** With colon-free users it is the very same pair. */
  lemma ColonFreeStartsMatchTheVolume(setting: Setting, w: World, events: seq<Event>, event: Event)
    requires GoodHash(setting.hash)
    requires w.volume.Fresh? && (forall i | 0 <= i < |events| :: Salted(events[i]))
    requires ToldAt(Replay(setting, w, events).volume, event)
    ensures var before := Replay(setting, w, events);
            var after := Replay(setting, w, events + [event]);
            var start := Started(setting, before, event);
            start.Some? ==>
              && after.volume.Built?
              && (':' !in after.volume.user && ':' !in start.value.0 ==>
                    (after.volume.user, after.volume.password) == start.value)
  {
    hide SamePair, Replay, Started, Salted, ToldAt, GoodHash;
    StartsMatchTheVolume(setting, w, events, event);
    var after := Replay(setting, w, events + [event]);
    var start := Started(setting, Replay(setting, w, events), event);
    if start.Some? && ':' !in after.volume.user && ':' !in start.value.0 {
      ColonFreeIsTheSamePair(after.volume.user, after.volume.password, start.value);
    }
  }

  // ---------------------------------------------------------------- what destroys a volume

  /** The only events that can end a built volume: a `clean`, or the `clean` of a `reset`, that succeeds. */
  predicate Discards(event: Event) {
    match event
    case Clean(removed) => removed
    case Reset(removed, _) => removed
    case _ => false
  }

  /** A built volume survives every history without a successful `clean`: edits, starts admitted or
      refused, `down`s, and resets whose `clean` failed, which do not half happen. */
  lemma {:induction false} BuiltVolumesSurvive(setting: Setting, w: World, events: seq<Event>)
    requires w.volume.Built? && forall i | 0 <= i < |events| :: !Discards(events[i])
    ensures Replay(setting, w, events).volume == w.volume
  {
    hide StartOf;
    if events != [] {
      BuiltVolumesSurvive(setting, w, events[..|events| - 1]);
    }
  }

  lemma {:induction false} ReplayConcat(setting: Setting, w: World, a: seq<Event>, b: seq<Event>)
    ensures Replay(setting, w, a + b) == Replay(setting, Replay(setting, w, a), b)
    decreases |b|
  {
    hide Apply;
    if b == [] {
      assert a + b == a;
    } else {
      ReplayConcat(setting, w, a, b[..|b| - 1]);
      assert (a + b)[..|a + b| - 1] == a + b[..|b| - 1];
    }
  }

  /** So any two starts with no volume discarded between them run with one pair, however the
      credentials were edited and whatever other starts were tried in the meantime. */
  lemma StartsOfOneVolumeAgree(
    setting: Setting, w: World, events: seq<Event>, first: Event, between: seq<Event>, second: Event)
    requires GoodHash(setting.hash) && w.volume.Fresh?
    requires forall i | 0 <= i < |events| :: Salted(events[i])
    requires Salted(first) && forall i | 0 <= i < |between| :: Salted(between[i]) && !Discards(between[i])
    requires !Discards(second)
    requires ToldAt(Replay(setting, w, events).volume, first)
    requires ToldAt(Replay(setting, w, events + [first] + between).volume, second)
    requires Started(setting, Replay(setting, w, events), first).Some?
    requires Started(setting, Replay(setting, w, events + [first] + between), second).Some?
    ensures var one := Started(setting, Replay(setting, w, events), first).value;
            var other := Started(setting, Replay(setting, w, events + [first] + between), second).value;
            var volume := Replay(setting, w, events + [first]).volume;
            && volume.Built?
            && Replay(setting, w, events + [first] + between + [second]).volume == volume
            && (':' !in volume.user && ':' !in one.0 && ':' !in other.0 ==> one == other)
  {
    hide Started, ToldAt, GoodHash, Salted, Replay, Discards;
    ColonFreeStartsMatchTheVolume(setting, w, events, first);
    ColonFreeStartsMatchTheVolume(setting, w, events + [first] + between, second);
    ReplayConcat(setting, w, events + [first], between + [second]);
    BuiltVolumesSurvive(setting, Replay(setting, w, events + [first]), between + [second]);
    assert events + [first] + (between + [second]) == events + [first] + between + [second];
  }

  /** `reset` clears a mismatch: whatever the volume was built with, once the volumes are gone the
      doctor admits the pair in hand, and the start pins the new volume to it. */
  lemma ResetClearsAMismatch(setting: Setting, w: World, attempt: Attempt)
    requires Quiet(attempt.probe) && attempt.docker == Ready && attempt.started
    requires Missing(setting.exampleText, w.envText, w.environ) == {}
    requires Pair(w).0 != "" && Pair(w).1 != ""
    ensures Started(setting, w, Reset(true, attempt)) == Some(Pair(w))
    ensures var volume := Apply(setting, w, Reset(true, attempt)).volume;
            volume.Built? && (volume.user, volume.password) == Pair(w)
  {
    hide Quiet, Missing, EffectiveValue, InitRecord;
    FreshIsAdmitted(setting, Cleaned(w, true), attempt);
    assert Pair(Cleaned(w, true)) == Pair(w);
  }
}
