/** The ordered checks: which run, what each says, and what the run as a whole says. */
module Doctor {
  import opened Wrappers
  import opened Text
  import opened Credentials
  import opened VolumeReport

  datatype Docker = Absent | Stopped | Ready

  datatype Status = OK | FAIL | UNKNOWN

  datatype Name = RuntimeCheck | CredentialsCheck | PostgresVolumeCheck

  /** A detail either says a check never ran and after whose failure, or is about the check itself. */
  datatype Detail = NotChecked(stoppedAt: Name) | Finding

  datatype Verdict = Verdict(name: Name, status: Status, detail: Detail)

  const ORDER := [RuntimeCheck, CredentialsCheck, PostgresVolumeCheck]

  const POSTGRES_USER := "POSTGRES_USER"
  const POSTGRES_PASSWORD := "POSTGRES_PASSWORD"

  datatype Inputs = Inputs(docker: Docker, exampleText: string, envText: Option<string>, environ: Pairs) {
    function User(): string { EffectiveValue(POSTGRES_USER, envText, environ) }

    function Password(): string { EffectiveValue(POSTGRES_PASSWORD, envText, environ) }

    function Unset(): set<string> { Missing(exampleText, envText, environ) }
  }

  /** Reading the volume starts a container, so how often it is read matters. */
  class Probe {
    const answer: VolumeState
    var readings: nat

    constructor (answer: VolumeState)
      ensures this.answer == answer && readings == 0
    {
      this.answer := answer;
      readings := 0;
    }

    method Read() returns (state: VolumeState)
      modifies this
      ensures state == answer && readings == old(readings) + 1
    {
      readings := readings + 1;
      state := answer;
    }
  }

  // ---------------------------------------------------------------- the checks

  function CheckRuntime(docker: Docker): Verdict {
    Verdict(RuntimeCheck, if docker == Ready then OK else FAIL, Finding)
  }

  /** A variable is set when the shell exports more than blanks for it, or the file binds it to something. */
  predicate IsSet(inputs: Inputs, name: string) {
    || (name in inputs.environ && exists c :: c in inputs.environ[name] && !IsSpace(c))
    || (inputs.envText.Some? && name in EnvPairs(inputs.envText.value) && EnvPairs(inputs.envText.value)[name] != "")
  }

  /** Every variable the example declares is set. */
  predicate AllSet(inputs: Inputs) {
    forall name | name in EnvPairs(inputs.exampleText) :: IsSet(inputs, name)
  }

  lemma AllSetExactly(inputs: Inputs)
    ensures inputs.Unset() == {} <==> AllSet(inputs)
  {
    MissingMeans(inputs.exampleText, inputs.envText, inputs.environ);
    hide EnvPairs, Missing, IsSpace;
    forall name ensures name in inputs.Unset() <==> name in EnvPairs(inputs.exampleText) && !IsSet(inputs, name) {
    }
  }

  method CheckCredentials(inputs: Inputs) returns (verdict: Verdict)
    ensures verdict.status == (if AllSet(inputs) then OK else FAIL)
    ensures verdict == Verdict(CredentialsCheck, if inputs.Unset() == {} then OK else FAIL, Finding)
  {
    AllSetExactly(inputs);
    hide AllSet, IsSet;
    var missing := MissingCredentials(inputs.exampleText, inputs.envText, inputs.environ);
    verdict := Verdict(CredentialsCheck, if missing != {} then FAIL else OK, Finding);
  }

  function CheckPostgresVolume(hash: Digest, volume: VolumeState, user: string, password: string): Verdict {
    var status := match volume
      case Empty => OK
      case Fingerprinted(salt, digest) => if digest == Fingerprint(hash, salt, user, password) then OK else FAIL
      case Unfingerprinted => UNKNOWN
      case Unreadable(_) => UNKNOWN;
    Verdict(PostgresVolumeCheck, status, Finding)
  }

  // ---------------------------------------------------------------- the run

  function Skipped(name: Name, after: Name): Verdict {
    Verdict(name, UNKNOWN, NotChecked(after))
  }

  predicate ReachesVolume(inputs: Inputs) {
    inputs.docker == Ready && inputs.Unset() == {}
  }

  /** The three verdicts, as a table of how far the run gets. */
  function Verdicts(hash: Digest, inputs: Inputs, volume: VolumeState): seq<Verdict> {
    if inputs.docker != Ready then
      [Verdict(RuntimeCheck, FAIL, Finding),
       Skipped(CredentialsCheck, RuntimeCheck), Skipped(PostgresVolumeCheck, RuntimeCheck)]
    else if inputs.Unset() != {} then
      [Verdict(RuntimeCheck, OK, Finding), Verdict(CredentialsCheck, FAIL, Finding),
       Skipped(PostgresVolumeCheck, CredentialsCheck)]
    else
      [Verdict(RuntimeCheck, OK, Finding), Verdict(CredentialsCheck, OK, Finding),
       CheckPostgresVolume(hash, volume, inputs.User(), inputs.Password())]
  }

  method Run(hash: Digest, inputs: Inputs, probe: Probe) returns (results: seq<Verdict>)
    modifies probe
    ensures results == Verdicts(hash, inputs, probe.answer)
    ensures probe.readings == old(probe.readings) + if ReachesVolume(inputs) then 1 else 0
  {
    hide EffectiveValue, Missing, Verdicts, CheckPostgresVolume, SkippedAmong, Checked;
    results := [CheckRuntime(inputs.docker)];
    if results[|results| - 1].status != FAIL {
      var verdict := CheckCredentials(inputs);
      results := results + [verdict];
    }
    if results[|results| - 1].status != FAIL {
      var volume := probe.Read();
      results := results + [CheckPostgresVolume(hash, volume, inputs.User(), inputs.Password())];
    }

    var stoppedAt := results[|results| - 1];
    var checked := results;
    CheckedThenSkipped(hash, inputs, probe.answer, checked);
    NothingSkippedYet(checked, stoppedAt.name);
    for i := 0 to |ORDER|
      invariant results == checked + SkippedAmong(checked, stoppedAt.name, i)
      invariant probe.readings == old(probe.readings) + if ReachesVolume(inputs) then 1 else 0
    {
      SkipNext(checked, stoppedAt.name, i);
      if !Checked(checked, ORDER[i]) {
        results := results + [Skipped(ORDER[i], stoppedAt.name)];
      }
    }
  }

  function SkippedAmong(checked: seq<Verdict>, stoppedAt: Name, upTo: nat): seq<Verdict>
    requires upTo <= |ORDER|
  {
    if upTo == 0 then []
    else SkippedAmong(checked, stoppedAt, upTo - 1) +
         if Checked(checked, ORDER[upTo - 1]) then [] else [Skipped(ORDER[upTo - 1], stoppedAt)]
  }

  lemma NothingSkippedYet(checked: seq<Verdict>, stoppedAt: Name)
    ensures checked == checked + SkippedAmong(checked, stoppedAt, 0)
  {
  }

  lemma SkipNext(checked: seq<Verdict>, stoppedAt: Name, i: nat)
    requires i < |ORDER|
    ensures checked + SkippedAmong(checked, stoppedAt, i + 1) ==
            checked + SkippedAmong(checked, stoppedAt, i)
            + if Checked(checked, ORDER[i]) then [] else [Skipped(ORDER[i], stoppedAt)]
  {
    hide Checked;
  }

  /** The checks that run, and then the rest of the order, are the table. */
  lemma CheckedThenSkipped(hash: Digest, inputs: Inputs, volume: VolumeState, checked: seq<Verdict>)
    requires checked == [CheckRuntime(inputs.docker)]
               + (if inputs.docker != Ready then []
                  else [Verdict(CredentialsCheck, if inputs.Unset() == {} then OK else FAIL, Finding)])
               + (if !ReachesVolume(inputs) then []
                  else [CheckPostgresVolume(hash, volume, inputs.User(), inputs.Password())])
    ensures checked + SkippedAmong(checked, checked[|checked| - 1].name, |ORDER|) == Verdicts(hash, inputs, volume)
  {
    hide EffectiveValue, Missing, Fingerprint, SkippedAmong;
    SkippedAreTheRest(checked, checked[|checked| - 1].name);
  }

  predicate Checked(checked: seq<Verdict>, name: Name) {
    exists i | 0 <= i < |checked| :: checked[i].name == name
  }

  /** Checks that ran in order leave the rest of the order to be skipped. */
  lemma SkippedAreTheRest(checked: seq<Verdict>, stoppedAt: Name)
    requires 0 < |checked| <= |ORDER| && forall i | 0 <= i < |checked| :: checked[i].name == ORDER[i]
    ensures SkippedAmong(checked, stoppedAt, |ORDER|) ==
            if |checked| == 1 then [Skipped(CredentialsCheck, stoppedAt), Skipped(PostgresVolumeCheck, stoppedAt)]
            else if |checked| == 2 then [Skipped(PostgresVolumeCheck, stoppedAt)]
            else []
  {
    assert checked[0].name == RuntimeCheck;
    assert |checked| > 1 ==> checked[1].name == CredentialsCheck;
    assert |checked| > 2 ==> checked[2].name == PostgresVolumeCheck;
    assert SkippedAmong(checked, stoppedAt, 1) == [];
    assert SkippedAmong(checked, stoppedAt, 2) == if |checked| == 1 then [Skipped(CredentialsCheck, stoppedAt)] else [];
  }

  function ExitCode(results: seq<Verdict>): int {
    if exists verdict | verdict in results :: verdict.status == FAIL then 1 else 0
  }

  // ---------------------------------------------------------------- what a run means

  /** Every run names the three checks in order; at most one fails, and everything after a failure
      is unknown and says which check failed; nothing else says so. */
  lemma RunsAreCoherent(hash: Digest, inputs: Inputs, volume: VolumeState)
    ensures var results := Verdicts(hash, inputs, volume);
            && |results| == |ORDER|
            && (forall i | 0 <= i < |ORDER| :: results[i].name == ORDER[i])
            && (forall i, j | 0 <= i < j < |ORDER| && results[i].status == FAIL ::
                  results[j] == Skipped(ORDER[j], ORDER[i]))
            && (forall j | 0 <= j < |ORDER| && results[j].detail.NotChecked? ::
                  exists i :: 0 <= i < j && results[i].status == FAIL
                    && results[j].detail == NotChecked(results[i].name))
            && (ReachesVolume(inputs) <==> results[0].status == OK && results[1].status == OK)
  {
    var results := Verdicts(hash, inputs, volume);
    forall j | 0 <= j < |ORDER| && results[j].detail.NotChecked?
      ensures exists i :: 0 <= i < j && results[i].status == FAIL && results[j].detail == NotChecked(results[i].name)
    {
      var i := if inputs.docker != Ready then 0 else 1;
      assert results[i].status == FAIL && results[j].detail == NotChecked(results[i].name);
    }
  }

  lemma ReachesExactly(inputs: Inputs)
    ensures ReachesVolume(inputs) <==> inputs.docker == Ready && AllSet(inputs)
  {
    AllSetExactly(inputs);
  }

  /** The exit code is 1 for exactly three reasons. In particular an unknown verdict never is one. */
  lemma ExitCodeMeans(hash: Digest, inputs: Inputs, volume: VolumeState)
    ensures ExitCode(Verdicts(hash, inputs, volume)) == 1 <==>
            || inputs.docker != Ready
            || !AllSet(inputs)
            || (volume.Fingerprinted?
                && volume.digest != Fingerprint(hash, volume.salt, inputs.User(), inputs.Password()))
  {
    AllSetExactly(inputs);
    hide EffectiveValue, Missing, AllSet, IsSet;
    var results := Verdicts(hash, inputs, volume);
    assert results == [results[0], results[1], results[2]];
    assert forall verdict :: verdict in results <==>
        verdict == results[0] || verdict == results[1] || verdict == results[2];
  }

  /** In files printed from entries: every name the example binds is exported with more than blanks, or the
      last entry that binds it binds it to something. */
  lemma AllSetInFiles(example: seq<Entry>, env: seq<Entry>, environ: Pairs, docker: Docker)
    requires forall i | 0 <= i < |example| :: Printable(example[i])
    requires forall i | 0 <= i < |env| :: Printable(env[i])
    ensures AllSet(Inputs(docker, Print(example), Some(Print(env)), environ)) <==>
            forall entry | entry in example && entry.Binding? :: Exported(environ, entry.name) || Bound(env, entry.name)
    ensures AllSet(Inputs(docker, Print(example), None, environ)) <==>
            forall entry | entry in example && entry.Binding? :: Exported(environ, entry.name)
  {
    hide Print, Printable, EnvPairs, IsSpace;
    PrintThenParse(example);
    PrintThenParse(env);
    forall name
      ensures name in Meaning(example) <==> exists entry :: entry in example && entry.Binding? && entry.name == name
      ensures Bound(env, name) <==> name in Meaning(env) && Meaning(env)[name] != ""
    {
      MeaningBinds(example, name);
      BoundExactly(env, name);
    }
    hide Meaning, Bound;
  }

  predicate Exported(environ: Pairs, name: string) {
    name in environ && exists c :: c in environ[name] && !IsSpace(c)
  }

  ghost predicate Bound(env: seq<Entry>, name: string) {
    exists i: nat, value :: BindsLast(env, i, name, value) && value != ""
  }

  lemma BoundExactly(env: seq<Entry>, name: string)
    ensures Bound(env, name) <==> name in Meaning(env) && Meaning(env)[name] != ""
  {
    if name in Meaning(env) {
      MeaningIsLast(env, name, Meaning(env)[name]);
    }
    if i: nat, value :| BindsLast(env, i, name, value) && value != "" {
      MeaningIsLast(env, name, value);
    }
  }

  /** The pair the volume is compared with is what the shell or else the file holds for the two variables. */
  lemma PairIsResolved(docker: Docker, exampleText: string, env: seq<Entry>, environ: Pairs)
    requires forall i | 0 <= i < |env| :: Printable(env[i])
    ensures var inputs := Inputs(docker, exampleText, Some(Print(env)), environ);
            && inputs.User() == (if Exported(environ, "POSTGRES_USER") then environ["POSTGRES_USER"]
                                 else if "POSTGRES_USER" in Meaning(env) then Meaning(env)["POSTGRES_USER"] else "")
            && inputs.Password() == (if Exported(environ, "POSTGRES_PASSWORD") then environ["POSTGRES_PASSWORD"]
                                     else if "POSTGRES_PASSWORD" in Meaning(env) then Meaning(env)["POSTGRES_PASSWORD"]
                                     else "")
  {
    hide EffectiveValue, Printable, Meaning, IsSpace;
    ShellWinsOverFile("POSTGRES_USER", env, environ);
    ShellWinsOverFile("POSTGRES_PASSWORD", env, environ);
  }

  /** If the example declares both halves of the pair, the volume is never compared against an
      empty one. */
  lemma ComparedPairIsSet(inputs: Inputs)
    requires POSTGRES_USER in EnvPairs(inputs.exampleText) && POSTGRES_PASSWORD in EnvPairs(inputs.exampleText)
    requires ReachesVolume(inputs)
    ensures inputs.User() != "" && inputs.Password() != ""
  {
    assert POSTGRES_USER !in inputs.Unset() && POSTGRES_PASSWORD !in inputs.Unset();
  }

  /** End to end: credentials recorded at the first initialisation, reported behind any narration,
      parsed and checked, pass exactly when the pair in hand is the recorded one, up to a colon
      having moved between user and password, and fail otherwise. */
  lemma RecordedPairIsChecked(
    hash: Digest, salt: string, user: string, password: string, noise: string, stderr: string,
    user': string, password': string)
    requires Injective(hash) && HexDigest(hash) && Hex(salt) && Narration(noise)
    ensures var stdout := noise + Report(InitRecord(hash, salt, user, password), true);
            var same := (user == user' && password == password')
                        || ColonMoved(user, password, user', password') || ColonMoved(user', password', user, password);
            CheckPostgresVolume(hash, Parsed(0, stdout, stderr), user', password').status == if same then OK else FAIL
  {
    hide ColonMoved, Report, Parsed, Narration;
    RecordIsRead(noise, salt, Fingerprint(hash, salt, user, password), true, stderr);
    FingerprintsAgree(hash, salt, user, password, user', password');
  }

  /** For users without a colon: exactly the recorded pair passes. */
  lemma ColonFreePairIsChecked(
    hash: Digest, salt: string, user: string, password: string, noise: string, stderr: string,
    user': string, password': string)
    requires Injective(hash) && HexDigest(hash) && Hex(salt) && Narration(noise)
    requires ':' !in user && ':' !in user'
    ensures var stdout := noise + Report(InitRecord(hash, salt, user, password), true);
            CheckPostgresVolume(hash, Parsed(0, stdout, stderr), user', password').status ==
            if user == user' && password == password' then OK else FAIL
  {
    hide Report, Parsed, Narration;
    RecordIsRead(noise, salt, Fingerprint(hash, salt, user, password), true, stderr);
    ColonFreeUsersAreTold(hash, salt, user, password, user', password');
  }

  /** Without a record: an empty volume passes whatever the pair, an initialised one cannot be told. */
  lemma AbsenceIsChecked(hash: Digest, initialised: bool, noise: string, stderr: string, user: string, password: string)
    requires Narration(noise)
    ensures CheckPostgresVolume(hash, Parsed(0, noise + Report(None, initialised), stderr), user, password).status ==
            if initialised then UNKNOWN else OK
  {
    AbsenceIsRead(noise, initialised, stderr);
  }

  /** A probe that failed or said nothing readable is neither a pass nor a failure. */
  lemma UnreadableIsUnknown(
    hash: Digest, returncode: int, stdout: string, stderr: string, user: string, password: string)
    requires returncode != 0 || NoMarks(Heard(stdout))
    ensures CheckPostgresVolume(hash, Parsed(returncode, stdout, stderr), user, password).status == UNKNOWN
  {
    FailuresAreUnreadable(returncode, stdout, stderr);
  }

  /** Whatever a record file holds: unknown exactly when its first line that is not blank is not two
      non-empty halves, and else passed or failed by those halves. */
  lemma RecordFileIsChecked(
    hash: Digest, record: string, initialised: bool, noise: string, stderr: string, user: string, password: string)
    requires Narration(noise)
    ensures var status := CheckPostgresVolume(
              hash, Parsed(0, noise + Report(Some(record), initialised), stderr), user, password).status;
            && (status == UNKNOWN <==> Heard(record) == [] || !TwoHalves(Heard(record)[0]))
            && (forall salt, digest | Heard(record) != [] && IsHalved(Heard(record)[0], salt, digest) ::
                  status == if digest == Fingerprint(hash, salt, user, password) then OK else FAIL)
  {
    hide Heard, Parsed, Narration, Report, IsHalved, Fingerprint;
    MalformedRecordIsUnreadable(noise, record, initialised, stderr);
    if Heard(record) != [] && TwoHalves(Heard(record)[0]) {
      var salt, digest :| IsHalved(Heard(record)[0], salt, digest);
      assert Parsed(0, noise + Report(Some(record), initialised), stderr) == Fingerprinted(salt, digest);
    }
  }
}
