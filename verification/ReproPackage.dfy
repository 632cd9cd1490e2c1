/** The repro package: what the producer writes, and the verifier that recomputes
    the published numbers from the raw rows.
 */
module ReproPackage {
  import opened Common
  import opened Ndjson
  import opened Sorting
  import opened Texts

  const SCHEMA := "mind-mem/repro-package@1"
  const RAW := "raw.ndjson"
  const METRICS := "metrics.json"
  const DATASET := "dataset.json"
  const ENVIRONMENT := "environment.json"

  type MetricFn = seq<Json> -> Json

  /** The libraries: the JSON parser, what numbers print as, the text encoding and the hash, and the registered metric functions. */
  datatype Env = Env(parse: Parser, numerals: Numerals, utf8: string -> seq<nat>, sha256: seq<nat> -> string, metricFns: map<string, MetricFn>)

  /** What the manifest says of an artifact; a field may be absent. */
  datatype Meta = Meta(sha256: Option<string>, bytes: Option<int>)

  /** A manifest. An absent list of artifacts is an empty one, an absent benchmark
      has the empty name, and an absent headline is null. */
  datatype Manifest = Manifest(
    schema: Option<string>, benchmark: string, unitsTotal: Option<int>, unitsKilled: Option<int>,
    headline: Json, artifacts: map<string, Meta>)

  datatype ManifestFile = NoManifest | Unreadable | Stored(manifest: Manifest)

  /** A directory: its manifest, and the text of its other files. */
  datatype Package = Package(manifest: ManifestFile, files: map<string, string>)

  // ----- reading JSON values -----

  function GetFrom(fields: seq<Field>, key: string, default: Json): Json {
    if fields == [] then default
    else if fields[0].key == key then fields[0].value
    else GetFrom(fields[1..], key, default)
  }

  /** `value.get(key, default)` */
  function GetOr(j: Json, key: string, default: Json): Json {
    if j.Obj? then GetFrom(j.fields, key, default) else default
  }

  /** `value.get(key)`, null when it is absent. */
  function Get(j: Json, key: string): Json {
    GetOr(j, key, Null)
  }

  function MetaOf(env: Env, text: string): Meta {
    Meta(Some(env.sha256(env.utf8(text))), Some(|env.utf8(text)|))
  }

  /** A row without a unit status counts as one that ran. */
  predicate IsKilled(row: Json) {
    GetOr(row, "unit_status", Str("ok")) != Str("ok")
  }

  function Killed(rows: seq<Json>): (n: nat)
    ensures n <= |rows|
  {
    if rows == [] then 0 else Killed(rows[..|rows| - 1]) + if IsKilled(rows[|rows| - 1]) then 1 else 0
  }

  function Disagreeing(recomputed: Json): Json {
    GetOr(GetOr(recomputed, "integrity", Obj([])), "rows_whose_stored_verdict_disagrees_with_their_evidence", Arr([]))
  }

  predicate IsEmpty(j: Json) {
    j == Arr([]) || j == Obj([]) || j == Str("")
  }

  /** No row stores a verdict that its own evidence contradicts. */
  predicate NoDisagreement(recomputed: Json) {
    IsEmpty(Disagreeing(recomputed))
  }

  // ----- the producer -----

  function Contents(rows: seq<Json>, metrics: Json, dataset: Json, environment: Json): map<string, string> {
    map[RAW := WriteRows(rows), METRICS := Canonical(metrics), DATASET := Canonical(dataset), ENVIRONMENT := Canonical(environment)]
  }

  function Stamped(env: Env, m: Manifest, files: map<string, string>): Manifest {
    m.(artifacts := map name | name in files :: MetaOf(env, files[name]))
  }

  method JoinRows(rows: seq<Json>) returns (raw: string)
    ensures raw == WriteRows(rows)
  {
    raw := "";
    assert rows[0..] == rows;
    for i := 0 to |rows|
      invariant raw + WriteRows(rows[i..]) == WriteRows(rows)
    {
      assert rows[i..][0] == rows[i] && rows[i..][1..] == rows[i + 1..];
      raw := raw + Canonical(rows[i]);
    }
    assert raw + "" == raw;
  }

  /** The five files, the manifest stamped with the hashes of the others. */
  method WritePackage(env: Env, m: Manifest, rows: seq<Json>, metrics: Json, dataset: Json, environment: Json)
    returns (pkg: Package)
    ensures pkg == Written(env, m, rows, metrics, dataset, environment)
  {
    var raw := JoinRows(rows);
    var files := map[RAW := raw, METRICS := Canonical(metrics), DATASET := Canonical(dataset), ENVIRONMENT := Canonical(environment)];
    var onDisk, artifacts := StampAll(env, files);
    pkg := Package(Stored(m.(artifacts := artifacts)), onDisk);
  }

  method StampAll(env: Env, files: map<string, string>) returns (onDisk: map<string, string>, artifacts: map<string, Meta>)
    ensures onDisk == files
    ensures artifacts == map name | name in files :: MetaOf(env, files[name])
  {
    onDisk, artifacts := map[], map[];
    var todo := files.Keys;
    while todo != {}
      invariant todo <= files.Keys
      invariant onDisk == map name | name in files && name !in todo :: files[name]
      invariant artifacts == map name | name in files && name !in todo :: MetaOf(env, files[name])
    {
      var name :| name in todo;
      todo := todo - {name};
      onDisk := onDisk[name := files[name]];
      artifacts := artifacts[name := MetaOf(env, files[name])];
    }
  }

  function Written(env: Env, m: Manifest, rows: seq<Json>, metrics: Json, dataset: Json, environment: Json): Package {
    var files := Contents(rows, metrics, dataset, environment);
    Package(Stored(Stamped(env, m, files)), files)
  }

  // ----- what the verifier accepts -----

  predicate ArtifactsMatch(env: Env, m: Manifest, files: map<string, string>) {
    forall name :: name in m.artifacts ==> name in files && m.artifacts[name] == MetaOf(env, files[name])
  }

  /** The counters, the verdicts, the headline, and at least one unit that ran. */
  predicate DescribesRows(m: Manifest, rows: seq<Json>, recomputed: Json) {
    && NoDisagreement(recomputed)
    && m.unitsTotal == Some(|rows|)
    && m.unitsKilled == Some(Killed(rows))
    && (rows != [] ==> Killed(rows) < |rows|)
    && m.headline == Get(recomputed, "headline")
  }

  /** The checks that need the rows: the metrics recomputed from them, and what the manifest says of them. */
  predicate RowsBearOut(env: Env, m: Manifest, files: map<string, string>) {
    && m.benchmark in env.metricFns
    && RAW in files && METRICS in files
    && var rows := ParseLines(env.parse, Lines(files[RAW]));
    && rows.Some?
    && var recomputed := env.metricFns[m.benchmark](rows.value);
    && files[METRICS] == Canonical(recomputed)
    && DescribesRows(m, rows.value, recomputed)
  }

  predicate Accepts(env: Env, pkg: Package) {
    && pkg.manifest.Stored?
    && var m := pkg.manifest.manifest;
    && m.schema == Some(SCHEMA)
    && ArtifactsMatch(env, m, pkg.files)
    && RowsBearOut(env, m, pkg.files)
  }

  // ----- the verifier -----

  method CountKilled(rows: seq<Json>) returns (killed: nat)
    ensures killed == Killed(rows)
  {
    killed := 0;
    for i := 0 to |rows|
      invariant killed == Killed(rows[..i])
    {
      assert rows[..i + 1][..i] == rows[..i];
      if IsKilled(rows[i]) {
        killed := killed + 1;
      }
    }
    assert rows[..|rows|] == rows;
  }

  datatype Finding =
    | ManifestMissing
    | WrongSchema
    | ArtifactMissing(name: string)
    | HashDiffers(name: string)
    | LengthDiffers(name: string)
    | NoMetricFunction
    | RowsOrMetricsMissing
    | NotRecomputable
    | MetricDiffers(key: string)
    | VerdictsDisagree
    | WrongTotal
    | WrongKilled
    | Vacuous
    | WrongHeadline

  class Report {
    var checks: nat
    var failures: seq<Finding>

    constructor ()
      ensures checks == 0 && failures == []
    {
      checks, failures := 0, [];
    }

    method Check(ok: bool, finding: Finding) returns (r: bool)
      modifies this
      ensures r == ok && checks == old(checks) + 1
      ensures failures == old(failures) + Unless(ok, finding)
    {
      checks := checks + 1;
      if !ok {
        failures := failures + [finding];
      }
      r := ok;
    }

    predicate Passed()
      reads this
    {
      failures == []
    }

    method CheckArtifact(env: Env, m: Manifest, files: map<string, string>, name: string)
      requires name in m.artifacts
      modifies this
      ensures failures == old(failures) + ArtifactFinding(env, m, files, name)
    {
      var present := Check(name in files, ArtifactMissing(name));
      if !present {
        return;
      }
      var data := env.utf8(files[name]);
      var _ := Check(Some(env.sha256(data)) == m.artifacts[name].sha256, HashDiffers(name));
      var _ := Check(Some(|data|) == m.artifacts[name].bytes, LengthDiffers(name));
    }

    /** One finding for each fault of each artifact, by name. */
    method CheckArtifacts(env: Env, m: Manifest, files: map<string, string>) returns (names: seq<string>)
      modifies this
      ensures ListsInOrder(names, m.artifacts.Keys)
      ensures failures == old(failures) + ArtifactFindings(env, m, files, names)
    {
      names := SortedKeys(m.artifacts.Keys);
      for i := 0 to |names|
        invariant failures == old(failures) + ArtifactFindings(env, m, files, names[..i])
      {
        ArtifactOneMore(env, m, files, names, i, old(failures));
        CheckArtifact(env, m, files, names[i]);
      }
      assert names[..|names|] == names;
    }

    method CheckMetric(committed: Json, recomputed: Json, key: string)
      modifies this
      ensures failures == old(failures) + MetricFinding(committed, recomputed, key)
    {
      if Get(committed, key) != Get(recomputed, key) {
        var _ := Check(false, MetricDiffers(key));
      }
    }

    /** Names every top-level metric that differs. */
    method NameDifferences(committed: Json, recomputed: Json, keys: seq<string>)
      modifies this
      ensures failures == old(failures) + MetricFindings(committed, recomputed, keys)
    {
      for i := 0 to |keys|
        invariant failures == old(failures) + MetricFindings(committed, recomputed, keys[..i])
      {
        assert keys[..i + 1][..i] == keys[..i];
        Associative(old(failures), MetricFindings(committed, recomputed, keys[..i]), MetricFinding(committed, recomputed, keys[i]));
        CheckMetric(committed, recomputed, keys[i]);
      }
      assert keys[..|keys|] == keys;
    }

    method CheckRows(m: Manifest, rows: seq<Json>, recomputed: Json)
      modifies this
      ensures failures == WithRowFindings(old(failures), m, rows, recomputed)
    {
      var _ := Check(NoDisagreement(recomputed), VerdictsDisagree);
      var killed := CountKilled(rows);
      var _ := Check(m.unitsTotal == Some(|rows|), WrongTotal);
      var _ := Check(m.unitsKilled == Some(killed), WrongKilled);
      if rows != [] {
        var _ := Check(killed < |rows|, Vacuous);
      } else {
        assert failures + Unless(true, Vacuous) == failures;
      }
      var _ := Check(m.headline == Get(recomputed, "headline"), WrongHeadline);
    }
  }

  // ----- the findings as functions of the package -----

  function Unless(ok: bool, finding: Finding): (f: seq<Finding>)
    ensures f == [] <==> ok
  {
    if ok then [] else [finding]
  }

  function ArtifactFinding(env: Env, m: Manifest, files: map<string, string>, name: string): (f: seq<Finding>)
    requires name in m.artifacts
    ensures f == [] <==> name in files && m.artifacts[name] == MetaOf(env, files[name])
  {
    if name !in files then [ArtifactMissing(name)] else
      var stated, actual := m.artifacts[name], MetaOf(env, files[name]);
      Unless(actual.sha256 == stated.sha256, HashDiffers(name)) + Unless(actual.bytes == stated.bytes, LengthDiffers(name))
  }

  function ArtifactFindings(env: Env, m: Manifest, files: map<string, string>, names: seq<string>): seq<Finding>
    requires forall name :: name in names ==> name in m.artifacts
  {
    if names == [] then [] else
      var n := |names| - 1;
      assert names[n] in names && forall name :: name in names[..n] ==> name in names;
      ArtifactFindings(env, m, files, names[..n]) + ArtifactFinding(env, m, files, names[n])
  }

  lemma ArtifactOneMore(env: Env, m: Manifest, files: map<string, string>, names: seq<string>, i: nat, before: seq<Finding>)
    requires i < |names| && forall name :: name in names ==> name in m.artifacts
    ensures before + ArtifactFindings(env, m, files, names[..i + 1])
         == before + ArtifactFindings(env, m, files, names[..i]) + ArtifactFinding(env, m, files, names[i])
  {
    assert names[..i + 1][..i] == names[..i];
    Associative(before, ArtifactFindings(env, m, files, names[..i]), ArtifactFinding(env, m, files, names[i]));
  }

  function MetricFinding(committed: Json, recomputed: Json, key: string): seq<Finding> {
    Unless(Get(committed, key) == Get(recomputed, key), MetricDiffers(key))
  }

  function MetricFindings(committed: Json, recomputed: Json, keys: seq<string>): seq<Finding> {
    if keys == [] then [] else
      var n := |keys| - 1;
      MetricFindings(committed, recomputed, keys[..n]) + MetricFinding(committed, recomputed, keys[n])
  }

  function WithRowFindings(before: seq<Finding>, m: Manifest, rows: seq<Json>, recomputed: Json): (f: seq<Finding>)
    ensures before <= f && (f == before <==> DescribesRows(m, rows, recomputed))
  {
    before + Unless(NoDisagreement(recomputed), VerdictsDisagree)
    + Unless(m.unitsTotal == Some(|rows|), WrongTotal)
    + Unless(m.unitsKilled == Some(Killed(rows)), WrongKilled)
    + Unless(rows == [] || Killed(rows) < |rows|, Vacuous)
    + Unless(m.headline == Get(recomputed, "headline"), WrongHeadline)
  }

  /** The artifacts are in order exactly when none of them has a finding, and every finding of each is reported. */
  lemma {:induction false} ArtifactFindingsAre(env: Env, m: Manifest, files: map<string, string>, names: seq<string>)
    requires forall name :: name in names ==> name in m.artifacts
    ensures ArtifactFindings(env, m, files, names) == [] <==>
            forall name :: name in names ==> name in files && m.artifacts[name] == MetaOf(env, files[name])
    ensures forall name, f :: name in names && f in ArtifactFinding(env, m, files, name) ==>
            f in ArtifactFindings(env, m, files, names)
  {
    if names != [] {
      var n := |names| - 1;
      assert names == names[..n] + [names[n]];
      ArtifactFindingsAre(env, m, files, names[..n]);
    }
  }

  function KeysOf(j: Json): set<string> {
    if j.Obj? then set i | 0 <= i < |j.fields| :: j.fields[i].key else {}
  }

  method CheckMetrics(env: Env, stored: string, recomputed: Json, rep: Report) returns (raised: bool)
    modifies rep
    ensures old(rep.failures) <= rep.failures
    ensures raised ==> stored != Canonical(recomputed)
    ensures !raised ==> (rep.failures == old(rep.failures) <==> stored == Canonical(recomputed))
  {
    var same := rep.Check(Canonical(recomputed) == stored, NotRecomputable);
    if !same {
      var committed := env.parse(Strip(stored));
      if committed.None? {
        return true;
      }
      var keys := SortedKeys(KeysOf(committed.value) + KeysOf(recomputed));
      rep.NameDifferences(committed.value, recomputed, keys);
    }
    raised := false;
  }

  method VerifyRows(env: Env, m: Manifest, files: map<string, string>, rep: Report) returns (raised: bool)
    modifies rep
    ensures old(rep.failures) <= rep.failures
    ensures raised ==> !RowsBearOut(env, m, files)
    ensures !raised ==> (rep.failures == old(rep.failures) <==> RowsBearOut(env, m, files))
  {
    var registered := rep.Check(m.benchmark in env.metricFns, NoMetricFunction);
    if !registered {
      return false;
    }
    var complete := rep.Check(RAW in files && METRICS in files, RowsOrMetricsMissing);
    if !complete {
      return false;
    }
    var rows := ReadRows(env.parse, files[RAW]);
    if rows.None? {
      return true;
    }
    var recomputed := env.metricFns[m.benchmark](rows.value);
    raised := CheckMetrics(env, files[METRICS], recomputed, rep);
    if !raised {
      rep.CheckRows(m, rows.value, recomputed);
    }
  }

  /** Every fault of every artifact is among the findings. */
  ghost predicate FaultsNamed(env: Env, m: Manifest, files: map<string, string>, failures: seq<Finding>) {
    forall name, f :: name in m.artifacts && f in ArtifactFinding(env, m, files, name) ==> f in failures
  }

  lemma ArtifactsReported(env: Env, m: Manifest, files: map<string, string>, names: seq<string>, first: seq<Finding>)
    requires ListsInOrder(names, m.artifacts.Keys)
    ensures FaultsNamed(env, m, files, first + ArtifactFindings(env, m, files, names))
    ensures first + ArtifactFindings(env, m, files, names) == [] <==> first == [] && ArtifactsMatch(env, m, files)
  {
    ArtifactFindingsAre(env, m, files, names);
  }

  method VerifyManifest(env: Env, m: Manifest, files: map<string, string>, rep: Report) returns (raised: bool)
    requires rep.Passed()
    modifies rep
    ensures raised ==> !RowsBearOut(env, m, files)
    ensures !raised ==> (rep.Passed() <==> m.schema == Some(SCHEMA) && ArtifactsMatch(env, m, files) && RowsBearOut(env, m, files))
    ensures FaultsNamed(env, m, files, rep.failures)
  {
    var _ := rep.Check(m.schema == Some(SCHEMA), WrongSchema);
    ghost var first := rep.failures;
    var names := rep.CheckArtifacts(env, m, files);
    ArtifactsReported(env, m, files, names, first);
    ghost var before := rep.failures;
    raised := VerifyRows(env, m, files, rep);
    assert forall f :: f in before ==> f in rep.failures;
  }

  /** Runs every check on a package. Malformed text raises; otherwise the report
      passes exactly when the package is acceptable. Either way every fault of
      every artifact has been named. */
  method VerifyPackage(env: Env, pkg: Package) returns (rep: Report, raised: bool)
    ensures fresh(rep)
    ensures raised ==> !Accepts(env, pkg)
    ensures !raised ==> (rep.Passed() <==> Accepts(env, pkg))
    ensures pkg.manifest.Stored? ==> FaultsNamed(env, pkg.manifest.manifest, pkg.files, rep.failures)
  {
    rep := new Report();
    raised := false;
    match pkg.manifest
    case NoManifest =>
      var _ := rep.Check(false, ManifestMissing);
    case Unreadable =>
      raised := true;
    case Stored(m) =>
      raised := VerifyManifest(env, m, pkg.files, rep);
  }

  // ----- acceptance, on the fields of the rows -----

  /** Field `i` is the one that `key` names. */
  predicate FieldAt(j: Json, key: string, i: nat) {
    && j.Obj? && i < |j.fields| && j.fields[i].key == key
    && forall h | 0 <= h < i :: j.fields[h].key != key
  }

  ghost predicate HasField(j: Json, key: string) {
    exists i: nat :: FieldAt(j, key, i)
  }

  lemma {:induction false} GetFromIs(fields: seq<Field>, key: string, default: Json, i: nat)
    requires FieldAt(Obj(fields), key, i)
    ensures GetFrom(fields, key, default) == fields[i].value
  {
    if i != 0 {
      assert FieldAt(Obj(fields[1..]), key, i - 1);
      GetFromIs(fields[1..], key, default, i - 1);
    }
  }

  lemma {:induction false} GetFromAbsent(fields: seq<Field>, key: string, default: Json) returns (i: nat)
    ensures FieldAt(Obj(fields), key, i) || (!HasField(Obj(fields), key) && GetFrom(fields, key, default) == default)
  {
    i := 0;
    if fields != [] && fields[0].key != key {
      var k := GetFromAbsent(fields[1..], key, default);
      i := k + 1;
      forall h: nat | FieldAt(Obj(fields), key, h)
        ensures 0 < h && FieldAt(Obj(fields[1..]), key, h - 1)
      {
      }
    }
  }

  lemma FieldDecides(j: Json, key: string, default: Json)
    ensures forall i: nat | FieldAt(j, key, i) :: GetOr(j, key, default) == j.fields[i].value
    ensures !HasField(j, key) ==> GetOr(j, key, default) == default
  {
    if j.Obj? {
      var k := GetFromAbsent(j.fields, key, default);
      forall i: nat | FieldAt(j, key, i)
        ensures GetOr(j, key, default) == j.fields[i].value
      {
        GetFromIs(j.fields, key, default, i);
      }
    }
  }

  /** The row's unit status says something other than `ok`. */
  ghost predicate Failed(row: Json) {
    exists i: nat :: FieldAt(row, "unit_status", i) && row.fields[i].value != Str("ok")
  }

  lemma KilledMeansFailed(row: Json)
    ensures IsKilled(row) <==> Failed(row)
  {
    FieldDecides(row, "unit_status", Str("ok"));
  }

  ghost function FailedRows(rows: seq<Json>): set<nat> {
    set i: nat | i < |rows| && Failed(rows[i])
  }

  lemma FailedOneMore(rows: seq<Json>)
    requires rows != []
    ensures |FailedRows(rows)| == |FailedRows(rows[..|rows| - 1])| + if Failed(rows[|rows| - 1]) then 1 else 0
  {
    var n := |rows| - 1;
    if Failed(rows[n]) {
      assert FailedRows(rows) == FailedRows(rows[..n]) + {n};
    } else {
      assert FailedRows(rows) == FailedRows(rows[..n]);
    }
  }

  lemma {:induction false} KilledCount(rows: seq<Json>)
    ensures Killed(rows) == |FailedRows(rows)|
  {
    if rows != [] {
      KilledCount(rows[..|rows| - 1]);
      KilledMeansFailed(rows[|rows| - 1]);
      FailedOneMore(rows);
    }
  }

  lemma {:induction false} AllKilled(rows: seq<Json>)
    ensures Killed(rows) == |rows| <==> forall row | row in rows :: Failed(row)
  {
    if rows != [] {
      var n := |rows| - 1;
      AllKilled(rows[..n]);
      KilledMeansFailed(rows[n]);
      assert rows == rows[..n] + [rows[n]];
    }
  }

  /** The metrics list rows whose stored verdict their evidence contradicts. */
  ghost predicate ListsDisagreement(recomputed: Json) {
    exists i: nat, k: nat ::
      && FieldAt(recomputed, "integrity", i)
      && FieldAt(recomputed.fields[i].value, "rows_whose_stored_verdict_disagrees_with_their_evidence", k)
      && recomputed.fields[i].value.fields[k].value !in {Arr([]), Obj([]), Str("")}
  }

  lemma DisagreementIs(recomputed: Json)
    ensures NoDisagreement(recomputed) <==> !ListsDisagreement(recomputed)
  {
    FieldDecides(recomputed, "integrity", Obj([]));
    var integrity := GetOr(recomputed, "integrity", Obj([]));
    FieldDecides(integrity, "rows_whose_stored_verdict_disagrees_with_their_evidence", Arr([]));
  }

  /** `headline` is what the metrics give, null when they give none. */
  ghost predicate IsHeadline(recomputed: Json, headline: Json) {
    || (exists i: nat :: FieldAt(recomputed, "headline", i) && recomputed.fields[i].value == headline)
    || (!HasField(recomputed, "headline") && headline == Null)
  }

  lemma HeadlineIs(recomputed: Json, headline: Json)
    ensures headline == Get(recomputed, "headline") <==> IsHeadline(recomputed, headline)
  {
    FieldDecides(recomputed, "headline", Null);
  }

  /** What the manifest says of its rows is true, and something ran. */
  ghost predicate IsTrueOf(m: Manifest, rows: seq<Json>, recomputed: Json) {
    && m.unitsTotal == Some(|rows|)
    && m.unitsKilled == Some(|FailedRows(rows)|)
    && (rows != [] ==> exists row | row in rows :: !Failed(row))
    && IsHeadline(recomputed, m.headline)
    && !ListsDisagreement(recomputed)
  }

  lemma SomethingRan(rows: seq<Json>)
    ensures (rows != [] ==> Killed(rows) < |rows|) <==> (rows != [] ==> exists row | row in rows :: !Failed(row))
  {
    AllKilled(rows);
  }

  lemma DescribesMeansTrue(m: Manifest, rows: seq<Json>, recomputed: Json)
    ensures DescribesRows(m, rows, recomputed) <==> IsTrueOf(m, rows, recomputed)
  {
    KilledCount(rows);
    SomethingRan(rows);
    HeadlineIs(recomputed, m.headline);
    DisagreementIs(recomputed);
  }

  /** The rows of a package, when there are any to read. */
  ghost predicate HasRows(env: Env, pkg: Package, m: Manifest, rows: seq<Json>) {
    && pkg.manifest == Stored(m)
    && RAW in pkg.files
    && ParseLines(env.parse, Lines(pkg.files[RAW])) == Some(rows)
  }

  /** Every artifact of the manifest is there, with the hash and the length it states. */
  ghost predicate AsStamped(env: Env, m: Manifest, files: map<string, string>) {
    forall name :: name in m.artifacts ==>
      && name in files
      && m.artifacts[name].sha256 == Some(env.sha256(env.utf8(files[name])))
      && m.artifacts[name].bytes == Some(|env.utf8(files[name])|)
  }

  /** Main result: a readable package is accepted exactly when its artifacts are
      as stamped, its metrics are those of its rows, and on the fields of the
      rows the counters, the headline and the verdicts are true. */
  lemma AcceptedIff(env: Env, pkg: Package, m: Manifest, rows: seq<Json>)
    requires HasRows(env, pkg, m, rows)
    ensures Accepts(env, pkg) <==>
            && m.schema == Some(SCHEMA) && AsStamped(env, m, pkg.files)
            && m.benchmark in env.metricFns && METRICS in pkg.files
            && pkg.files[METRICS] == Canonical(env.metricFns[m.benchmark](rows))
            && IsTrueOf(m, rows, env.metricFns[m.benchmark](rows))
  {
    if m.benchmark in env.metricFns {
      DescribesMeansTrue(m, rows, env.metricFns[m.benchmark](rows));
    }
  }

  /** Main result: a package in which nothing ran is never accepted, and an
      accepted one counts its rows and its failed rows. */
  lemma AcceptedCounts(env: Env, pkg: Package, m: Manifest, rows: seq<Json>)
    requires HasRows(env, pkg, m, rows)
    ensures rows != [] && (forall row | row in rows :: Failed(row)) ==> !Accepts(env, pkg)
    ensures Accepts(env, pkg) ==> m.unitsTotal == Some(|rows|) && m.unitsKilled == Some(|FailedRows(rows)|)
  {
    AcceptedIff(env, pkg, m, rows);
  }

  /** A headline other than the recomputed one is rejected, and so is a list of disagreeing rows. */
  lemma FalseClaimsAreRejected(env: Env, pkg: Package, m: Manifest, rows: seq<Json>)
    requires HasRows(env, pkg, m, rows) && m.benchmark in env.metricFns
    ensures var recomputed := env.metricFns[m.benchmark](rows);
            !IsHeadline(recomputed, m.headline) || ListsDisagreement(recomputed) ==> !Accepts(env, pkg)
  {
    AcceptedIff(env, pkg, m, rows);
  }

  // ----- producer and verifier together -----

  lemma ContentsAt(rows: seq<Json>, metrics: Json, dataset: Json, environment: Json)
    ensures var files := Contents(rows, metrics, dataset, environment);
            RAW in files && METRICS in files && files[RAW] == WriteRows(rows) && files[METRICS] == Canonical(metrics)
  {
  }

  lemma StampedMatches(env: Env, m: Manifest, files: map<string, string>)
    ensures ArtifactsMatch(env, Stamped(env, m, files), files)
  {
  }

  /** What a producer must get right. */
  ghost predicate Consistent(env: Env, m: Manifest, rows: seq<Json>, metrics: Json) {
    && m.schema == Some(SCHEMA)
    && m.benchmark in env.metricFns
    && metrics == env.metricFns[m.benchmark](rows)
    && IsTrueOf(m, rows, metrics)
  }

  /** Main result: a written package is accepted exactly when its metrics are the
      metric function of its rows, its counters and headline match, no verdict
      disagrees, and something ran. */
  lemma WrittenIsAcceptedIff(env: Env, m: Manifest, rows: seq<Json>, metrics: Json, dataset: Json, environment: Json)
    requires ReadsBack(env.parse, env.numerals) && forall i | 0 <= i < |rows| :: WellFormed(env.numerals, rows[i])
    ensures Accepts(env, Written(env, m, rows, metrics, dataset, environment)) <==> Consistent(env, m, rows, metrics)
  {
    var files := Contents(rows, metrics, dataset, environment);
    ContentsAt(rows, metrics, dataset, environment);
    StampedMatches(env, m, files);
    RowsRoundTrip(env.parse, env.numerals, rows);
    StampedAccepted(env, m, rows, metrics, files);
  }

  lemma SameText(a: Json, b: Json)
    ensures Canonical(a) == Canonical(b) <==> a == b
  {
    if Canonical(a) == Canonical(b) {
      CanonicalInjective(a, b);
    }
  }

  /** What the rows bear out, when they are read as they were written. */
  lemma BorneOutIff(env: Env, m: Manifest, rows: seq<Json>, metrics: Json, files: map<string, string>)
    requires ParseLines(env.parse, Lines(WriteRows(rows))) == Some(rows)
    requires RAW in files && METRICS in files && files[RAW] == WriteRows(rows) && files[METRICS] == Canonical(metrics)
    ensures RowsBearOut(env, m, files) <==>
            m.benchmark in env.metricFns && metrics == env.metricFns[m.benchmark](rows) && DescribesRows(m, rows, metrics)
  {
    if m.benchmark in env.metricFns {
      SameText(metrics, env.metricFns[m.benchmark](rows));
    }
  }

  lemma StampedAccepted(env: Env, m: Manifest, rows: seq<Json>, metrics: Json, files: map<string, string>)
    requires ParseLines(env.parse, Lines(WriteRows(rows))) == Some(rows)
    requires ArtifactsMatch(env, Stamped(env, m, files), files)
    requires RAW in files && METRICS in files && files[RAW] == WriteRows(rows) && files[METRICS] == Canonical(metrics)
    ensures Accepts(env, Package(Stored(Stamped(env, m, files)), files)) <==> Consistent(env, m, rows, metrics)
  {
    BorneOutIff(env, Stamped(env, m, files), rows, metrics, files);
    DescribesMeansTrue(m, rows, metrics);
    DescribesMeansTrue(Stamped(env, m, files), rows, metrics);
  }

  ghost predicate DistinctDigests(env: Env) {
    (forall s, t :: env.utf8(s) == env.utf8(t) ==> s == t) && CollisionFree(env.sha256)
  }

  /** Main result: an artifact edited after the manifest was stamped is rejected, whatever the edit. */
  lemma EditedArtifactIsRejected(env: Env, m: Manifest, files: map<string, string>, name: string, text: string)
    requires DistinctDigests(env) && name in files && text != files[name]
    ensures !Accepts(env, Package(Stored(Stamped(env, m, files)), files[name := text]))
  {
    var stamped := Stamped(env, m, files);
    assert name in stamped.artifacts && stamped.artifacts[name] == MetaOf(env, files[name]);
    assert env.utf8(text) != env.utf8(files[name]);
    assert MetaOf(env, text).sha256 != MetaOf(env, files[name]).sha256;
  }

  /** So is one whose artifact was removed. */
  lemma RemovedArtifactIsRejected(env: Env, m: Manifest, files: map<string, string>, name: string)
    requires name in files
    ensures !Accepts(env, Package(Stored(Stamped(env, m, files)), files - {name}))
  {
    assert name in Stamped(env, m, files).artifacts;
  }
}
