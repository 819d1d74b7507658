/**
  The check that the QGIS project holds the layers the plugin works on:
  each required name must be carried by exactly one layer, and that layer
  must be stored in PostgreSQL with PostGIS. A missing layer ends the check
  at once; a duplicated layer or one with another provider fails the check
  but lets it go on to the next name.
 */
module DofLayers {
  import opened Errors

  /** A map layer of the project: its name and the storage type its data
      provider reports. */
  datatype Layer = Layer(name: string, storageType: string)

  /** The layers of the QGIS project, in project order. */
  type Project = seq<Layer>

  /** The layers `DOFLayers` has found so far, by name. */
  type Found = map<string, Layer>

  const RequiredLayers: seq<string> := ["country", "obstacle", "us_state"]
  const ExpectedProvider: string := "PostgreSQL database with PostGIS extension"

  /** No name is required twice. */
  lemma RequiredLayersDistinct()
    ensures forall j, k :: 0 <= j < k < |RequiredLayers| ==> RequiredLayers[j] != RequiredLayers[k]
  {
    assert RequiredLayers[0][0] == 'c' && RequiredLayers[1][0] == 'o' && RequiredLayers[2][0] == 'u';
  }

  /** `mapLayersByName(name)`: the project's layers with that name, in
      project order. */
  function Matches(project: Project, name: string): (r: seq<Layer>)
    ensures forall i :: 0 <= i < |r| ==> r[i].name == name && r[i] in project
    ensures forall i :: 0 <= i < |project| && project[i].name == name ==> project[i] in r
    ensures |r| <= |project|
  {
    if |project| == 0 then []
    else if project[0].name == name then [project[0]] + Matches(project[1..], name)
    else Matches(project[1..], name)
  }

  /** `mapLayersByName` keeps every layer of the name as often as the project
      holds it, in any position, and no layer of another name. */
  lemma {:induction false} MatchesCount(project: Project, name: string)
    ensures forall l: Layer {:trigger multiset(Matches(project, name))[l]} ::
      multiset(Matches(project, name))[l] == if l.name == name then multiset(project)[l] else 0
  {
    if |project| > 0 {
      MatchesCount(project[1..], name);
      assert project == [project[0]] + project[1..];
      assert multiset(project) == multiset{project[0]} + multiset(project[1..]);
      if project[0].name == name {
        assert multiset(Matches(project, name)) == multiset{project[0]} + multiset(Matches(project[1..], name));
      }
    }
  }

  /** `find_layer`: the single layer carrying `name` is recorded; no such
      layer, or more than one, is an error and records nothing. */
  function FindLayer(found: Found, project: Project, name: string): (r: Result<Found>)
    ensures r.Ok? <==> |Matches(project, name)| == 1
    ensures r.Ok? ==> r.value == found[name := Matches(project, name)[0]]
    ensures |Matches(project, name)| == 0 ==> r == Err(NoLayersError(name))
    ensures |Matches(project, name)| > 1 ==> r == Err(LayerError(name))
  {
    var layers := Matches(project, name);
    if |layers| == 0 then Err(NoLayersError(name))
    else if |layers| > 1 then Err(LayerError(name))
    else Ok(found[name := layers[0]])
  }

  /** `check_provider`: the recorded layer for `name` must be stored in
      PostgreSQL with PostGIS. A name never recorded is a KeyError. */
  function CheckProvider(found: Found, name: string): (r: Result<bool>)
    ensures r.Ok? <==> name in found && found[name].storageType == ExpectedProvider
    ensures r.Ok? ==> r.value
    ensures name !in found ==> r == Err(KeyError(Values.Text(name)))
    ensures name in found && r.Err? ==> r.error == LayerError(name)
  {
    if name !in found then Err(KeyError(Values.Text(name)))
    else if found[name].storageType == ExpectedProvider then Ok(true)
    else Err(LayerError(name))
  }

  /** The project holds exactly one layer named `name`, and it is a PostGIS
      layer. */
  predicate Usable(project: Project, name: string) {
    var layers := Matches(project, name);
    |layers| == 1 && layers[0].storageType == ExpectedProvider
  }

  /** The position in `RequiredLayers`, from `k` on, of the first name no
      layer carries, or the length of the list when every name is carried. */
  function FirstMissingFrom(project: Project, k: nat): (m: nat)
    requires k <= |RequiredLayers|
    ensures k <= m <= |RequiredLayers|
    ensures forall j :: k <= j < m ==> |Matches(project, RequiredLayers[j])| > 0
    ensures m < |RequiredLayers| ==> |Matches(project, RequiredLayers[m])| == 0
    decreases |RequiredLayers| - k
  {
    if k == |RequiredLayers| then k
    else if |Matches(project, RequiredLayers[k])| == 0 then k
    else FirstMissingFrom(project, k + 1)
  }

  /** The required names `check_layers` looks at before it stops. */
  function Scanned(project: Project): nat {
    FirstMissingFrom(project, 0)
  }

  /** `recorded` is `found` with the single layer of each of the first `i`
      required names that has one; an entry of `found` for a name that is
      not among them, or that no single layer carries, is kept as it was. */
  ghost predicate RecordedFor(project: Project, found: Found, recorded: Found, i: nat)
    requires i <= |RequiredLayers|
  {
    && RecordsMatches(project, recorded, i)
    && RecordsOnly(project, found, recorded, i)
    && KeepsOthers(project, found, recorded, i)
  }

  /** Each of the first `i` required names carried by one layer is bound to it. */
  ghost predicate RecordsMatches(project: Project, recorded: Found, i: nat)
    requires i <= |RequiredLayers|
  {
    forall k :: 0 <= k < i && |Matches(project, RequiredLayers[k])| == 1 ==>
      RequiredLayers[k] in recorded && recorded[RequiredLayers[k]] == Matches(project, RequiredLayers[k])[0]
  }

  /** Only names of `found` and such names are bound. */
  ghost predicate RecordsOnly(project: Project, found: Found, recorded: Found, i: nat)
    requires i <= |RequiredLayers|
  {
    forall n :: n in recorded <==> n in found || (n in RequiredLayers[..i] && |Matches(project, n)| == 1)
  }

  /** Every other binding of `found` is kept. */
  ghost predicate KeepsOthers(project: Project, found: Found, recorded: Found, i: nat)
    requires i <= |RequiredLayers|
  {
    forall n :: n in found && (n !in RequiredLayers[..i] || |Matches(project, n)| != 1) ==>
      n in recorded && recorded[n] == found[n]
  }

  /** Looking at one more required name keeps `RecordedFor`. */
  lemma RecordStep(project: Project, found: Found, recorded: Found, i: nat)
    requires i < |RequiredLayers| && RecordedFor(project, found, recorded, i)
    ensures var name := RequiredLayers[i];
            var layers := Matches(project, name);
            RecordedFor(project, found, if |layers| == 1 then recorded[name := layers[0]] else recorded, i + 1)
  {
    var name := RequiredLayers[i];
    var layers := Matches(project, name);
    var next := if |layers| == 1 then recorded[name := layers[0]] else recorded;
    NameIsNew(i);
    RequiredPrefix(i);
    RecordStepRecords(project, found, recorded, i, next);
    RecordStepKeeps(project, found, recorded, i, next);
  }

  /** The `i`-th required name is not among the ones before it. */
  lemma NameIsNew(i: nat)
    requires i < |RequiredLayers|
    ensures RequiredLayers[i] !in RequiredLayers[..i]
  {
    RequiredLayersDistinct();
    forall j | 0 <= j < i ensures RequiredLayers[..i][j] != RequiredLayers[i] {
      assert RequiredLayers[..i][j] == RequiredLayers[j];
    }
  }

  /** The names up to `i` are those before it and the `i`-th. */
  lemma RequiredPrefix(i: nat)
    requires i < |RequiredLayers|
    ensures forall n :: n in RequiredLayers[..i + 1] <==> n in RequiredLayers[..i] || n == RequiredLayers[i]
  {
    assert RequiredLayers[..i + 1] == RequiredLayers[..i] + [RequiredLayers[i]];
  }

  /** The first two parts of `RecordedFor` for one step. */
  lemma RecordStepRecords(project: Project, found: Found, recorded: Found, i: nat, next: Found)
    requires i < |RequiredLayers| && RecordedFor(project, found, recorded, i)
    requires RequiredLayers[i] !in RequiredLayers[..i]
    requires forall n :: n in RequiredLayers[..i + 1] <==> n in RequiredLayers[..i] || n == RequiredLayers[i]
    requires var layers := Matches(project, RequiredLayers[i]);
             next == if |layers| == 1 then recorded[RequiredLayers[i] := layers[0]] else recorded
    ensures RecordsMatches(project, next, i + 1)
    ensures RecordsOnly(project, found, next, i + 1)
  {
    RequiredLayersDistinct();
    forall k | 0 <= k < i + 1 && |Matches(project, RequiredLayers[k])| == 1
      ensures RequiredLayers[k] in next && next[RequiredLayers[k]] == Matches(project, RequiredLayers[k])[0]
    {
      if k < i {
        assert RequiredLayers[k] != RequiredLayers[i];
      }
    }
  }

  /** The last part of `RecordedFor` for one step. */
  lemma RecordStepKeeps(project: Project, found: Found, recorded: Found, i: nat, next: Found)
    requires i < |RequiredLayers| && RecordedFor(project, found, recorded, i)
    requires RequiredLayers[i] !in RequiredLayers[..i]
    requires forall n :: n in RequiredLayers[..i + 1] <==> n in RequiredLayers[..i] || n == RequiredLayers[i]
    requires var layers := Matches(project, RequiredLayers[i]);
             next == if |layers| == 1 then recorded[RequiredLayers[i] := layers[0]] else recorded
    ensures KeepsOthers(project, found, next, i + 1)
  {
    forall n | n in found && (n !in RequiredLayers[..i + 1] || |Matches(project, n)| != 1)
      ensures n in next && next[n] == found[n]
    {
      if n == RequiredLayers[i] {
        assert recorded[n] == found[n];
      } else {
        assert next[n] == recorded[n];
      }
    }
  }

  /** One name passes `find_layer` and then `check_provider` exactly when it
      is usable. */
  lemma UsableStep(project: Project, found: Found, name: string)
    ensures var step := FindLayer(found, project, name);
            Usable(project, name) <==> step.Ok? && CheckProvider(step.value, name).Ok?
    ensures FindLayer(found, project, name).Err? ==> !Usable(project, name)
  {
  }

  /** `check_layers`: true exactly when every required name is carried by
      one PostGIS layer. The layers found along the way are recorded for the
      names the scan reached and found exactly once; every other entry of
      `found` is kept. */
  method CheckLayers(project: Project, found: Found) returns (ok: bool, recorded: Found)
    ensures ok <==> forall k :: 0 <= k < |RequiredLayers| ==> Usable(project, RequiredLayers[k])
    ensures RecordedFor(project, found, recorded, Scanned(project))
  {
    ok := true;
    recorded := found;
    var i := 0;
    while i < |RequiredLayers|
      invariant 0 <= i <= |RequiredLayers|
      invariant FirstMissingFrom(project, 0) >= i
      invariant ok <==> UsableUpTo(project, i)
      invariant RecordedFor(project, found, recorded, i)
    {
      var name := RequiredLayers[i];
      RecordStep(project, found, recorded, i);
      UsableUpToStep(project, i);
      var step := FindLayer(recorded, project, name);
      UsableStep(project, recorded, name);
      if step.Err? && step.error.NoLayersError? {
        assert FirstMissingFrom(project, 0) == i;
        ok := false;
        break;
      }
      if step.Err? {
        ok := false;
      } else {
        recorded := step.value;
        if CheckProvider(recorded, name).Err? {
          ok := false;
        }
      }
      i := i + 1;
    }
    if i < |RequiredLayers| {
      assert !Usable(project, RequiredLayers[i]);
    }
  }

  /** Each of the first `i` required names is usable. */
  predicate UsableUpTo(project: Project, i: nat)
    requires i <= |RequiredLayers|
  {
    forall k :: 0 <= k < i ==> Usable(project, RequiredLayers[k])
  }

  /** Usability up to one more name. */
  lemma UsableUpToStep(project: Project, i: nat)
    requires i < |RequiredLayers|
    ensures UsableUpTo(project, i + 1) <==> UsableUpTo(project, i) && Usable(project, RequiredLayers[i])
  {
  }

  /** The scan stops at the first missing name: the names after it are
      neither recorded nor checked, whatever layers carry them. */
  lemma NothingRecordedPastMissing(project: Project, found: Found, recorded: Found, k: nat)
    requires RecordedFor(project, found, recorded, Scanned(project))
    requires Scanned(project) <= k < |RequiredLayers|
    ensures RequiredLayers[k] in recorded <==> RequiredLayers[k] in found
    ensures RequiredLayers[k] in found ==> recorded[RequiredLayers[k]] == found[RequiredLayers[k]]
  {
    RequiredLayersDistinct();
    var name := RequiredLayers[k];
    assert name !in RequiredLayers[..Scanned(project)] by {
      forall j | 0 <= j < Scanned(project) ensures RequiredLayers[..Scanned(project)][j] != name {
        assert RequiredLayers[..Scanned(project)][j] == RequiredLayers[j];
      }
    }
  }
}
