/** The generation-guarded feature store of src/onelo/_cache.py.

    `Store` is the value of the store together with the ready event that the cache
    sets and clears while it holds its lock; the functions below are the atomic
    effects of the cache's methods.  `ThreadSafeCache` is the mutable object, each
    of whose methods is shown to have exactly the corresponding effect. */
module FeatureCache {
  /** A decoded JSON value; `Scalar` carries the text that Python's `str` gives for it. */
  datatype Json = Text(text: string) | Object(fields: map<string, Json>) | Scalar(text: string)

  type WireState = map<string, Json>
  type Features = map<string, Json>

  /** A per-feature value in canonical form: an object is kept, anything else becomes a bare status. */
  function Normalize(value: Json): WireState {
    match value
    case Object(fields) => fields
    case _ => map["status" := Text(value.text)]
  }

  function NormalizeAll(features: Features): map<string, WireState> {
    map name | name in features :: Normalize(features[name])
  }

  /** What is stored for each feature of a snapshot: the object itself, or the bare status; nothing else. */
  lemma StoredForEach(features: Features)
    ensures forall name :: name in NormalizeAll(features) <==> name in features
    ensures forall name :: name in features && features[name].Object? ==>
              NormalizeAll(features)[name] == features[name].fields
    ensures forall name :: name in features && !features[name].Object? ==>
              NormalizeAll(features)[name] == map["status" := Text(features[name].text)]
  {
  }

  /** A canonical snapshot is stored as it is, under the same names. */
  lemma NormalizedStays(features: Features)
    ensures NormalizeAll(features).Keys == features.Keys
    ensures NormalizeAll(map name | name in features :: Object(NormalizeAll(features)[name])) == NormalizeAll(features)
  {
    var again := map name | name in features :: Object(NormalizeAll(features)[name]);
    assert forall name :: name in features ==> Normalize(again[name]) == NormalizeAll(features)[name];
  }

  /** What a consumer makes of one answer of the backend. `UpToDate` says that nothing is newer than the version
      the request asked about; `Noise` is an answer that does not
      reach the cache: a comment, an unknown event, a malformed payload, an error status. */
  datatype Answer = Snapshot(features: Features, version: int) | UpToDate | Noise

  datatype Store = Store(features: map<string, WireState>, version: int, generation: nat, ready: bool) {

    function BeginIdentity(): Store {
      Store(map[], 0, generation + 1, false)
    }

    function Apply(newFeatures: Features, newVersion: int, forGeneration: nat): Store {
      if forGeneration == generation then Store(NormalizeAll(newFeatures), newVersion, generation, true) else this
    }

    function Confirm(forGeneration: nat): Store {
      if forGeneration == generation then this.(ready := true) else this
    }

    function Handle(answer: Answer, forGeneration: nat): Store {
      match answer
      case Snapshot(newFeatures, newVersion) => Apply(newFeatures, newVersion, forGeneration)
      case UpToDate => Confirm(forGeneration)
      case Noise => this
    }
  }

  const EMPTY := Store(map[], 0, 0, false)

  /** threading.Event, as far as the cache uses it. */
  class ReadyEvent {
    var isSet: bool

    constructor ()
      ensures !isSet
    {
      isSet := false;
    }
  }

  class ThreadSafeCache {
    var features: map<string, WireState>
    var configVersion: int
    var generation: nat

    constructor ()
      ensures features == map[] && configVersion == 0 && generation == 0
    {
      features, configVersion, generation := map[], 0, 0;
    }

    /** The store as seen together with a given ready event. */
    ghost function Value(ready: ReadyEvent?): Store
      reads this, ready
    {
      Store(features, configVersion, generation, ready != null && ready.isSet)
    }

    method GetState(name: string) returns (state: WireState)
      ensures state == if name in features then features[name] else map["status" := Text("hidden")]
    {
      if name in features {
        state := features[name];
      } else {
        state := map["status" := Text("hidden")];
      }
    }

    method ReplaceAll(newFeatures: Features, version: int)
      modifies this
      ensures features == NormalizeAll(newFeatures) && configVersion == version
      ensures forall name :: name in features <==> name in newFeatures
      ensures forall name :: name in newFeatures && newFeatures[name].Object? ==>
                features[name] == newFeatures[name].fields
      ensures forall name :: name in newFeatures && !newFeatures[name].Object? ==>
                features[name] == map["status" := Text(newFeatures[name].text)]
      ensures generation == old(generation)
    {
      features := map name | name in newFeatures :: Normalize(newFeatures[name]);
      configVersion := version;
    }

    method RequestView() returns (atGeneration: nat, sinceVersion: int)
      ensures atGeneration == generation && sinceVersion == configVersion
    {
      atGeneration, sinceVersion := generation, configVersion;
    }

    method BeginIdentity(ready: ReadyEvent?)
      modifies this, ready
      ensures Value(ready) == old(Value(ready)).BeginIdentity()
    {
      generation := generation + 1;
      features := map[];
      configVersion := 0;
      if ready != null {
        ready.isSet := false;
      }
    }

    /** `ok` tells whether the answer was for the current generation; if not, nothing moved. */
    method Apply(newFeatures: Features, version: int, forGeneration: nat, ready: ReadyEvent?) returns (ok: bool)
      modifies this, ready
      ensures ok == (forGeneration == old(generation))
      ensures ready != null ==>
                Value(ready) == old(Value(ready)).Apply(newFeatures, version, forGeneration)
      ensures ready == null ==>
                Value(null) == old(Value(null)).Apply(newFeatures, version, forGeneration).(ready := false)
    {
      if forGeneration != generation {
        return false;
      }
      ReplaceAll(newFeatures, version);
      if ready != null {
        ready.isSet := true;
      }
      return true;
    }

    method Confirm(forGeneration: nat, ready: ReadyEvent) returns (ok: bool)
      modifies ready
      ensures ok == (forGeneration == generation)
      ensures Value(ready) == old(Value(ready)).Confirm(forGeneration)
    {
      if forGeneration != generation {
        return false;
      }
      ready.isSet := true;
      return true;
    }
  }
}
