/**
 * The scheduled-job state store: job states kept as strings in the data of a
 * single ConfigMap, `jobs-states` in namespace `robusta`, keyed by the
 * playbook id of the job. The store creates the ConfigMap lazily, and every
 * change reads the whole ConfigMap, changes one key and writes the whole
 * ConfigMap back.
 */
module ScheduledJobsStatesDal {
  import opened Wrappers
  import opened JobStateCodec
  import opened KeyOrder

  const CONFIGMAP_NAME: string := "jobs-states"
  const CONFIGMAP_NAMESPACE: string := "robusta"

  /** The reason of the API error that a read of a missing object fails with. */
  const NOT_FOUND: string := "Not Found"
  /** The reason of the API error that a create of an existing object fails with. */
  const CONFLICT: string := "Conflict"

  /** An error answered by the cluster's API, with its reason phrase. */
  datatype ApiError = ApiError(reason: string)

  /** What an operation of the store can raise. */
  datatype StoreError =
    | Api(cause: ApiError)                     // the cluster refused or failed a request
    | Corrupt(key: string, reason: DecodeError) // the value under `key` is not a job state

  datatype ObjectMeta = ObjectMeta(name: string, namespace: string)

  /** A ConfigMap as the cluster returns it: its metadata and its string data. */
  datatype ConfigMap = ConfigMap(metadata: ObjectMeta, data: map<string, string>)

  /** The well-known place of the store's ConfigMap. */
  const JOBS_STATES: ObjectMeta := ObjectMeta(CONFIGMAP_NAME, CONFIGMAP_NAMESPACE)

  /** Every value in the data is a job state. */
  predicate WellFormed(data: map<string, string>)
  {
    forall k :: k in data ==> Deserialize(data[k]).Success?
  }

  /**
   * The state filed under `id`: none when the key is absent, an error when
   * its value does not decode.
   */
  function LookupState(data: map<string, string>, id: string): (r: Result<Option<JobState>, StoreError>)
    ensures r == Success(None) <==> id !in data
    ensures r.Failure? <==> id in data && Deserialize(data[id]).Failure?
    ensures r.Failure? ==> r.error.Corrupt? && r.error.key == id
    ensures r.Success? && r.value.Some? ==> id in data && Deserialize(data[id]) == Success(r.value.value)
  {
    if id !in data then Success(None)
    else match Deserialize(data[id])
      case Failure(e) => Failure(Corrupt(id, e))
      case Success(s) => Success(Some(s))
  }

  /**
   * The states filed under `keys`, in that order; the first key whose value
   * does not decode fails the whole list.
   */
  function DecodeKeys(data: map<string, string>, keys: seq<string>): (r: Result<seq<JobState>, StoreError>)
    requires forall k :: k in keys ==> k in data
    ensures r.Success? ==> |r.value| == |keys|
  {
    if keys == [] then Success([])
    else match LookupState(data, keys[0])
      case Failure(e) => Failure(e)
      case Success(s) =>
        match DecodeKeys(data, keys[1..])
        case Failure(e) => Failure(e)
        case Success(rest) => Success([s.value] + rest)
  }

  /**
   * Decoding a listing succeeds exactly when every listed value decodes; it
   * then pairs each key with the state stored under it, and otherwise
   * reports the first key whose value does not decode.
   */
  lemma {:induction false} DecodeKeysMeaning(data: map<string, string>, keys: seq<string>)
    requires forall k :: k in keys ==> k in data
    ensures var r := DecodeKeys(data, keys);
      && (r.Success? <==> forall k :: k in keys ==> Deserialize(data[k]).Success?)
      && (r.Success? ==> forall i :: 0 <= i < |keys| ==> Deserialize(data[keys[i]]) == Success(r.value[i]))
      && (r.Failure? ==> r.error.Corrupt? && r.error.key in keys)
      && (r.Failure? ==> Deserialize(data[r.error.key]).Failure?)
      && (r.Failure? ==> forall j :: 0 <= j < IndexOf(keys, r.error.key) ==> Deserialize(data[keys[j]]).Success?)
  {
    if keys != [] {
      DecodeKeysMeaning(data, keys[1..]);
      var r := DecodeKeys(data, keys);
      if r.Success? {
        forall i | 0 <= i < |keys| ensures Deserialize(data[keys[i]]) == Success(r.value[i]) {
          if i > 0 { assert keys[i] == keys[1..][i - 1]; }
        }
      }
      if r.Failure? && r.error.key != keys[0] {
        assert keys == [keys[0]] + keys[1..];
      }
    }
  }

  /**
   * When `xs` decodes the values of `keys`, and `keys` lists every key of the
   * data, `xs` holds exactly the states some value of the data decodes to.
   */
  lemma DecodedAreStored(data: map<string, string>, keys: seq<string>, xs: seq<JobState>)
    requires |xs| == |keys| && forall k :: k in keys <==> k in data
    requires forall i :: 0 <= i < |keys| ==> Deserialize(data[keys[i]]) == Success(xs[i])
    ensures forall s :: s in xs <==> exists k :: k in data && Deserialize(data[k]) == Success(s)
  {
    forall s ensures s in xs <==> exists k :: k in data && Deserialize(data[k]) == Success(s) {
      if s in xs {
        var i :| 0 <= i < |xs| && xs[i] == s;
        assert keys[i] in data && Deserialize(data[keys[i]]) == Success(s);
      }
      if exists k :: k in data && Deserialize(data[k]) == Success(s) {
        var k :| k in data && Deserialize(data[k]) == Success(s);
        var i := IndexOf(keys, k);
        assert xs[i] == s;
      }
    }
  }

  /** Every state in the data, one per key, in the order the keys are listed. */
  function ListStates(data: map<string, string>): (r: Result<seq<JobState>, StoreError>)
    ensures r.Success? <==> WellFormed(data)
    ensures r.Success? ==> |r.value| == |data|
    ensures r.Success? ==> var keys := SortedKeys(data.Keys);
      |r.value| == |keys| && forall i :: 0 <= i < |keys| ==> Deserialize(data[keys[i]]) == Success(r.value[i])
    ensures r.Failure? ==> r.error.Corrupt? && r.error.key in data
  {
    DecodeKeysMeaning(data, SortedKeys(data.Keys));
    DecodeKeys(data, SortedKeys(data.Keys))
  }

  /** A successful listing holds exactly the states that some stored value decodes to. */
  lemma ListComplete(data: map<string, string>)
    requires ListStates(data).Success?
    ensures forall s :: s in ListStates(data).value <==> exists k :: k in data && Deserialize(data[k]) == Success(s)
  {
    DecodedAreStored(data, SortedKeys(data.Keys), ListStates(data).value);
  }

  /** Saving a state files exactly it under its id and changes no other key's lookup. */
  lemma GetAfterSave(data: map<string, string>, s: JobState, k: string)
    ensures LookupState(data[s.playbookId := Serialize(s)], k)
      == if k == s.playbookId then Success(Some(s)) else LookupState(data, k)
  {
    DecodeEncode(s);
  }

  /** After a delete the key is absent, and no other key's lookup changes. */
  lemma GetAfterDelete(data: map<string, string>, id: string, k: string)
    ensures LookupState(data - {id}, k) == if k == id then Success(None) else LookupState(data, k)
  {
  }

  /** Saving a state keeps every value decodable. */
  lemma SavePreservesWellFormed(data: map<string, string>, s: JobState)
    requires WellFormed(data)
    ensures WellFormed(data[s.playbookId := Serialize(s)])
  {
    DecodeEncode(s);
  }

  /** Deleting a key keeps every value decodable. */
  lemma DeletePreservesWellFormed(data: map<string, string>, id: string)
    requires WellFormed(data)
    ensures WellFormed(data - {id})
  {
  }

  /** Setting a key adds one entry exactly when the key is new. */
  lemma UpdateSize(data: map<string, string>, k: string, v: string)
    ensures |data[k := v]| == if k in data then |data| else |data| + 1
  {
    if k in data {
      assert data[k := v].Keys == data.Keys;
    } else {
      assert data[k := v].Keys == data.Keys + {k};
    }
  }

  /** The listing order of the keys left after a delete. */
  lemma KeysAfterDelete(data: map<string, string>, k: string)
    requires k in data
    ensures var keys := SortedKeys(data.Keys); var i := IndexOf(keys, k);
      SortedKeys((data - {k}).Keys) == keys[..i] + keys[i + 1..]
  {
    var s' := (data - {k}).Keys;
    assert s' == data.Keys - {k};
    SortedKeysRemove(data.Keys, k);
    assert SortedKeys(s') == SortedKeys(data.Keys - {k});
  }

  /**
   * After a save the listing still succeeds, holds the saved state, and is
   * one longer exactly when the id was new.
   */
  lemma ListAfterSave(data: map<string, string>, s: JobState)
    requires WellFormed(data)
    ensures var after := ListStates(data[s.playbookId := Serialize(s)]);
      && after.Success?
      && s in after.value
      && |after.value| == if s.playbookId in data then |data| else |data| + 1
  {
    var data' := data[s.playbookId := Serialize(s)];
    SavePreservesWellFormed(data, s);
    var after := ListStates(data');
    assert after.Success?;
    DecodeEncode(s);
    assert s.playbookId in data' && Deserialize(data'[s.playbookId]) == Success(s);
    ListComplete(data');
    UpdateSize(data, s.playbookId, Serialize(s));
  }

  /**
   * Deleting a key drops exactly its state from the listing and keeps the
   * others in order.
   */
  lemma ListAfterDelete(data: map<string, string>, k: string)
    requires k in data && WellFormed(data)
    ensures var xs := ListStates(data).value; var i := IndexOf(SortedKeys(data.Keys), k);
      ListStates(data - {k}) == Success(xs[..i] + xs[i + 1..])
  {
    var keys := SortedKeys(data.Keys);
    var i := IndexOf(keys, k);
    var data' := data - {k};
    DecodeKeysMeaning(data, keys);
    RemovedAgrees(data, keys, i);
    DecodeKeysDrop(data, data', keys, i);
    KeysAfterDelete(data, k);
  }

  /** Removing the key at one position of a repetition-free listing leaves every other listed key's value alone. */
  lemma RemovedAgrees(data: map<string, string>, keys: seq<string>, i: nat)
    requires i < |keys| && StrictlySorted(keys) && forall x :: x in keys ==> x in data
    ensures forall j :: 0 <= j < |keys| && j != i ==>
      keys[j] in data - {keys[i]} && (data - {keys[i]})[keys[j]] == data[keys[j]]
  {
    forall j | 0 <= j < |keys| && j != i
      ensures keys[j] in data - {keys[i]} && (data - {keys[i]})[keys[j]] == data[keys[j]]
    {
      assert keys[j] != keys[i];
    }
  }

  /** Decoding depends only on the values under the decoded keys. */
  lemma {:induction false} DecodeKeysAgree(d1: map<string, string>, d2: map<string, string>, keys: seq<string>)
    requires forall x :: x in keys ==> x in d1 && x in d2 && d1[x] == d2[x]
    ensures DecodeKeys(d1, keys) == DecodeKeys(d2, keys)
  {
    if keys != [] {
      DecodeKeysAgree(d1, d2, keys[1..]);
    }
  }

  /**
   * Decoding a listing with position `i` dropped, against data that agrees on
   * the keys still listed, drops exactly the state at position `i`.
   */
  lemma {:induction false} DecodeKeysDrop(data: map<string, string>, data': map<string, string>, keys: seq<string>, i: nat)
    requires i < |keys| && forall x :: x in keys ==> x in data
    requires DecodeKeys(data, keys).Success?
    requires forall j :: 0 <= j < |keys| && j != i ==> keys[j] in data' && data'[keys[j]] == data[keys[j]]
    ensures var xs := DecodeKeys(data, keys).value;
      DecodeKeys(data', keys[..i] + keys[i + 1..]) == Success(xs[..i] + xs[i + 1..])
  {
    var xs := DecodeKeys(data, keys).value;
    var rest := keys[1..];
    DecodeKeysUncons(data, keys);
    if i == 0 {
      assert keys[..i] + keys[i + 1..] == rest;
      forall x | x in rest ensures x in data' && data'[x] == data[x] {
        var j :| 0 <= j < |rest| && rest[j] == x;
        assert keys[j + 1] == x;
      }
      DecodeKeysAgree(data', data, rest);
      assert xs[..i] + xs[i + 1..] == xs[1..];
    } else {
      var ys := xs[1..];
      var rest' := rest[..i - 1] + rest[i..];
      DecodeKeysDrop(data, data', rest, i - 1);
      DecodeKeysCons(data', keys[0], rest', xs[0], ys[..i - 1] + ys[i..]);
      assert keys[..i] + keys[i + 1..] == [keys[0]] + rest';
      assert xs[..i] + xs[i + 1..] == [xs[0]] + (ys[..i - 1] + ys[i..]);
    }
  }

  /** A decoded listing is its head's state followed by its tail's states. */
  lemma DecodeKeysUncons(data: map<string, string>, keys: seq<string>)
    requires keys != [] && forall x :: x in keys ==> x in data
    requires DecodeKeys(data, keys).Success?
    ensures var xs := DecodeKeys(data, keys).value;
      && LookupState(data, keys[0]) == Success(Some(xs[0]))
      && DecodeKeys(data, keys[1..]) == Success(xs[1..])
  {
  }

  /** Decoding a listing with one more key in front puts that key's state in front. */
  lemma DecodeKeysCons(data: map<string, string>, k: string, keys: seq<string>, x: JobState, xs: seq<JobState>)
    requires forall y :: y in keys ==> y in data
    requires LookupState(data, k) == Success(Some(x))
    requires DecodeKeys(data, keys) == Success(xs)
    ensures DecodeKeys(data, [k] + keys) == Success([x] + xs)
  {
    assert ([k] + keys)[0] == k && ([k] + keys)[1..] == keys;
  }

  /**
   * The cluster as the store sees it: whether its ConfigMap exists and what
   * data it holds, with a ghost record of every create and every whole
   * ConfigMap replacement sent to the cluster.
   */
  class JobStatesStore {
    var present: bool
    var data: map<string, string>
    ghost var created: seq<ConfigMap>
    ghost var replaced: seq<ConfigMap>

    /** A cluster without the store's ConfigMap. */
    constructor Empty()
      ensures !present && data == map[]
      ensures created == [] && replaced == []
    {
      present := false;
      data := map[];
      created := [];
      replaced := [];
    }

    /** A cluster whose ConfigMap already exists and holds `data`. */
    constructor Existing(data: map<string, string>)
      ensures present && this.data == data
      ensures created == [] && replaced == []
    {
      present := true;
      this.data := data;
      created := [];
      replaced := [];
    }

    /**
     * Reads the ConfigMap at its well-known place. `fault` is the failure the
     * transport reports, if any; otherwise the read fails exactly when the
     * ConfigMap does not exist.
     */
    function Load(fault: Option<ApiError>): (r: Result<ConfigMap, ApiError>)
      reads this
      ensures r.Success? <==> fault.None? && present
      ensures r.Success? ==> r.value.metadata == JOBS_STATES && r.value.data == data
      ensures fault.None? && !present ==> r.error.reason == NOT_FOUND
      ensures fault.Some? ==> r.error == fault.value
    {
      if fault.Some? then Failure(fault.value)
      else if !present then Failure(ApiError(NOT_FOUND))
      else Success(ConfigMap(JOBS_STATES, data))
    }

    /** Creates the ConfigMap; the cluster refuses when it already exists. */
    method CreateConfigMap(cm: ConfigMap) returns (o: Outcome<ApiError>)
      requires cm.metadata == JOBS_STATES
      modifies this
      ensures old(present) ==> o == Fail(ApiError(CONFLICT)) && unchanged(this)
      ensures !old(present) ==> o == Pass && present && data == cm.data
      ensures !old(present) ==> created == old(created) + [cm] && replaced == old(replaced)
    {
      if present {
        return Fail(ApiError(CONFLICT));
      }
      present := true;
      data := cm.data;
      created := created + [cm];
      o := Pass;
    }

    /** Replaces the whole ConfigMap with `cm`. */
    method ReplaceConfigMap(cm: ConfigMap)
      requires present && cm.metadata == JOBS_STATES
      modifies this
      ensures present && data == cm.data
      ensures replaced == old(replaced) + [cm] && created == old(created)
    {
      data := cm.data;
      replaced := replaced + [cm];
    }

    /**
     * Creates the empty ConfigMap when a read reports it not found, and does
     * nothing when it exists; any other read failure is raised.
     */
    method Init(fault: Option<ApiError>) returns (o: Outcome<ApiError>)
      modifies this
      ensures replaced == old(replaced)
      ensures |old(created)| <= |created| <= |old(created)| + 1
      ensures old(present) && fault.None? ==> o == Pass && unchanged(this)
      ensures fault.Some? && fault.value.reason != NOT_FOUND ==> o == Fail(fault.value) && unchanged(this)
      ensures !old(present) && (fault.None? || fault.value.reason == NOT_FOUND) ==>
        && o == Pass && present && data == map[]
        && created == old(created) + [ConfigMap(JOBS_STATES, map[])]
      ensures old(present) && fault.Some? && fault.value.reason == NOT_FOUND ==>
        o == Fail(ApiError(CONFLICT)) && unchanged(this)
      ensures present
        || (fault.Some? && fault.value.reason != NOT_FOUND)
      ensures old(WellFormed(data)) ==> WellFormed(data)
    {
      var r := Load(fault);
      if r.Failure? {
        if r.error.reason != NOT_FOUND {
          return Fail(r.error);
        }
        o := CreateConfigMap(ConfigMap(JOBS_STATES, map[]));
      } else {
        o := Pass;
      }
    }

    /**
     * Reads the ConfigMap, files the encoded state under its playbook id,
     * overwriting any earlier value, and writes the whole ConfigMap back.
     */
    method Save(s: JobState, fault: Option<ApiError>) returns (o: Outcome<ApiError>)
      modifies this
      ensures created == old(created)
      ensures old(Load(fault)).Failure? ==> o == Fail(old(Load(fault)).error) && unchanged(this)
      ensures old(Load(fault)).Success? ==>
        && o == Pass && present
        && data == old(data)[s.playbookId := Serialize(s)]
        && replaced == old(replaced) + [ConfigMap(JOBS_STATES, old(data)[s.playbookId := Serialize(s)])]
      ensures old(WellFormed(data)) ==> WellFormed(data)
    {
      var r := Load(fault);
      if r.Failure? {
        return Fail(r.error);
      }
      var confMap := r.value;
      confMap := confMap.(data := confMap.data[s.playbookId := Serialize(s)]);
      ReplaceConfigMap(confMap);
      if WellFormed(old(data)) {
        SavePreservesWellFormed(old(data), s);
      }
      o := Pass;
    }

    /**
     * Reads the ConfigMap and, only when `id` is in it, removes that key and
     * writes the whole ConfigMap back.
     */
    method Delete(id: string, fault: Option<ApiError>) returns (o: Outcome<ApiError>)
      modifies this
      ensures created == old(created)
      ensures old(Load(fault)).Failure? ==> o == Fail(old(Load(fault)).error) && unchanged(this)
      ensures old(Load(fault)).Success? && id in old(data) ==>
        && o == Pass && present
        && data == old(data) - {id}
        && replaced == old(replaced) + [ConfigMap(JOBS_STATES, old(data) - {id})]
      ensures old(Load(fault)).Success? && id !in old(data) ==> o == Pass && unchanged(this)
      ensures old(WellFormed(data)) ==> WellFormed(data)
    {
      var r := Load(fault);
      if r.Failure? {
        return Fail(r.error);
      }
      var confMap := r.value;
      if id in confMap.data {
        confMap := confMap.(data := confMap.data - {id});
        ReplaceConfigMap(confMap);
      }
      o := Pass;
    }

    /** The state filed under `id` in the ConfigMap as read now. */
    function Get(id: string, fault: Option<ApiError>): (r: Result<Option<JobState>, StoreError>)
      reads this
      ensures Load(fault).Failure? ==> r == Failure(Api(Load(fault).error))
      ensures Load(fault).Success? ==> r == LookupState(data, id)
    {
      match Load(fault)
      case Failure(e) => Failure(Api(e))
      case Success(cm) => LookupState(cm.data, id)
    }

    /** Every state in the ConfigMap as read now. */
    function ListAll(fault: Option<ApiError>): (r: Result<seq<JobState>, StoreError>)
      reads this
      ensures Load(fault).Failure? ==> r == Failure(Api(Load(fault).error))
      ensures Load(fault).Success? ==> r == ListStates(data)
    {
      match Load(fault)
      case Failure(e) => Failure(Api(e))
      case Success(cm) => ListStates(cm.data)
    }
  }

  /**
   * A run against a cluster without the ConfigMap: two initialisations create
   * it once; a save is read back, a second save overwrites it, a delete
   * removes it and a second delete writes nothing.
   */
  method Scenario() returns (states: seq<JobState>)
    ensures states == []
  {
    var store := new JobStatesStore.Empty();
    var o := store.Init(None);
    o := store.Init(None);
    assert |store.created| == 1 && store.replaced == [];

    var first := JobState("job-1", "{\"retries\":0}");
    o := store.Save(first, None);
    GetAfterSave(map[], first, "job-1");
    assert store.Get("job-1", None) == Success(Some(first));

    var second := JobState("job-1", "{\"retries\":1}");
    var before := store.data;
    o := store.Save(second, None);
    GetAfterSave(before, second, "job-1");
    assert store.Get("job-1", None) == Success(Some(second));
    assert |store.replaced| == 2;

    o := store.Delete("job-1", None);
    assert store.data == map[];
    o := store.Delete("job-1", None);
    assert |store.replaced| == 3;
    assert store.Get("job-1", None) == Success(None);

    var listed := store.ListAll(None);
    assert store.data.Keys == {};
    states := listed.value;
  }

  /**
   * A run against a cluster whose ConfigMap already holds one job: init
   * creates and writes nothing, an init whose read wrongly reports it not
   * found is refused with a conflict, and the stored job is listed.
   */
  method ScenarioExisting() returns (states: seq<JobState>)
    ensures states == [JobState("job-1", "{}")]
  {
    var job := JobState("job-1", "{}");
    var store := new JobStatesStore.Existing(map["job-1" := Serialize(job)]);
    var o := store.Init(None);
    assert o == Pass && store.created == [] && store.replaced == [];
    o := store.Init(Some(ApiError(NOT_FOUND)));
    assert o == Fail(ApiError(CONFLICT)) && store.created == [];

    DecodeEncode(job);
    var listed := store.ListAll(None);
    ListComplete(store.data);
    assert listed.Success? && |listed.value| == 1 && job in listed.value;
    states := listed.value;
  }
}
