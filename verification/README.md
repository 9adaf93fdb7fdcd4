# Scheduled-job state store

A Dafny model of robusta's scheduled-job state store. The store keeps one
state per scheduled playbook job as a string in the data of a single
ConfigMap, `jobs-states` in namespace `robusta`, keyed by the job's playbook
id. It offers five operations:

- initialisation creates the ConfigMap lazily, only when a read reports it
  "Not Found";
- save reads the ConfigMap, overwrites one key and writes the whole ConfigMap
  back;
- get decodes the value under one key, or answers none when the key is
  absent;
- delete reads the ConfigMap and writes it back without the key, but only
  when the key is there;
- list decodes the value under every key.

Layout:

- `wrappers.dfy`: the `Option`, `Result` and `Outcome` types through which
  the operations raise their errors.
- `job_state_codec.dfy`: the job state and the text it is stored as.
  Decoding the text of a state gives the state back, and some strings do not
  decode. Stored values are related to states only by decoding them.
- `key_order.dfy`: the order in which the cluster lists a ConfigMap's keys,
  which is lexicographic. `SortedKeys` builds it from the set of keys.
- `scheduled_jobs_states_dal.dfy` holds the store itself:
  - `JobStatesStore` is the cluster as the store sees it: whether the
    ConfigMap exists, its data, and a ghost log of every create and every
    whole-ConfigMap write. `Init`, `Save` and `Delete` change it in place.
  - `Get` and `ListAll` are reads. They are defined through the pure
    functions `LookupState` and `ListStates` over the data.
  - The lemmas relate the operations to one another.

A failing read is a parameter `fault: Option<ApiError>` of each operation.
`None` means the read answers from the modelled state. `Some(e)` means the
transport raised `e`.

## Model

| member | source | states |
|---|---|---|
| ScheduledJobsStatesDal.JobStatesStore.Load | src/robusta/core/persistency/scheduled_jobs_states_dal.py:18-19 | the read returns the ConfigMap at `jobs-states`/`robusta` with the current data; it fails with reason "Not Found" when the ConfigMap is absent, and with the transport's error when there is one |
| ScheduledJobsStatesDal.JobStatesStore.CreateConfigMap | src/robusta/core/persistency/scheduled_jobs_states_dal.py:32-35 | a create of an existing ConfigMap fails with "Conflict" and changes nothing; otherwise the ConfigMap exists with the given data and exactly one create is logged |
| ScheduledJobsStatesDal.JobStatesStore.ReplaceConfigMap | src/robusta/core/persistency/scheduled_jobs_states_dal.py:51-53 | the whole ConfigMap is replaced by the one sent, and exactly one whole-ConfigMap write is logged |
| ScheduledJobsStatesDal.JobStatesStore.Init | src/robusta/core/persistency/scheduled_jobs_states_dal.py:22-40 | when the ConfigMap exists, init creates and writes nothing, so repeating it is harmless; a "Not Found" read on an absent ConfigMap creates exactly one empty `jobs-states` in `robusta`; any other failure is re-raised with nothing created; init never writes, and afterwards the ConfigMap exists unless it raised |
| ScheduledJobsStatesDal.JobStatesStore.Save | src/robusta/core/persistency/scheduled_jobs_states_dal.py:46-55 | a failed read is raised and nothing changes; otherwise the data becomes the freshly read data with the playbook id's value overwritten by the encoded state, every other key is kept, exactly one write of that whole ConfigMap is logged, no create happens, and decodable data stays decodable |
| ScheduledJobsStatesDal.JobStatesStore.Delete | src/robusta/core/persistency/scheduled_jobs_states_dal.py:63-73 | a failed read is raised; a present key is removed with exactly one whole-ConfigMap write; an absent key leaves the store untouched, with no write |
| ScheduledJobsStatesDal.JobStatesStore.Get | src/robusta/core/persistency/scheduled_jobs_states_dal.py:58-60 | a failed read raises its error; otherwise get answers the lookup of the id in the data just read |
| ScheduledJobsStatesDal.JobStatesStore.ListAll | src/robusta/core/persistency/scheduled_jobs_states_dal.py:76-77 | a failed read raises its error; otherwise list answers the listing of the data just read |
| ScheduledJobsStatesDal.LookupState | src/robusta/core/persistency/scheduled_jobs_states_dal.py:58-60 | the answer is none exactly when the key is absent; it is an error exactly when the stored value does not decode, naming that key; a state it returns is what the value stored under the key decodes to |
| ScheduledJobsStatesDal.DecodeKeysMeaning | src/robusta/core/persistency/scheduled_jobs_states_dal.py:76-77 | decoding a list of keys succeeds exactly when each of their values decodes; the i-th state is then what the value under the i-th key decodes to; a failure names the first key whose value does not decode |
| ScheduledJobsStatesDal.ListStates | src/robusta/core/persistency/scheduled_jobs_states_dal.py:76-77 | the listing succeeds exactly when every value decodes; it then has one state per key, the i-th decoded from the value under the i-th key in listing order; a failure names a key of the data |
| ScheduledJobsStatesDal.ListComplete | src/robusta/core/persistency/scheduled_jobs_states_dal.py:76-77 | a successful listing holds exactly the states that some value of the ConfigMap decodes to |
| ScheduledJobsStatesDal.GetAfterSave | src/robusta/core/persistency/scheduled_jobs_states_dal.py:46-60 | after a save, get of the saved id returns the saved state, and get of every other key is unchanged |
| ScheduledJobsStatesDal.GetAfterDelete | src/robusta/core/persistency/scheduled_jobs_states_dal.py:58-73 | after a delete, get of the deleted id returns none, and get of every other key is unchanged |
| ScheduledJobsStatesDal.SavePreservesWellFormed | src/robusta/core/persistency/scheduled_jobs_states_dal.py:49-50 | if every stored value decodes, it still does after a save |
| ScheduledJobsStatesDal.DeletePreservesWellFormed | src/robusta/core/persistency/scheduled_jobs_states_dal.py:66-68 | if every stored value decodes, it still does after a delete |
| ScheduledJobsStatesDal.ListAfterSave | src/robusta/core/persistency/scheduled_jobs_states_dal.py:46-77 | after a save on decodable data, the listing succeeds and holds the saved state; it is one longer exactly when the id was new |
| ScheduledJobsStatesDal.KeysAfterDelete | src/robusta/core/persistency/scheduled_jobs_states_dal.py:66-77 | after a delete, the keys are listed as before with the deleted key taken out |
| ScheduledJobsStatesDal.ListAfterDelete | src/robusta/core/persistency/scheduled_jobs_states_dal.py:63-77 | after a delete, the listing is the earlier listing with exactly the deleted key's state removed and the others in their order |
| ScheduledJobsStatesDal.Scenario | src/robusta/core/persistency/scheduled_jobs_states_dal.py:22-77 | a run from a cluster without the ConfigMap: two inits create it once; a save reads back; a second save overwrites; two deletes write once; the listing ends empty |
| ScheduledJobsStatesDal.ScenarioExisting | src/robusta/core/persistency/scheduled_jobs_states_dal.py:22-77 | a run from a cluster whose ConfigMap already holds one job: init creates and writes nothing; an init whose read reports "Not Found" is refused with "Conflict"; the listing is the stored job |
| JobStateCodec.DecodeEncode | src/robusta/core/persistency/scheduled_jobs_states_dal.py:50-60 | decoding the stored text of a state gives back that state |
| JobStateCodec.SerializeInjective | src/robusta/core/persistency/scheduled_jobs_states_dal.py:50 | different states are stored as different texts |
| JobStateCodec.NoSeparatorIsCorrupt | src/robusta/core/persistency/scheduled_jobs_states_dal.py:60 | some stored texts do not decode, so decoding can fail |
| KeyOrder.SortedKeys | src/robusta/core/persistency/scheduled_jobs_states_dal.py:77 | the listing order holds every key exactly once, in ascending lexicographic order |
| KeyOrder.SortedUnique | src/robusta/core/persistency/scheduled_jobs_states_dal.py:77 | the listing order is determined by the set of keys alone |
| KeyOrder.SortedKeysRemove | src/robusta/core/persistency/scheduled_jobs_states_dal.py:77 | removing a key from the set removes exactly it from the listing order and keeps the others in place |

## Left out

- The process-wide lock around init, save and delete is not modelled. The
  operations are sequential, atomic methods, so interleavings between threads
  are not covered.
- The Kubernetes transport is not modelled. Reading, creating and replacing
  the ConfigMap become reads and writes of the store's fields. A failing read
  is the `fault` parameter. Create and replace never fail, except that a
  create of an existing ConfigMap answers "Conflict".
- JSON and the pydantic `JobState` model are replaced by an escaped text
  format. The contracts use two of its properties: decoding the text of a
  state gives the state back, and some texts do not decode.
  `src/robusta/core/schedule/model.py` is not part of this model.
- JSON with pydantic accepts many texts for one state: other whitespace,
  another key order, or a missing defaulted field. So no contract says that
  a text which decodes is the encoding of its result. Stored values are tied
  to states only through `Deserialize`.
- The job state keeps the playbook id that the store files a state
  under, and carries every other field as opaque details text.
- ScheduledJobsStatesDal.JobStatesStore.ListAll: the source reads the
  ConfigMap once for its keys and again for each key, each read a request of
  its own. The model reads it once. A failure of any of these reads surfaces
  as one `Api` failure given by `fault`; which read fails is not modelled. A
  ConfigMap changing between the reads needs concurrency, which the model
  does not have.
- A ConfigMap whose `data` is missing is modelled as one with empty data.
- The listing order is modelled as the lexicographic key order. This is how
  the API server serialises a string map.
- Logging, and the call to init when the module loads, are left out. Init is
  an explicit method.
- `src/robusta/cli/main.py` and `playbooks/bash_enrichments.py` are not part
  of this model. They are command, HTTP and chat plumbing around the store.
