/** `merge_variant_fields`: for one variant key, the TUMOR fields are taken
    from the first sample column of every caller that reports the key, the
    later caller overwriting the earlier one; the NORMAL data is never
    written and stays all ".". Nothing is averaged. */
module FieldMerge {
  import opened Wrappers
  import opened Text
  import opened FilteredTable

  /** The caller entries `main` accepts, in the order it registers them. */
  datatype Caller = Mutect2 | Muse | StrelkaSnvs | StrelkaIndels | VarscanSnvs | VarscanIndels

  const CallerOrder: seq<Caller> := [Mutect2, Muse, StrelkaSnvs, StrelkaIndels, VarscanSnvs, VarscanIndels]

  /** The entry's name as it appears in the CL list. */
  function Name(c: Caller): string {
    match c
    case Mutect2 => "mutect2"
    case Muse => "muse"
    case StrelkaSnvs => "strelka-snvs"
    case StrelkaIndels => "strelka-indels"
    case VarscanSnvs => "varscan-snvs"
    case VarscanIndels => "varscan-indels"
  }

  /** The parsed records of every caller entry that was given a table. */
  type Tables = map<Caller, map<VariantKey, Record>>

  /** `IndexError` on `rec_samples[0]` (a record without a sample column) and
      on `sample_raw[i]` (fewer sample values than FORMAT keys). */
  datatype MergeError = NoSampleColumn | MissingSampleValue

  /** The fields `tumor_data` and `normal_data` hold, all "." at the start. */
  const TrackedFields: set<string> := {"GT", "DP", "AF", "GQ", "MQ", "MQ0"}

  const Defaults: map<string, string> :=
    map["GT" := ".", "DP" := ".", "AF" := ".", "GQ" := ".", "MQ" := ".", "MQ0" := "."]

  /** The numeric fields, copied to the result only when not ".". */
  const NumericFields: set<string> := {"DP", "AF", "GQ", "MQ", "MQ0"}

  datatype SampleData = SampleData(normal: map<string, string>, tumor: map<string, string>)

  /** No later position repeats the key at position `i`. */
  predicate LastAt(keys: seq<string>, i: int) {
    0 <= i < |keys| && forall j | i < j < |keys| :: keys[j] != keys[i]
  }

  /** `{keys[i]: values[i] for i in range(len(keys))}`: FORMAT keys paired
      with sample values by position; for a repeated key the later position
      wins, and surplus values are ignored. */
  function PairFields(keys: seq<string>, values: seq<string>): (m: map<string, string>)
    requires |keys| <= |values|
    ensures forall i | 0 <= i < |keys| :: keys[i] in m
    ensures forall i | 0 <= i < |keys| && LastAt(keys, i) :: m[keys[i]] == values[i]
  {
    if |keys| == 0 then map[]
    else
      var n := |keys| - 1;
      var init := keys[..n];
      var m0 := PairFields(init, values);
      var m := m0[keys[n] := values[n]];
      forall i | 0 <= i < n
        ensures keys[i] in m
        ensures LastAt(keys, i) ==> m[keys[i]] == values[i]
      {
        assert init[i] == keys[i];
        if LastAt(keys, i) {
          assert keys[n] != keys[i];
          forall j | i < j < n
            ensures init[j] != init[i]
          {
            assert init[j] == keys[j];
          }
          assert LastAt(init, i);
        }
      }
      m
  }

  /** A character that no sample value holds is in no paired value. */
  lemma {:induction false} PairFieldsExclude(keys: seq<string>, values: seq<string>, c: char)
    requires |keys| <= |values|
    requires forall i | 0 <= i < |values| :: c !in values[i]
    ensures forall k | k in PairFields(keys, values) :: c !in PairFields(keys, values)[k]
    decreases |keys|
  {
    if |keys| > 0 {
      PairFieldsExclude(keys[..|keys| - 1], values, c);
    }
  }

  /** `val_map` holds exactly the FORMAT keys: no key comes from elsewhere. */
  lemma {:induction false} PairFieldsDomain(keys: seq<string>, values: seq<string>)
    requires |keys| <= |values|
    ensures forall k :: k in PairFields(keys, values) <==> k in keys
    decreases |keys|
  {
    if |keys| > 0 {
      PairFieldsDomain(keys[..|keys| - 1], values);
      assert keys == keys[..|keys| - 1] + [keys[|keys| - 1]];
    }
  }

  /** `val_map` for one caller's record. */
  function SampleFields(rec: Record): Result<map<string, string>, MergeError> {
    var keys := Split(rec.format, ':');
    if |rec.samples| == 0 then Failure(NoSampleColumn)
    else
      var raw := Split(rec.samples[0], ':');
      if |raw| < |keys| then Failure(MissingSampleValue)
      else Success(PairFields(keys, raw))
  }

  /** The inner loop: every tracked field the caller supplies overwrites. */
  function Overwrite(data: map<string, string>, fields: map<string, string>): map<string, string> {
    map k | k in data :: if k in fields then fields[k] else data[k]
  }

  /** `tumor_data` after the caller loop over `recs`, or the error of the
      first caller whose record cannot be read. */
  function TumorData(recs: seq<Record>): Result<map<string, string>, MergeError> {
    if |recs| == 0 then Success(Defaults)
    else
      match TumorData(recs[..|recs| - 1])
      case Failure(e) => Failure(e)
      case Success(t) =>
        match SampleFields(recs[|recs| - 1])
        case Failure(e) => Failure(e)
        case Success(f) => Success(Overwrite(t, f))
  }

  /** The `result` dict built from `tumor_data`: NORMAL holds GT "." only;
      TUMOR holds GT and every numeric field that is not ".". */
  function Finish(tumor: map<string, string>): SampleData
    requires TrackedFields <= tumor.Keys
  {
    SampleData(map["GT" := "."],
               (map f | f in NumericFields && tumor[f] != "." :: tumor[f])["GT" := tumor["GT"]])
  }

  function MergeSpec(recs: seq<Record>): Result<SampleData, MergeError> {
    match TumorData(recs)
    case Failure(e) => Failure(e)
    case Success(t) =>
      TumorDataKeys(recs, t);
      Success(Finish(t))
  }

  /** The records of the present callers for `key`, in caller order. */
  function RecordsOf(tables: Tables, key: VariantKey, present: seq<Caller>): (recs: seq<Record>)
    requires forall i | 0 <= i < |present| :: present[i] in tables && key in tables[present[i]]
    ensures |recs| == |present|
    ensures forall i | 0 <= i < |present| :: recs[i] == tables[present[i]][key]
  {
    seq(|present|, i requires 0 <= i < |present| => tables[present[i]][key])
  }

  /** `dict.get(k, ".")`. */
  function Lookup(m: map<string, string>, k: string): string {
    if k in m then m[k] else "."
  }

  /** Caller `i` supplies `field` in its first sample column. */
  predicate Supplies(recs: seq<Record>, i: int, field: string) {
    0 <= i < |recs| && SampleFields(recs[i]).Success? && field in SampleFields(recs[i]).value
  }

  /** A readable record supplies a field exactly when its FORMAT column
      lists it. */
  lemma SuppliesIffListed(recs: seq<Record>, i: nat, field: string)
    requires i < |recs| && SampleFields(recs[i]).Success?
    ensures Supplies(recs, i, field) <==> field in Split(recs[i].format, ':')
  {
    PairFieldsDomain(Split(recs[i].format, ':'), Split(recs[i].samples[0], ':'));
  }

  /** The merge loop over the present callers, with the per-caller
      dictionary update as an inner loop over `val_map`'s keys. */
  method MergeVariantFields(tables: Tables, key: VariantKey, present: seq<Caller>)
      returns (r: Result<SampleData, MergeError>)
    requires forall i | 0 <= i < |present| :: present[i] in tables && key in tables[present[i]]
    ensures r == MergeSpec(RecordsOf(tables, key, present))
  {
    ghost var recs := RecordsOf(tables, key, present);
    var tumorData := Defaults;
    var n := 0;
    while n < |present|
      invariant 0 <= n <= |present|
      invariant TumorData(recs[..n]) == Success(tumorData)
    {
      assert recs[..n + 1][..n] == recs[..n];
      var rec := tables[present[n]][key];
      var fmtKeys := Split(rec.format, ':');
      if |rec.samples| == 0 {
        TumorFailurePersists(recs, n + 1);
        assert recs[..|present|] == recs;
        return Failure(NoSampleColumn);
      }
      var sampleRaw := Split(rec.samples[0], ':');
      if |sampleRaw| < |fmtKeys| {
        TumorFailurePersists(recs, n + 1);
        assert recs[..|present|] == recs;
        return Failure(MissingSampleValue);
      }
      var valMap := PairFields(fmtKeys, sampleRaw);
      assert SampleFields(recs[n]) == Success(valMap);
      tumorData := UpdateFields(tumorData, valMap);
      n := n + 1;
    }
    assert recs[..n] == recs;
    TumorDataKeys(recs, tumorData);
    r := Success(Finish(tumorData));
  }

  /** `for k, v in val_map.items(): if k in tumor_data: tumor_data[k] = v`,
      visiting the keys in an unspecified order. */
  method UpdateFields(data: map<string, string>, valMap: map<string, string>)
      returns (updated: map<string, string>)
    ensures updated == Overwrite(data, valMap)
  {
    updated := data;
    var pending := valMap.Keys;
    while pending != {}
      invariant pending <= valMap.Keys
      invariant updated.Keys == data.Keys
      invariant forall k | k in data ::
                  updated[k] == if k in valMap && k !in pending then valMap[k] else data[k]
      decreases pending
    {
      var k :| k in pending;
      if k in updated {
        updated := updated[k := valMap[k]];
      }
      pending := pending - {k};
    }
  }

  lemma {:induction false} TumorFailurePersists(recs: seq<Record>, k: nat)
    requires k <= |recs| && TumorData(recs[..k]).Failure?
    ensures TumorData(recs) == TumorData(recs[..k])
    decreases |recs| - k
  {
    if k < |recs| {
      assert recs[..k + 1][..k] == recs[..k];
      TumorFailurePersists(recs, k + 1);
    } else {
      assert recs[..k] == recs;
    }
  }

  /** `tumor_data` always holds exactly the six tracked fields, and no value
      contains a colon. */
  lemma {:induction false} TumorDataKeys(recs: seq<Record>, t: map<string, string>)
    requires TumorData(recs) == Success(t)
    ensures t.Keys == TrackedFields
    ensures forall k | k in t :: ':' !in t[k]
    decreases |recs|
  {
    if |recs| > 0 {
      var init := recs[..|recs| - 1];
      var t0 := TumorData(init).value;
      TumorDataKeys(init, t0);
      var rec := recs[|recs| - 1];
      PairFieldsExclude(Split(rec.format, ':'), Split(rec.samples[0], ':'), ':');
    } else {
      assert Defaults.Keys == TrackedFields;
    }
  }

  /** One step of the caller loop: the last caller's fields overwrite the
      data of the callers before it. */
  lemma TumorDataStep(recs: seq<Record>, t: map<string, string>)
    requires |recs| > 0 && TumorData(recs) == Success(t)
    ensures TumorData(recs[..|recs| - 1]).Success?
    ensures SampleFields(recs[|recs| - 1]).Success?
    ensures t == Overwrite(TumorData(recs[..|recs| - 1]).value, SampleFields(recs[|recs| - 1]).value)
  {
  }

  /** One step of the caller loop for one field: the last caller's value if
      it supplies the field, the earlier callers' value otherwise. */
  lemma TumorDataStepAt(recs: seq<Record>, t: map<string, string>, field: string)
    requires |recs| > 0 && TumorData(recs) == Success(t) && field in t
    ensures TumorData(recs[..|recs| - 1]).Success?
    ensures field in TumorData(recs[..|recs| - 1]).value
    ensures t[field] == if Supplies(recs, |recs| - 1, field) then SampleFields(recs[|recs| - 1]).value[field]
                        else TumorData(recs[..|recs| - 1]).value[field]
  {
    TumorDataStep(recs, t);
  }

  lemma SuppliesInPrefix(recs: seq<Record>, n: nat, field: string)
    requires n <= |recs|
    ensures forall j | 0 <= j < n :: Supplies(recs[..n], j, field) == Supplies(recs, j, field)
  {
    forall j | 0 <= j < n
      ensures Supplies(recs[..n], j, field) == Supplies(recs, j, field)
    {
      assert recs[..n][j] == recs[j];
    }
  }

  /** Last writer wins: a tracked TUMOR field holds the value of the last
      present caller whose FORMAT supplies it. */
  lemma {:induction false} TumorLastWriter(recs: seq<Record>, t: map<string, string>, field: string, i: nat)
    requires TumorData(recs) == Success(t) && field in t
    requires Supplies(recs, i, field)
    requires forall j | i < j < |recs| :: !Supplies(recs, j, field)
    ensures t[field] == SampleFields(recs[i]).value[field]
    decreases |recs|
  {
    var n := |recs| - 1;
    TumorDataStepAt(recs, t, field);
    if i < n {
      var init := recs[..n];
      SuppliesInPrefix(recs, n, field);
      assert init[i] == recs[i];
      TumorLastWriter(init, TumorData(init).value, field, i);
    }
  }

  /** A tracked TUMOR field that no present caller supplies stays ".". */
  lemma {:induction false} TumorUnsupplied(recs: seq<Record>, t: map<string, string>, field: string)
    requires TumorData(recs) == Success(t) && field in t
    requires forall j | 0 <= j < |recs| :: !Supplies(recs, j, field)
    ensures t[field] == "."
    decreases |recs|
  {
    if |recs| > 0 {
      var n := |recs| - 1;
      TumorDataStepAt(recs, t, field);
      SuppliesInPrefix(recs, n, field);
      TumorUnsupplied(recs[..n], TumorData(recs[..n]).value, field);
    } else {
      assert Defaults[field] == ".";
    }
  }

  /** The merge fails exactly when some present caller's record cannot be
      read, with the error of the first such caller. */
  lemma {:induction false} TumorFailsAtFirstCaller(recs: seq<Record>, i: nat)
    requires i < |recs| && SampleFields(recs[i]).Failure?
    requires forall j | 0 <= j < i :: SampleFields(recs[j]).Success?
    ensures TumorData(recs) == Failure(SampleFields(recs[i]).error)
  {
    TumorSucceeds(recs[..i]);
    assert recs[..i + 1][..i] == recs[..i];
    TumorFailurePersists(recs, i + 1);
  }

  lemma {:induction false} TumorSucceeds(recs: seq<Record>)
    requires forall j | 0 <= j < |recs| :: SampleFields(recs[j]).Success?
    ensures TumorData(recs).Success?
    decreases |recs|
  {
    if |recs| > 0 {
      TumorSucceeds(recs[..|recs| - 1]);
    }
  }

  /** What the merged samples render as: every NORMAL lookup is "."; a
      TUMOR lookup of a tracked field is that field's last-writer value and
      of any other field is ".". */
  lemma MergedLookups(recs: seq<Record>, t: map<string, string>, k: string)
    requires TumorData(recs) == Success(t)
    ensures t.Keys == TrackedFields && MergeSpec(recs).Success?
    ensures Lookup(MergeSpec(recs).value.normal, k) == "."
    ensures Lookup(MergeSpec(recs).value.tumor, k) == if k in TrackedFields then t[k] else "."
    ensures ':' !in Lookup(MergeSpec(recs).value.tumor, k)
  {
    TumorDataKeys(recs, t);
  }

  /** A character other than `:` and `.` that no first sample column holds
      is in no TUMOR value. */
  lemma {:induction false} TumorDataExcludes(recs: seq<Record>, t: map<string, string>, c: char)
    requires TumorData(recs) == Success(t)
    requires c != ':' && c != '.'
    requires forall i | 0 <= i < |recs| && |recs[i].samples| > 0 :: c !in recs[i].samples[0]
    ensures forall k | k in t :: c !in t[k]
    decreases |recs|
  {
    if |recs| > 0 {
      var init := recs[..|recs| - 1];
      TumorDataStep(recs, t);
      assert forall i | 0 <= i < |init| :: init[i] == recs[i];
      TumorDataExcludes(init, TumorData(init).value, c);
      var rec := recs[|recs| - 1];
      SplitExcludes(rec.samples[0], ':', c);
      PairFieldsExclude(Split(rec.format, ':'), Split(rec.samples[0], ':'), c);
    } else {
      assert forall k | k in Defaults :: Defaults[k] == ".";
    }
  }

  /** For records without tabs, no merged NORMAL or TUMOR value holds a tab
      or a colon. */
  lemma MergedValuesClean(recs: seq<Record>, data: SampleData)
    requires MergeSpec(recs) == Success(data)
    requires forall i | 0 <= i < |recs| :: RecordTabFree(recs[i])
    ensures forall k | k in data.normal :: TabFree(data.normal[k]) && ':' !in data.normal[k]
    ensures forall k | k in data.tumor :: TabFree(data.tumor[k]) && ':' !in data.tumor[k]
  {
    var t := TumorData(recs).value;
    TumorDataKeys(recs, t);
    TumorDataExcludes(recs, t, '\t');
  }
}
