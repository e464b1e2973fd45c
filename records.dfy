/** The body of `main`'s merge loop for one variant key: which caller entries
    report it, the INFO column (CC, CL and the SOMATIC flag), the FORMAT
    union, the NORMAL and TUMOR value columns and the tab-separated row. */
module MergedRecord {
  import opened Wrappers
  import opened Text
  import opened FilteredTable
  import opened FieldMerge

  /** Position of a caller entry in the order `main` registers them. */
  function EntryIndex(c: Caller): nat {
    match c
    case Mutect2 => 0
    case Muse => 1
    case StrelkaSnvs => 2
    case StrelkaIndels => 3
    case VarscanSnvs => 4
    case VarscanIndels => 5
  }

  predicate Holds(tables: Tables, c: Caller, key: VariantKey) {
    c in tables && key in tables[c]
  }

  /** The entries of `order` whose table holds `key`, in the order of `order`. */
  function HoldingAmong(order: seq<Caller>, tables: Tables, key: VariantKey): (present: seq<Caller>)
    requires forall i, j | 0 <= i < j < |order| :: EntryIndex(order[i]) < EntryIndex(order[j])
    ensures forall c :: c in present <==> c in order && Holds(tables, c, key)
    ensures forall i, j | 0 <= i < j < |present| :: EntryIndex(present[i]) < EntryIndex(present[j])
    ensures |order| > 0 ==> forall i | 0 <= i < |present| :: EntryIndex(order[0]) <= EntryIndex(present[i])
    decreases |order|
  {
    if |order| == 0 then []
    else
      var rest := HoldingAmong(order[1..], tables, key);
      (if Holds(tables, order[0], key) then [order[0]] else []) + rest
  }

  /** `present_callers`: every entry whose table holds `key`, each once, in
      registration order. */
  function PresentCallers(tables: Tables, key: VariantKey): (present: seq<Caller>)
    ensures forall c :: c in present <==> Holds(tables, c, key)
    ensures forall i, j | 0 <= i < j < |present| :: EntryIndex(present[i]) < EntryIndex(present[j])
    ensures forall i | 0 <= i < |present| :: Holds(tables, present[i], key)
  {
    CallerOrderRanks();
    HoldingAmong(CallerOrder, tables, key)
  }

  /** Every caller entry occurs in the registration order, whose ranks
      increase. */
  lemma CallerOrderRanks()
    ensures forall c: Caller :: c in CallerOrder
    ensures forall i, j | 0 <= i < j < |CallerOrder| :: EntryIndex(CallerOrder[i]) < EntryIndex(CallerOrder[j])
  {
    forall c: Caller
      ensures c in CallerOrder
    {
      assert CallerOrder[EntryIndex(c)] == c;
    }
  }

  /** The CL list: the entries' names. */
  function Names(present: seq<Caller>): (names: seq<string>) {
    seq(|present|, i requires 0 <= i < |present| => Name(present[i]))
  }

  /** A caller INFO string carries the flag when one of its `;` tokens is
      exactly "SOMATIC". */
  predicate CarriesSomatic(info: string) {
    "SOMATIC" in Split(info, ';')
  }

  predicate AnySomatic(recs: seq<Record>) {
    exists i | 0 <= i < |recs| :: CarriesSomatic(recs[i].info)
  }

  /** `info_parts`: CC, CL and, when any reporting caller flags the variant,
      SOMATIC. */
  function InfoParts(count: nat, names: seq<string>, somatic: bool): seq<string> {
    ["CC=" + NatToString(count), "CL=" + Join(names, ',')] + (if somatic then ["SOMATIC"] else [])
  }

  /** The INFO column for the records `recs` of the entries `present`. */
  function MergedInfo(present: seq<Caller>, recs: seq<Record>): string {
    Join(InfoParts(|present|, Names(present), AnySomatic(recs)), ';')
  }

  /** Builds `merged_info`: the scan over the callers stops at the first one
      whose INFO carries SOMATIC. */
  method BuildInfo(present: seq<Caller>, recs: seq<Record>) returns (info: string)
    requires |recs| == |present|
    ensures info == MergedInfo(present, recs)
  {
    var infoParts := ["CC=" + NatToString(|present|), "CL=" + Join(Names(present), ',')];
    ghost var found := false;
    var n := 0;
    while n < |recs|
      invariant 0 <= n <= |recs|
      invariant found ==> AnySomatic(recs)
      invariant !found ==> forall i | 0 <= i < n :: !CarriesSomatic(recs[i].info)
      invariant infoParts == InfoParts(|present|, Names(present), found)
      decreases if found then 0 else |recs| - n + 1
    {
      if "SOMATIC" in Split(recs[n].info, ';') {
        infoParts := infoParts + ["SOMATIC"];
        found := true;
        break;
      }
      n := n + 1;
    }
    info := Join(infoParts, ';');
  }

  /** No caller name contains the `;` or `,` separators of the INFO column,
      nor a tab. */
  lemma NamesClean(present: seq<Caller>)
    ensures forall i | 0 <= i < |Names(present)| ::
              ';' !in Names(present)[i] && ',' !in Names(present)[i] && '\t' !in Names(present)[i]
  {
    forall i | 0 <= i < |present|
      ensures ';' !in Name(present[i]) && ',' !in Name(present[i]) && '\t' !in Name(present[i])
    {
      match present[i]
      case Mutect2 =>
      case Muse =>
      case StrelkaSnvs =>
      case StrelkaIndels =>
      case VarscanSnvs =>
      case VarscanIndels =>
    }
  }

  /** Reading the INFO column back: its `;` tokens are CC, CL and possibly
      SOMATIC; CC parses to the number of entries, CL splits on `,` into
      their names, and SOMATIC is a token exactly when the flag is set. */
  lemma ReadInfo(present: seq<Caller>, recs: seq<Record>)
    requires |present| >= 1
    ensures var tokens := Split(MergedInfo(present, recs), ';');
      && tokens == InfoParts(|present|, Names(present), AnySomatic(recs))
      && ParseNat(tokens[0][3..]) == Some(|present|)
      && Split(tokens[1][3..], ',') == Names(present)
      && ("SOMATIC" in tokens <==> AnySomatic(recs))
  {
    var names := Names(present);
    var parts := InfoParts(|present|, names, AnySomatic(recs));
    NamesClean(present);
    JoinExcludes(names, ',', ';');
    var cc := NatToString(|present|);
    assert ';' !in cc by {
      assert !IsDigit(';');
    }
    assert ';' !in "CC=" + cc;
    assert ';' !in "CL=" + Join(names, ',');
    SplitJoin(parts, ';');
    assert parts[0][3..] == cc;
    assert parts[1][3..] == Join(names, ',');
    SplitJoin(names, ',');
    assert parts[0] != "SOMATIC" && parts[1] != "SOMATIC" by {
      assert parts[0][1] == 'C' && parts[1][1] == 'L';
    }
  }

  /** `pref_order`: the FORMAT keys that lead the merged FORMAT column. */
  const PreferredOrder: seq<string> := ["GT", "DP", "AF", "SB", "GQ", "MQ", "MQ0"]

  /** Position in `pref_order`; 7 for every other key. */
  function PrefRank(k: string): nat {
    if k == "GT" then 0
    else if k == "DP" then 1
    else if k == "AF" then 2
    else if k == "SB" then 3
    else if k == "GQ" then 4
    else if k == "MQ" then 5
    else if k == "MQ0" then 6
    else 7
  }

  lemma PrefRankIndex(i: nat)
    requires i < |PreferredOrder|
    ensures PrefRank(PreferredOrder[i]) == i
  {
  }

  /** `present_fmt_keys`: every key of the FORMAT of every reporting caller. */
  function FormatKeys(recs: seq<Record>): set<string> {
    set i, k | 0 <= i < |recs| && k in Split(recs[i].format, ':') :: k
  }

  /** `[k for k in pref_order[i:] if k in keys]`. */
  function PreferredFrom(i: nat, keys: set<string>): (r: seq<string>)
    requires i <= |PreferredOrder|
    ensures forall k :: k in r <==> k in PreferredOrder[i..] && k in keys
    ensures forall a | 0 <= a < |r| :: i <= PrefRank(r[a]) < 7
    ensures forall a, b | 0 <= a < b < |r| :: PrefRank(r[a]) < PrefRank(r[b])
    decreases |PreferredOrder| - i
  {
    if i == |PreferredOrder| then []
    else
      PrefRankIndex(i);
      var k := PreferredOrder[i];
      assert PreferredOrder[i..] == [k] + PreferredOrder[i + 1..];
      (if k in keys then [k] else []) + PreferredFrom(i + 1, keys)
  }

  /** The keys of `ks` that `pref_order` does not list, in the order of `ks`. */
  function Unpreferred(ks: seq<string>): (r: seq<string>)
    ensures forall k :: k in r <==> k in ks && k !in PreferredOrder
  {
    if |ks| == 0 then []
    else
      var last := ks[|ks| - 1];
      assert ks == ks[..|ks| - 1] + [last];
      Unpreferred(ks[..|ks| - 1]) + (if last in PreferredOrder then [] else [last])
  }

  /** `fmt_union` for the key set `keys`: the preferred keys present, then
      the others in ascending order. */
  ghost function FormatUnion(keys: set<string>): seq<string> {
    PreferredFrom(0, keys) + Unpreferred(SortedStrings(keys))
  }

  /** Builds `present_fmt_keys` and then `fmt_union`: the keys `pref_order`
      lists, then a walk over the sorted keys that appends every key not yet
      listed. */
  method BuildFormat(recs: seq<Record>) returns (fmtUnion: seq<string>)
    ensures fmtUnion == FormatUnion(FormatKeys(recs))
  {
    var presentFmtKeys: set<string> := {};
    var n := 0;
    while n < |recs|
      invariant 0 <= n <= |recs|
      invariant presentFmtKeys == FormatKeys(recs[..n])
    {
      var callerFmt := Split(recs[n].format, ':');
      FormatKeysSnoc(recs, n);
      presentFmtKeys := presentFmtKeys + (set k | k in callerFmt);
      n := n + 1;
    }
    assert recs[..n] == recs;

    fmtUnion := PreferredFrom(0, presentFmtKeys);
    var remaining := presentFmtKeys;
    ghost var done: seq<string> := [];
    AppendEmpty(fmtUnion);
    assert done + SortedStrings(remaining) == SortedStrings(presentFmtKeys);
    while remaining != {}
      invariant remaining <= presentFmtKeys
      invariant forall x | x in done :: x !in remaining
      invariant done + SortedStrings(remaining) == SortedStrings(presentFmtKeys)
      invariant fmtUnion == PreferredFrom(0, presentFmtKeys) + Unpreferred(done)
      decreases |remaining|
    {
      LeastString(remaining);
      var k :| IsLeastString(k, remaining);
      ghost var next := if k in fmtUnion then fmtUnion else fmtUnion + [k];
      AppendUnlisted(presentFmtKeys, done, remaining, k, fmtUnion);
      SortedWalkStep(presentFmtKeys, done, remaining, k);
      if k !in fmtUnion {
        fmtUnion := fmtUnion + [k];
      }
      assert fmtUnion == next;
      done := done + [k];
      RemovingShrinks(remaining, k);
      remaining := remaining - {k};
    }
    AppendEmpty(done);
    assert done == SortedStrings(presentFmtKeys);
  }

  /** In the walk over `sorted(present_fmt_keys)`, the next key is already
      in `fmt_union` exactly when `pref_order` lists it, so appending it when
      missing extends the unlisted part. */
  lemma AppendUnlisted(keys: set<string>, done: seq<string>, remaining: set<string>, k: string, u: seq<string>)
    requires remaining <= keys && k in remaining
    requires forall x | x in done :: x !in remaining
    requires u == PreferredFrom(0, keys) + Unpreferred(done)
    ensures (if k in u then u else u + [k]) == PreferredFrom(0, keys) + Unpreferred(done + [k])
  {
    ListedWhenPreferred(keys, done, k, u);
    UnpreferredSnoc(done, k);
    AppendAssociates(PreferredFrom(0, keys), Unpreferred(done), k);
  }

  lemma ListedWhenPreferred(keys: set<string>, done: seq<string>, k: string, u: seq<string>)
    requires k in keys && k !in done
    requires u == PreferredFrom(0, keys) + Unpreferred(done)
    ensures k in u <==> k in PreferredOrder
  {
  }

  lemma RemovingShrinks(s: set<string>, k: string)
    requires k in s
    ensures |s - {k}| < |s|
  {
  }

  lemma AppendAssociates(p: seq<string>, q: seq<string>, k: string)
    ensures (p + q) + [k] == p + (q + [k])
  {
  }

  lemma UnpreferredSnoc(ks: seq<string>, k: string)
    ensures k in PreferredOrder ==> Unpreferred(ks + [k]) == Unpreferred(ks)
    ensures k !in PreferredOrder ==> Unpreferred(ks + [k]) == Unpreferred(ks) + [k]
  {
    assert (ks + [k])[..|ks|] == ks;
  }

  /** The walk takes the least key left, which is the next element of the
      sorted keys. */
  lemma SortedWalkStep(keys: set<string>, done: seq<string>, remaining: set<string>, k: string)
    requires IsLeastString(k, remaining)
    requires done + SortedStrings(remaining) == SortedStrings(keys)
    ensures (done + [k]) + SortedStrings(remaining - {k}) == SortedStrings(keys)
  {
    SortedStringsCons(remaining, k);
    var rest := SortedStrings(remaining - {k});
    assert (done + [k]) + rest == done + ([k] + rest);
  }

  lemma FormatKeysSnoc(recs: seq<Record>, n: nat)
    requires n < |recs|
    ensures FormatKeys(recs[..n + 1]) == FormatKeys(recs[..n]) + (set k | k in Split(recs[n].format, ':'))
  {
    var prefix := recs[..n + 1];
    forall k | k in FormatKeys(prefix)
      ensures k in FormatKeys(recs[..n]) || k in Split(recs[n].format, ':')
    {
      var i :| 0 <= i < |prefix| && k in Split(prefix[i].format, ':');
      if i < n {
        assert prefix[i] == recs[..n][i];
      }
    }
    forall k | k in FormatKeys(recs[..n])
      ensures k in FormatKeys(prefix)
    {
      var i :| 0 <= i < n && k in Split(recs[..n][i].format, ':');
      assert prefix[i] == recs[..n][i];
    }
    forall k | k in Split(recs[n].format, ':')
      ensures k in FormatKeys(prefix)
    {
      assert prefix[n] == recs[n];
    }
  }

  /** The order of the merged FORMAT column: keys of `pref_order` first, by
      their position there, then every other key by `<` on strings. */
  predicate FormatBefore(a: string, b: string) {
    PrefRank(a) < PrefRank(b) || (PrefRank(a) == 7 && PrefRank(b) == 7 && Less(a, b))
  }

  /** `pref_order` lists exactly the keys of rank below 7. */
  lemma ListedByRank(k: string)
    ensures k in PreferredOrder <==> PrefRank(k) < 7
  {
    if PrefRank(k) < 7 {
      assert PreferredOrder[PrefRank(k)] == k;
    }
  }

  /** What the FORMAT column holds: each key of `keys`, and nothing else. */
  lemma FormatUnionElements(keys: set<string>)
    ensures forall k :: k in FormatUnion(keys) <==> k in keys
  {
    assert PreferredOrder[0..] == PreferredOrder;
    forall k
      ensures k in FormatUnion(keys) <==> k in keys
    {
      ListedByRank(k);
    }
  }

  /** The FORMAT column is in strictly increasing `FormatBefore` order, so
      no key appears twice. */
  lemma FormatUnionOrder(keys: set<string>)
    ensures forall i, j | 0 <= i < j < |FormatUnion(keys)| :: FormatBefore(FormatUnion(keys)[i], FormatUnion(keys)[j])
  {
    var sorted := SortedStrings(keys);
    var rest := Unpreferred(sorted);
    UnpreferredAscending(sorted);
    assert forall a | 0 <= a < |rest| :: rest[a] in rest;
    OrderedConcat(PreferredFrom(0, keys), rest);
  }

  /** The listed keys by rank, then the unlisted ones ascending, are in
      `FormatBefore` order. */
  lemma OrderedConcat(p: seq<string>, rest: seq<string>)
    requires forall a | 0 <= a < |p| :: PrefRank(p[a]) < 7
    requires forall a, b | 0 <= a < b < |p| :: PrefRank(p[a]) < PrefRank(p[b])
    requires forall a | 0 <= a < |rest| :: rest[a] !in PreferredOrder
    requires forall a, b | 0 <= a < b < |rest| :: Less(rest[a], rest[b])
    ensures forall i, j | 0 <= i < j < |p + rest| :: FormatBefore((p + rest)[i], (p + rest)[j])
  {
    var u := p + rest;
    forall a | 0 <= a < |rest|
      ensures PrefRank(rest[a]) == 7
    {
      ListedByRank(rest[a]);
    }
    forall i, j | 0 <= i < j < |u|
      ensures FormatBefore(u[i], u[j])
    {
      if j < |p| {
        assert u[i] == p[i] && u[j] == p[j];
      } else if i >= |p| {
        assert u[i] == rest[i - |p|] && u[j] == rest[j - |p|];
      } else {
        assert u[i] == p[i] && u[j] == rest[j - |p|];
      }
    }
  }

  /** Two different keys are ordered one way or the other, never both. */
  lemma FormatBeforeStrictTotal(a: string, b: string)
    ensures !FormatBefore(a, a)
    ensures a != b ==> (FormatBefore(a, b) || FormatBefore(b, a))
    ensures !(FormatBefore(a, b) && FormatBefore(b, a))
  {
    LessIrreflexive(a);
    LessTrichotomy(a, b);
    if PrefRank(a) == PrefRank(b) && PrefRank(a) < 7 {
      ListedByRank(a);
      ListedByRank(b);
      assert PreferredOrder[PrefRank(a)] == a && PreferredOrder[PrefRank(b)] == b;
    }
  }

  /** Keeping the unlisted keys of an ascending sequence keeps it ascending. */
  lemma {:induction false} UnpreferredAscending(ks: seq<string>)
    requires forall i, j | 0 <= i < j < |ks| :: Less(ks[i], ks[j])
    ensures forall i, j | 0 <= i < j < |Unpreferred(ks)| :: Less(Unpreferred(ks)[i], Unpreferred(ks)[j])
  {
    if |ks| > 0 {
      var init := ks[..|ks| - 1];
      UnpreferredAscending(init);
      var last := ks[|ks| - 1];
      forall x | x in Unpreferred(init)
        ensures Less(x, last)
      {
        var a :| 0 <= a < |init| && init[a] == x;
      }
    }
  }

  /** `[data.get(k, ".") for k in fmt_union]`. */
  function Values(data: map<string, string>, fmt: seq<string>): seq<string> {
    seq(|fmt|, i requires 0 <= i < |fmt| => Lookup(data, fmt[i]))
  }

  /** The eleven columns of an output row. */
  function RowFields(key: VariantKey, info: string, fmt: seq<string>, data: SampleData): seq<string> {
    [key.chrom, NatToString(key.pos), ".", key.ref, key.alt, ".", "PASS", info,
     Join(fmt, ':'), Join(Values(data.normal, fmt), ':'), Join(Values(data.tumor, fmt), ':')]
  }

  /** The output line for one variant, without its newline. */
  function Row(key: VariantKey, info: string, fmt: seq<string>, data: SampleData): string {
    Join(RowFields(key, info, fmt, data), '\t')
  }

  /** Reading an output row back with the table parser gives its variant
      key, its INFO and FORMAT columns and the NORMAL and TUMOR columns, as
      long as no field holds a tab and the TUMOR column does not end in
      whitespace (which the parser's `rstrip` would remove). */
  lemma ReadRow(key: VariantKey, info: string, fmt: seq<string>, data: SampleData)
    requires KeyTabFree(key) && TabFree(info)
    requires forall i | 0 <= i < |fmt| :: TabFree(fmt[i])
    requires forall k | k in data.normal :: TabFree(data.normal[k])
    requires forall k | k in data.tumor :: TabFree(data.tumor[k])
    requires var tumor := Join(Values(data.tumor, fmt), ':'); |tumor| > 0 && !IsSpace(tumor[|tumor| - 1])
    ensures ParseDataLine(Row(key, info, fmt, data))
         == Success((key, Record(info, Join(fmt, ':'),
                                 [Join(Values(data.normal, fmt), ':'), Join(Values(data.tumor, fmt), ':')])))
  {
    var fields := RowFields(key, info, fmt, data);
    var pos := NatToString(key.pos);
    assert !IsDigit('\t');
    assert TabFree(pos);
    JoinExcludes(fmt, ':', '\t');
    ValuesTabFree(data.normal, fmt);
    ValuesTabFree(data.tumor, fmt);
    assert forall i | 0 <= i < |fields| :: TabFree(fields[i]);
    DataLineRoundTrip(fields);
  }

  lemma ValuesTabFree(data: map<string, string>, fmt: seq<string>)
    requires forall k | k in data :: TabFree(data[k])
    ensures TabFree(Join(Values(data, fmt), ':'))
  {
    JoinExcludes(Values(data, fmt), ':', '\t');
  }

  /** No FORMAT key holds a colon, none holds a tab when the records hold
      none, and there is at least one when some caller reports the key. */
  lemma FormatUnionClean(recs: seq<Record>)
    ensures forall i | 0 <= i < |FormatUnion(FormatKeys(recs))| :: ':' !in FormatUnion(FormatKeys(recs))[i]
    ensures (forall j | 0 <= j < |recs| :: RecordTabFree(recs[j])) ==>
              forall i | 0 <= i < |FormatUnion(FormatKeys(recs))| :: TabFree(FormatUnion(FormatKeys(recs))[i])
    ensures |recs| >= 1 ==> |FormatUnion(FormatKeys(recs))| >= 1
  {
    FormatUnionElements(FormatKeys(recs));
    KeyListClean(recs, FormatUnion(FormatKeys(recs)));
  }

  lemma KeyListClean(recs: seq<Record>, u: seq<string>)
    requires forall k :: k in u <==> k in FormatKeys(recs)
    ensures forall i | 0 <= i < |u| :: ':' !in u[i]
    ensures (forall j | 0 <= j < |recs| :: RecordTabFree(recs[j])) ==> forall i | 0 <= i < |u| :: TabFree(u[i])
    ensures |recs| >= 1 ==> |u| >= 1
  {
    forall i | 0 <= i < |u|
      ensures ':' !in u[i]
      ensures (forall j | 0 <= j < |recs| :: RecordTabFree(recs[j])) ==> TabFree(u[i])
    {
      FormatKeyClean(recs, u[i]);
    }
    if |recs| >= 1 {
      var k := Split(recs[0].format, ':')[0];
      assert k in Split(recs[0].format, ':');
      assert k in FormatKeys(recs);
      assert k in u;
    }
  }

  lemma FormatKeyClean(recs: seq<Record>, k: string)
    requires k in FormatKeys(recs)
    ensures ':' !in k
    ensures (forall j | 0 <= j < |recs| :: RecordTabFree(recs[j])) ==> TabFree(k)
  {
    var j :| 0 <= j < |recs| && k in Split(recs[j].format, ':');
    if RecordTabFree(recs[j]) {
      SplitExcludes(recs[j].format, ':', '\t');
    }
  }

  /** The INFO column holds no tab. */
  lemma InfoTabFree(present: seq<Caller>, recs: seq<Record>)
    ensures TabFree(MergedInfo(present, recs))
  {
    var parts := InfoParts(|present|, Names(present), AnySomatic(recs));
    NamesClean(present);
    JoinExcludes(Names(present), ',', '\t');
    assert !IsDigit('\t');
    assert TabFree(NatToString(|present|));
    JoinExcludes(parts, ';', '\t');
  }

  /** What a row needs to be read back column by column: no tab in any
      field, no colon in a FORMAT key or a sample value, and at least one
      FORMAT key. */
  predicate Readable(key: VariantKey, info: string, fmt: seq<string>, data: SampleData) {
    && KeyTabFree(key) && TabFree(info) && |fmt| >= 1
    && (forall i | 0 <= i < |fmt| :: TabFree(fmt[i]) && ':' !in fmt[i])
    && (forall k | k in data.normal :: TabFree(data.normal[k]) && ':' !in data.normal[k])
    && (forall k | k in data.tumor :: TabFree(data.tumor[k]) && ':' !in data.tumor[k])
  }

  /** Splitting a row on tabs gives eleven columns: the key's CHROM, POS,
      REF and ALT, ID and QUAL ".", FILTER "PASS", the INFO, the FORMAT
      keys, and one NORMAL and one TUMOR value per FORMAT key. */
  lemma RowColumns(key: VariantKey, info: string, fmt: seq<string>, data: SampleData)
    requires Readable(key, info, fmt, data)
    ensures var cols := Split(Row(key, info, fmt, data), '\t');
            && |cols| == 11
            && cols[0] == key.chrom && ParseNat(cols[1]) == Some(key.pos)
            && cols[2] == "." && cols[3] == key.ref && cols[4] == key.alt
            && cols[5] == "." && cols[6] == "PASS" && cols[7] == info
            && Split(cols[8], ':') == fmt
            && Split(cols[9], ':') == Values(data.normal, fmt)
            && Split(cols[10], ':') == Values(data.tumor, fmt)
  {
    RowSplits(key, info, fmt, data);
    SampleColumnsSplit(fmt, data);
  }

  lemma SampleColumnsSplit(fmt: seq<string>, data: SampleData)
    requires |fmt| >= 1 && forall i | 0 <= i < |fmt| :: ':' !in fmt[i]
    requires forall k | k in data.normal :: ':' !in data.normal[k]
    requires forall k | k in data.tumor :: ':' !in data.tumor[k]
    ensures Split(Join(fmt, ':'), ':') == fmt
    ensures Split(Join(Values(data.normal, fmt), ':'), ':') == Values(data.normal, fmt)
    ensures Split(Join(Values(data.tumor, fmt), ':'), ':') == Values(data.tumor, fmt)
  {
    SplitJoin(fmt, ':');
    ValuesExclude(data.normal, fmt, ':');
    ValuesExclude(data.tumor, fmt, ':');
    SplitJoin(Values(data.normal, fmt), ':');
    SplitJoin(Values(data.tumor, fmt), ':');
  }

  lemma RowSplits(key: VariantKey, info: string, fmt: seq<string>, data: SampleData)
    requires Readable(key, info, fmt, data)
    ensures Split(Row(key, info, fmt, data), '\t') == RowFields(key, info, fmt, data)
  {
    var fields := RowFields(key, info, fmt, data);
    assert !IsDigit('\t');
    assert TabFree(NatToString(key.pos));
    JoinExcludes(fmt, ':', '\t');
    ValuesTabFree(data.normal, fmt);
    ValuesTabFree(data.tumor, fmt);
    assert forall i | 0 <= i < |fields| :: TabFree(fields[i]);
    SplitJoin(fields, '\t');
  }

  lemma ValuesExclude(data: map<string, string>, fmt: seq<string>, c: char)
    requires c != '.'
    requires forall k | k in data :: c !in data[k]
    ensures forall i | 0 <= i < |Values(data, fmt)| :: c !in Values(data, fmt)[i]
  {
  }

  /** The merged row of records without tabs can be read back column by
      column, and every NORMAL value in it is ".". */
  lemma MergeReadable(key: VariantKey, present: seq<Caller>, recs: seq<Record>, data: SampleData)
    requires KeyTabFree(key)
    requires |recs| >= 1 && forall j | 0 <= j < |recs| :: RecordTabFree(recs[j])
    requires MergeSpec(recs) == Success(data)
    ensures var fmt := FormatUnion(FormatKeys(recs));
            && Readable(key, MergedInfo(present, recs), fmt, data)
            && forall i | 0 <= i < |fmt| :: Values(data.normal, fmt)[i] == "."
  {
    MergedValuesClean(recs, data);
    FormatUnionClean(recs);
    InfoTabFree(present, recs);
    assert data.normal == map["GT" := "."];
  }
}
