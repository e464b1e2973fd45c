/** `main`'s merge: every variant key of every caller table, sorted by
    chromosome rank and position; a key reported by at least two caller
    entries becomes one output row, after the fixed header and the column
    line. A record that cannot be merged stops the run, leaving the lines
    written so far. */
module Combiner {
  import opened Wrappers
  import opened Text
  import opened Chromosomes
  import opened FilteredTable
  import opened FieldMerge
  import opened MergedRecord
  import opened MergedHeader

  /** `all_keys`: the union of the keys of every caller table. */
  function AllKeys(tables: Tables): (keys: set<VariantKey>)
    ensures forall c, k | c in tables && k in tables[c] :: k in keys
    ensures forall k | k in keys :: exists c :: c in tables && k in tables[c]
  {
    set c, k | c in tables && k in tables[c] :: k
  }

  /** The loop over `caller_records.values()`, visiting the tables in an
      unspecified order. */
  method CollectKeys(tables: Tables) returns (keys: set<VariantKey>)
    ensures keys == AllKeys(tables)
  {
    keys := {};
    var pending := tables.Keys;
    while pending != {}
      invariant pending <= tables.Keys
      invariant forall c, k | c in tables && c !in pending && k in tables[c] :: k in keys
      invariant forall k | k in keys :: exists c :: c in tables && c !in pending && k in tables[c]
      decreases pending
    {
      var c :| c in pending;
      keys := keys + tables[c].Keys;
      pending := pending - {c};
    }
  }

  /** The sort key `(chr_sort_key(chrom), pos)` of `main`, compared as a
      Python tuple. */
  predicate SortLess(a: VariantKey, b: VariantKey) {
    var ra, rb := ChrSortKey(a.chrom), ChrSortKey(b.chrom);
    RankLess(ra, rb) || (ra == rb && a.pos < b.pos)
  }

  predicate SameSortKey(a: VariantKey, b: VariantKey) {
    ChrSortKey(a.chrom) == ChrSortKey(b.chrom) && a.pos == b.pos
  }

  /** What `sorted(all_keys, key=...)` guarantees of its result: no key
      comes after one whose sort key is greater. Keys with equal sort keys
      may come in either order. */
  predicate SortedAsWritten(keys: seq<VariantKey>) {
    forall i, j | 0 <= i < j < |keys| :: !SortLess(keys[j], keys[i])
  }

  /** Lexicographic `<` on equally long tuples of strings. */
  predicate StringsLess(xs: seq<string>, ys: seq<string>)
    requires |xs| == |ys|
    decreases |xs|
  {
    |xs| > 0 && (Less(xs[0], ys[0]) || (xs[0] == ys[0] && StringsLess(xs[1..], ys[1..])))
  }

  /** The string parts of a key, compared when the sort keys tie. */
  function Labels(k: VariantKey): seq<string> {
    [k.chrom, k.ref, k.alt]
  }

  /** The order rows are written in: the sort key of `main`, ties broken by
      chromosome label, reference and alternate allele. */
  predicate KeyLess(a: VariantKey, b: VariantKey) {
    SortLess(a, b) || (SameSortKey(a, b) && StringsLess(Labels(a), Labels(b)))
  }

  lemma {:induction false} StringsLessStrictTotal(xs: seq<string>, ys: seq<string>, zs: seq<string>)
    requires |xs| == |ys| == |zs|
    ensures !StringsLess(xs, xs)
    ensures StringsLess(xs, ys) || xs == ys || StringsLess(ys, xs)
    ensures !(StringsLess(xs, ys) && StringsLess(ys, xs))
    ensures StringsLess(xs, ys) && StringsLess(ys, zs) ==> StringsLess(xs, zs)
    decreases |xs|
  {
    if |xs| > 0 {
      StringsLessStrictTotal(xs[1..], ys[1..], zs[1..]);
      LessIrreflexive(xs[0]);
      LessTrichotomy(xs[0], ys[0]);
      if Less(xs[0], ys[0]) && Less(ys[0], zs[0]) {
        LessTransitive(xs[0], ys[0], zs[0]);
      }
      if xs[0] == ys[0] && xs[1..] == ys[1..] {
        assert xs == [xs[0]] + xs[1..] && ys == [ys[0]] + ys[1..];
      }
    }
  }

  /** The row order is a strict total order on keys. */
  lemma KeyLessStrictTotal(a: VariantKey, b: VariantKey, c: VariantKey)
    ensures !KeyLess(a, a)
    ensures a != b ==> KeyLess(a, b) || KeyLess(b, a)
    ensures !(KeyLess(a, b) && KeyLess(b, a))
    ensures KeyLess(a, b) && KeyLess(b, c) ==> KeyLess(a, c)
  {
    RankLessStrictTotal(ChrSortKey(a.chrom), ChrSortKey(b.chrom), ChrSortKey(c.chrom));
    StringsLessStrictTotal(Labels(a), Labels(b), Labels(c));
    if Labels(a) == Labels(b) {
      assert a.chrom == Labels(a)[0] && a.ref == Labels(a)[1] && a.alt == Labels(a)[2];
    }
  }

  /** The row order is one of the orders `sorted` may produce: a key before
      another never has the greater sort key. */
  lemma KeyLessRefines(a: VariantKey, b: VariantKey)
    requires KeyLess(a, b)
    ensures !SortLess(b, a)
  {
    RankLessStrictTotal(ChrSortKey(a.chrom), ChrSortKey(b.chrom), ChrSortKey(a.chrom));
  }

  predicate IsLeastKey(m: VariantKey, s: set<VariantKey>) {
    m in s && forall x | x in s && x != m :: KeyLess(m, x)
  }

  lemma {:induction false} LeastKey(s: set<VariantKey>)
    requires s != {}
    ensures exists m :: IsLeastKey(m, s)
    decreases |s|
  {
    var y :| y in s;
    if s == {y} {
      assert IsLeastKey(y, s);
    } else {
      LeastKey(s - {y});
      var m :| IsLeastKey(m, s - {y});
      KeyLessStrictTotal(m, y, m);
      if KeyLess(m, y) {
        assert IsLeastKey(m, s);
      } else {
        forall x | x in s && x != y
          ensures KeyLess(y, x)
        {
          if x != m {
            KeyLessStrictTotal(y, m, x);
          }
        }
        assert IsLeastKey(y, s);
      }
    }
  }

  /** The keys of `s` in row order. */
  ghost function SortedKeys(s: set<VariantKey>): (r: seq<VariantKey>)
    ensures forall k :: k in r <==> k in s
    ensures forall i, j | 0 <= i < j < |r| :: KeyLess(r[i], r[j])
    decreases |s|
  {
    if s == {} then []
    else
      LeastKey(s);
      var m :| IsLeastKey(m, s);
      [m] + SortedKeys(s - {m})
  }

  lemma SortedKeysCons(s: set<VariantKey>, k: VariantKey)
    requires IsLeastKey(k, s)
    ensures SortedKeys(s) == [k] + SortedKeys(s - {k})
  {
    var r := SortedKeys(s);
    if r[0] != k {
      var j :| 0 <= j < |r| && r[j] == k;
      KeyLessStrictTotal(r[0], k, k);
    }
  }

  /** The row order leaves nothing open: a sequence holding the keys of `s`
      in strictly increasing order is `SortedKeys(s)`. */
  lemma {:induction false} SortedKeysUnique(s: set<VariantKey>, r: seq<VariantKey>)
    requires forall k :: k in r <==> k in s
    requires forall i, j | 0 <= i < j < |r| :: KeyLess(r[i], r[j])
    ensures r == SortedKeys(s)
    decreases |s|
  {
    if |r| == 0 {
      assert forall k :: k !in s;
      assert s == {};
    } else {
      AscendingHead(s, r);
      SortedKeysCons(s, r[0]);
      SortedKeysUnique(s - {r[0]}, r[1..]);
      assert r == [r[0]] + r[1..];
    }
  }

  /** A strictly increasing sequence of the keys of `s` starts with the least
      key and continues with the others. */
  lemma AscendingHead(s: set<VariantKey>, r: seq<VariantKey>)
    requires forall k :: k in r <==> k in s
    requires forall i, j | 0 <= i < j < |r| :: KeyLess(r[i], r[j])
    requires |r| > 0
    ensures IsLeastKey(r[0], s)
    ensures forall k :: k in r[1..] <==> k in s - {r[0]}
  {
    forall x | x in s && x != r[0]
      ensures KeyLess(r[0], x)
    {
      var j :| 0 <= j < |r| && r[j] == x;
    }
    forall x
      ensures x in r[1..] <==> x in s - {r[0]}
    {
      if x in r[1..] {
        var j :| 0 <= j < |r[1..]| && r[1..][j] == x;
        assert r[j + 1] == x;
        KeyLessStrictTotal(r[0], r[0], r[0]);
      }
      if x in s && x != r[0] {
        var j :| 0 <= j < |r| && r[j] == x;
        assert x == r[1..][j - 1];
      }
    }
  }

  /** The corrected order is one `sorted` may produce as written. */
  lemma SortedKeysAsWritten(s: set<VariantKey>)
    ensures SortedAsWritten(SortedKeys(s))
  {
    var r := SortedKeys(s);
    forall i, j | 0 <= i < j < |r|
      ensures !SortLess(r[j], r[i])
    {
      KeyLessRefines(r[i], r[j]);
    }
  }

  /** Two distinct keys that tie on the sort key of `main` are sorted as
      written in both orders: which one the file gets depends on the
      iteration order of the key set. */
  lemma TiedKeysEitherOrder(a: VariantKey, b: VariantKey)
    requires a != b && SameSortKey(a, b)
    ensures SortedAsWritten([a, b]) && SortedAsWritten([b, a])
  {
    RankLessStrictTotal(ChrSortKey(a.chrom), ChrSortKey(a.chrom), ChrSortKey(a.chrom));
  }

  /** Such a pair: one position with two alternate alleles. */
  lemma TiedAlleles()
    ensures var a, b := VariantKey("chr1", 100, "A", "G"), VariantKey("chr1", 100, "A", "T");
            && a != b && SortedAsWritten([a, b]) && SortedAsWritten([b, a])
  {
    var a, b := VariantKey("chr1", 100, "A", "G"), VariantKey("chr1", 100, "A", "T");
    assert "G" != "T" by { assert "G"[0] != "T"[0]; }
    TiedKeysEitherOrder(a, b);
  }

  /** `sorted(all_keys, ...)`, with the corrected order: the least key left
      is taken until none is left. */
  method SortKeys(keys: set<VariantKey>) returns (sorted: seq<VariantKey>)
    ensures sorted == SortedKeys(keys)
  {
    sorted := [];
    var remaining := keys;
    while remaining != {}
      invariant sorted + SortedKeys(remaining) == SortedKeys(keys)
      decreases remaining
    {
      LeastKey(remaining);
      var k :| k in remaining && IsLeastKey(k, remaining);
      SortedKeysStep(keys, sorted, remaining, k);
      sorted := sorted + [k];
      remaining := remaining - {k};
    }
    AppendEmpty(sorted);
  }

  lemma SortedKeysStep(keys: set<VariantKey>, sorted: seq<VariantKey>, remaining: set<VariantKey>, k: VariantKey)
    requires IsLeastKey(k, remaining)
    requires sorted + SortedKeys(remaining) == SortedKeys(keys)
    ensures (sorted + [k]) + SortedKeys(remaining - {k}) == SortedKeys(keys)
  {
    SortedKeysCons(remaining, k);
    assert (sorted + [k]) + SortedKeys(remaining - {k}) == sorted + ([k] + SortedKeys(remaining - {k}));
  }

  /** What one key contributes to the output. */
  datatype KeyOutcome = Skip | Emitted(row: string) | Failed(error: MergeError)

  /** The loop body for one key: skipped when fewer than two entries report
      it, otherwise merged into one row, or the merge error. */
  ghost function RenderKey(tables: Tables, key: VariantKey): (o: KeyOutcome)
    ensures o.Skip? <==> |PresentCallers(tables, key)| < 2
  {
    var present := PresentCallers(tables, key);
    if |present| < 2 then Skip
    else
      var recs := RecordsOf(tables, key, present);
      match MergeSpec(recs)
      case Failure(e) => Failed(e)
      case Success(data) => Emitted(Row(key, MergedInfo(present, recs), FormatUnion(FormatKeys(recs)), data))
  }

  /** The loop body for one key, calling the merge, INFO and FORMAT
      builders. */
  method MergeKey(tables: Tables, key: VariantKey) returns (o: KeyOutcome)
    ensures o == RenderKey(tables, key)
  {
    var present := PresentCallers(tables, key);
    if |present| < 2 {
      return Skip;
    }
    var merged := MergeVariantFields(tables, key, present);
    if merged.Failure? {
      return Failed(merged.error);
    }
    var recs := RecordsOf(tables, key, present);
    var info := BuildInfo(present, recs);
    var fmt := BuildFormat(recs);
    o := Emitted(Row(key, info, fmt, merged.value));
  }

  ghost function Renderer(tables: Tables): VariantKey -> KeyOutcome {
    k => RenderKey(tables, k)
  }

  /** The rows written for `keys` and the error that stopped the loop, if
      any. */
  datatype Written = Written(rows: seq<string>, error: Option<MergeError>)

  /** The output loop over `keys`, each rendered by `render`: skipped keys
      write nothing, emitted rows are written in order, and the first
      failure ends the loop. */
  function WriteRows(render: VariantKey -> KeyOutcome, keys: seq<VariantKey>): Written
    decreases |keys|
  {
    if |keys| == 0 then Written([], None)
    else
      match render(keys[0])
      case Skip => WriteRows(render, keys[1..])
      case Failed(e) => Written([], Some(e))
      case Emitted(row) =>
        var rest := WriteRows(render, keys[1..]);
        Written([row] + rest.rows, rest.error)
  }

  /** The rows of a whole run. */
  ghost function Combined(tables: Tables): Written {
    WriteRows(Renderer(tables), SortedKeys(AllKeys(tables)))
  }

  /** The keys among `keys` that `render` does not skip, in order. */
  function Merged(render: VariantKey -> KeyOutcome, keys: seq<VariantKey>): (m: seq<VariantKey>)
    ensures forall k :: k in m <==> k in keys && !render(k).Skip?
    decreases |keys|
  {
    if |keys| == 0 then []
    else (if render(keys[0]).Skip? then [] else [keys[0]]) + Merged(render, keys[1..])
  }

  /** The merge loop of `main`: header and column line, then one row per key
      reported by at least two entries, in row order; the first merge error
      ends the run. */
  method CombineTables(tables: Tables) returns (lines: seq<string>, failure: Option<MergeError>)
    ensures lines == HeaderLines() + [ColumnHeader()] + Combined(tables).rows
    ensures failure == Combined(tables).error
  {
    var allKeys := CollectKeys(tables);
    var sortedKeys := SortKeys(allKeys);
    var rows;
    RendererRenders(tables);
    rows, failure := WriteMerged(tables, sortedKeys, Renderer(tables));
    lines := HeaderLines() + [ColumnHeader()] + rows;
  }

  /** The loop over the sorted keys: each key is merged and its row written
      before the next key is looked at. `render` gives each key's outcome as
      `RenderKey` does. */
  method WriteMerged(tables: Tables, keys: seq<VariantKey>, ghost render: VariantKey -> KeyOutcome)
      returns (rows: seq<string>, failure: Option<MergeError>)
    requires forall k {:trigger RenderKey(tables, k)} :: render(k) == RenderKey(tables, k)
    ensures Written(rows, failure) == WriteRows(render, keys)
  {
    rows := [];
    var n := 0;
    while n < |keys|
      invariant 0 <= n <= |keys|
      invariant WriteRows(render, keys) == Resume(rows, WriteRows(render, keys[n..]))
    {
      var o := MergeKey(tables, keys[n]);
      WriteAdvance(render, keys, n, rows, o);
      if o.Failed? {
        return rows, Some(o.error);
      }
      if o.Emitted? {
        rows := rows + [o.row];
      }
      n := n + 1;
    }
    WriteDone(render, keys, rows);
    failure := None;
  }

  lemma RendererRenders(tables: Tables)
    ensures forall k {:trigger RenderKey(tables, k)} :: Renderer(tables)(k) == RenderKey(tables, k)
  {
  }

  /** The rows already written followed by what the rest of the loop
      writes. */
  function Resume(rows: seq<string>, rest: Written): Written {
    Written(rows + rest.rows, rest.error)
  }

  /** One iteration of the output loop. */
  lemma WriteAdvance(render: VariantKey -> KeyOutcome, keys: seq<VariantKey>, n: nat, rows: seq<string>, o: KeyOutcome)
    requires n < |keys| && render(keys[n]) == o
    requires WriteRows(render, keys) == Resume(rows, WriteRows(render, keys[n..]))
    ensures o.Skip? ==> WriteRows(render, keys) == Resume(rows, WriteRows(render, keys[n + 1..]))
    ensures o.Emitted? ==> WriteRows(render, keys) == Resume(rows + [o.row], WriteRows(render, keys[n + 1..]))
    ensures o.Failed? ==> WriteRows(render, keys) == Written(rows, Some(o.error))
  {
    assert keys[n..][0] == keys[n] && keys[n..][1..] == keys[n + 1..];
    if o.Emitted? {
      AppendRow(rows, o.row, WriteRows(render, keys[n + 1..]).rows);
    } else if o.Failed? {
      AppendEmpty(rows);
    }
  }

  lemma WriteDone(render: VariantKey -> KeyOutcome, keys: seq<VariantKey>, rows: seq<string>)
    requires WriteRows(render, keys) == Resume(rows, WriteRows(render, keys[|keys|..]))
    ensures WriteRows(render, keys) == Written(rows, None)
  {
    assert keys[|keys|..] == [];
    AppendEmpty(rows);
  }

  lemma AppendRow(rows: seq<string>, row: string, rest: seq<string>)
    ensures rows + ([row] + rest) == (rows + [row]) + rest
  {
  }

  /** When the loop completes, its rows are, one for one, the rows of the
      keys it does not skip. */
  lemma {:induction false} RowsOfMerged(render: VariantKey -> KeyOutcome, keys: seq<VariantKey>)
    requires WriteRows(render, keys).error == None
    ensures |WriteRows(render, keys).rows| == |Merged(render, keys)|
    ensures forall i | 0 <= i < |Merged(render, keys)| ::
              render(Merged(render, keys)[i]) == Emitted(WriteRows(render, keys).rows[i])
    decreases |keys|
  {
    if |keys| > 0 {
      RowsOfMerged(render, keys[1..]);
      var rest := Merged(render, keys[1..]);
      if render(keys[0]).Skip? {
        assert Merged(render, keys) == [] + rest;
      } else {
        assert Merged(render, keys) == [keys[0]] + rest;
      }
    }
  }

  /** When the loop stops, it stops at a key whose rendering fails with the
      reported error; the rows written are those of the keys before it,
      which all render without error. */
  lemma {:induction false} RowsBeforeFailure(render: VariantKey -> KeyOutcome, keys: seq<VariantKey>)
    requires WriteRows(render, keys).error.Some?
    ensures exists i | 0 <= i < |keys| ::
              && render(keys[i]) == Failed(WriteRows(render, keys).error.value)
              && WriteRows(render, keys[..i]) == Written(WriteRows(render, keys).rows, None)
    decreases |keys|
  {
    var w := WriteRows(render, keys);
    assert keys[..0] == [];
    match render(keys[0])
    case Failed(e) =>
      assert render(keys[0]) == Failed(w.error.value);
    case Skip =>
      RowsBeforeFailure(render, keys[1..]);
      var i :| 0 <= i < |keys[1..]| && render(keys[1..][i]) == Failed(w.error.value)
                && WriteRows(render, keys[1..][..i]) == Written(w.rows, None);
      PrefixTail(keys, i + 1);
      assert keys[1..][i] == keys[i + 1];
    case Emitted(row) =>
      RowsBeforeFailure(render, keys[1..]);
      var rest := WriteRows(render, keys[1..]);
      var i :| 0 <= i < |keys[1..]| && render(keys[1..][i]) == Failed(rest.error.value)
                && WriteRows(render, keys[1..][..i]) == Written(rest.rows, None);
      PrefixTail(keys, i + 1);
      assert keys[1..][i] == keys[i + 1];
  }

  lemma PrefixTail(keys: seq<VariantKey>, i: nat)
    requires 0 < i <= |keys|
    ensures keys[..i][0] == keys[0] && keys[..i][1..] == keys[1..][..i - 1]
  {
  }

  /** The keys `render` does not skip keep the order of `keys`. */
  lemma {:induction false} MergedAscending(render: VariantKey -> KeyOutcome, keys: seq<VariantKey>)
    requires forall i, j | 0 <= i < j < |keys| :: KeyLess(keys[i], keys[j])
    ensures forall i, j | 0 <= i < j < |Merged(render, keys)| ::
              KeyLess(Merged(render, keys)[i], Merged(render, keys)[j])
    decreases |keys|
  {
    if |keys| > 0 {
      var rest := Merged(render, keys[1..]);
      MergedAscending(render, keys[1..]);
      forall j | 0 <= j < |rest|
        ensures KeyLess(keys[0], rest[j])
      {
        assert rest[j] in keys[1..];
        var a :| 0 <= a < |keys[1..]| && keys[1..][a] == rest[j];
        assert keys[1..][a] == keys[a + 1];
      }
      if render(keys[0]).Skip? {
        assert Merged(render, keys) == [] + rest;
      } else {
        assert Merged(render, keys) == [keys[0]] + rest;
      }
    }
  }

  /** The keys a run merges are exactly those at least two entries report,
      each once, in row order. */
  lemma MergedKeys(tables: Tables)
    ensures var m := Merged(Renderer(tables), SortedKeys(AllKeys(tables)));
            && (forall k :: k in m <==> |PresentCallers(tables, k)| >= 2)
            && (forall i, j | 0 <= i < j < |m| :: KeyLess(m[i], m[j]) && m[i] != m[j])
  {
    var s := SortedKeys(AllKeys(tables));
    var m := Merged(Renderer(tables), s);
    MergedAscending(Renderer(tables), s);
    forall k
      ensures k in m <==> |PresentCallers(tables, k)| >= 2
    {
      if |PresentCallers(tables, k)| >= 2 {
        assert Holds(tables, PresentCallers(tables, k)[0], k);
      }
      assert Renderer(tables)(k).Skip? <==> |PresentCallers(tables, k)| < 2;
    }
    forall i, j | 0 <= i < j < |m|
      ensures m[i] != m[j]
    {
      KeyLessStrictTotal(m[i], m[j], m[j]);
    }
  }

  /** A completed run writes, for every key at least two entries report and
      in row order, that key's merged row. */
  lemma CompletedRun(tables: Tables)
    requires Combined(tables).error == None
    ensures var m := Merged(Renderer(tables), SortedKeys(AllKeys(tables)));
            && |Combined(tables).rows| == |m|
            && forall i | 0 <= i < |m| :: RenderKey(tables, m[i]) == Emitted(Combined(tables).rows[i])
  {
    RowsOfMerged(Renderer(tables), SortedKeys(AllKeys(tables)));
  }

  /** The tables a run reads: keys and records without tabs, as every table
      the parser returns (`RecordsTabFree`). */
  predicate TablesTabFree(tables: Tables) {
    forall c, k | c in tables && k in tables[c] :: KeyTabFree(k) && RecordTabFree(tables[c][k])
  }

  /** A row merged from tables without tabs, over callers that all hold the
      key (as `PresentCallers` are), reads back column by column as
      `RowColumns` states, and every NORMAL value in it is ".". */
  lemma EmittedReadable(tables: Tables, key: VariantKey, present: seq<Caller>, data: SampleData)
    requires TablesTabFree(tables)
    requires |present| >= 1 && forall i | 0 <= i < |present| :: present[i] in tables && key in tables[present[i]]
    requires MergeSpec(RecordsOf(tables, key, present)) == Success(data)
    ensures var recs := RecordsOf(tables, key, present);
            var fmt := FormatUnion(FormatKeys(recs));
            && Readable(key, MergedInfo(present, recs), fmt, data)
            && forall i | 0 <= i < |fmt| :: Values(data.normal, fmt)[i] == "."
  {
    RecordsOfTabFree(tables, key, present);
    MergeReadable(key, present, RecordsOf(tables, key, present), data);
  }

  lemma RecordsOfTabFree(tables: Tables, key: VariantKey, present: seq<Caller>)
    requires TablesTabFree(tables)
    requires |present| >= 1 && forall i | 0 <= i < |present| :: present[i] in tables && key in tables[present[i]]
    ensures KeyTabFree(key)
    ensures forall j | 0 <= j < |present| :: RecordTabFree(RecordsOf(tables, key, present)[j])
  {
    assert present[0] in tables && key in tables[present[0]];
  }
}
