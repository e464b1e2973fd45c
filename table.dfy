/** `parse_filtered_vcf`: one caller's filtered variant table, given as its
    lines (without line terminators), becomes its `##` header lines, its
    `#CHROM` column header and a map from variant key to record. */
module FilteredTable {
  import opened Wrappers
  import opened Text

  /** `(CHROM, POS, REF, ALT)`: columns 0, 1, 3 and 4 of a data line. */
  datatype VariantKey = VariantKey(chrom: string, pos: nat, ref: string, alt: string)

  /** `(INFO, FORMAT, sample columns)`: column 7, column 8 and columns 9 on. */
  datatype Record = Record(info: string, format: string, samples: seq<string>)

  /** `IndexError` for a line with too few tab fields, `ValueError` for a
      position `int()` rejects. */
  datatype ParseError = MissingField | BadPosition

  datatype Table = Table(headerLines: seq<string>, columnHeader: Option<string>,
                         records: map<VariantKey, Record>)

  predicate TabFree(s: string) {
    '\t' !in s
  }

  predicate KeyTabFree(k: VariantKey) {
    TabFree(k.chrom) && TabFree(k.ref) && TabFree(k.alt)
  }

  predicate RecordTabFree(r: Record) {
    TabFree(r.info) && TabFree(r.format) && forall i | 0 <= i < |r.samples| :: TabFree(r.samples[i])
  }

  /** A line the data phase passes over: blank, or starting with `#`. */
  predicate Skipped(line: string) {
    IsBlank(line) || StartsWith(line, "#")
  }

  /** One data line: split on tab after `rstrip`; POS is read before the
      columns from 3 on are indexed, so a short line with a bad POS reports
      the bad POS. */
  function ParseDataLine(line: string): (r: Result<(VariantKey, Record), ParseError>)
    ensures var cols := Split(RStrip(line), '\t');
            && (r.Failure? <==> |cols| < 9 || !IsDigits(cols[1]))
            && (r == Failure(BadPosition) <==> |cols| >= 2 && !IsDigits(cols[1]))
    ensures r.Success? ==> KeyTabFree(r.value.0) && RecordTabFree(r.value.1)
  {
    var cols := Split(RStrip(line), '\t');
    if |cols| < 2 then Failure(MissingField)
    else match ParseNat(cols[1])
      case None => Failure(BadPosition)
      case Some(pos) =>
        if |cols| < 9 then Failure(MissingField)
        else Success((VariantKey(cols[0], pos, cols[3], cols[4]), Record(cols[7], cols[8], cols[9..])))
  }

  /** The first loop, from line `i`: the `##` lines met (right-stripped), the
      `#CHROM` line that stops it, and the index of the first line left for
      the second loop. */
  function ScanHeader(lines: seq<string>, i: nat): (r: (seq<string>, Option<string>, nat))
    requires i <= |lines|
    decreases |lines| - i
  {
    if i == |lines| then ([], None, |lines|)
    else if StartsWith(lines[i], "##") then
      var (h, c, n) := ScanHeader(lines, i + 1);
      ([RStrip(lines[i])] + h, c, n)
    else if StartsWith(lines[i], "#CHROM") then ([], Some(RStrip(lines[i])), i + 1)
    else ScanHeader(lines, i + 1)
  }

  /** The second loop over the lines it is given: skipped lines add nothing,
      a later line with the same key replaces the earlier record, and the
      first malformed data line aborts the parse. */
  function ParseRecords(lines: seq<string>): Result<map<VariantKey, Record>, ParseError> {
    if |lines| == 0 then Success(map[])
    else
      match ParseRecords(lines[..|lines| - 1])
      case Failure(e) => Failure(e)
      case Success(m) =>
        var line := lines[|lines| - 1];
        if Skipped(line) then Success(m)
        else
          match ParseDataLine(line)
          case Failure(e) => Failure(e)
          case Success((k, rec)) => Success(m[k := rec])
  }

  function ParseTable(lines: seq<string>): Result<Table, ParseError> {
    var scan := ScanHeader(lines, 0);
    assert scan.2 <= |lines| by { ScanHeaderBounds(lines, 0); }
    match ParseRecords(lines[scan.2..])
    case Failure(e) => Failure(e)
    case Success(m) => Success(Table(scan.0, scan.1, m))
  }

  lemma {:induction false} ScanHeaderBounds(lines: seq<string>, i: nat)
    requires i <= |lines|
    ensures i <= ScanHeader(lines, i).2 <= |lines|
    decreases |lines| - i
  {
    if i < |lines| {
      ScanHeaderBounds(lines, i + 1);
    }
  }

  /** The parser reads the lines in two passes, exactly as the two `for`
      loops over one file handle do, and agrees with `ParseTable`. */
  method ParseFilteredVcf(lines: seq<string>) returns (r: Result<Table, ParseError>)
    ensures r == ParseTable(lines)
  {
    var headerLines, columnHeader, next := ReadHeader(lines);
    var records := ReadRecords(lines, next);
    match records
    case Failure(e) => r := Failure(e);
    case Success(m) => r := Success(Table(headerLines, columnHeader, m));
  }

  /** The first loop: collect `##` lines until the `#CHROM` line, which ends
      it; `next` is where the second loop resumes. */
  method ReadHeader(lines: seq<string>) returns (headerLines: seq<string>, columnHeader: Option<string>, next: nat)
    ensures next <= |lines|
    ensures (headerLines, columnHeader, next) == ScanHeader(lines, 0)
  {
    headerLines, columnHeader := [], None;
    var i := 0;
    assert [] + ScanHeader(lines, 0).0 == ScanHeader(lines, 0).0;
    while i < |lines|
      invariant 0 <= i <= |lines| && columnHeader == None
      invariant ScanHeader(lines, 0).0 == headerLines + ScanHeader(lines, i).0
      invariant ScanHeader(lines, 0).1 == ScanHeader(lines, i).1
      invariant ScanHeader(lines, 0).2 == ScanHeader(lines, i).2
    {
      var line := lines[i];
      i := i + 1;
      if StartsWith(line, "##") {
        assert headerLines + ([RStrip(line)] + ScanHeader(lines, i).0)
            == (headerLines + [RStrip(line)]) + ScanHeader(lines, i).0;
        headerLines := headerLines + [RStrip(line)];
      } else if StartsWith(line, "#CHROM") {
        columnHeader := Some(RStrip(line));
        assert ScanHeader(lines, i - 1) == ([], columnHeader, i);
        assert headerLines + [] == headerLines;
        break;
      }
    }
    assert headerLines + [] == headerLines;
    next := i;
  }

  /** The second loop, from line `start` to the end. */
  method ReadRecords(lines: seq<string>, start: nat) returns (r: Result<map<VariantKey, Record>, ParseError>)
    requires start <= |lines|
    ensures r == ParseRecords(lines[start..])
  {
    var records: map<VariantKey, Record> := map[];
    var i := start;
    while i < |lines|
      invariant start <= i <= |lines|
      invariant ParseRecords(lines[start..i]) == Success(records)
    {
      var line := lines[i];
      ParseRecordsSnoc(lines, start, i);
      if !IsBlank(line) && !StartsWith(line, "#") {
        var cols := Split(RStrip(line), '\t');
        if |cols| < 2 {
          FailurePersists(lines[start..], i + 1 - start);
          return Failure(MissingField);
        }
        var pos := ParseNat(cols[1]);
        if pos.None? {
          FailurePersists(lines[start..], i + 1 - start);
          return Failure(BadPosition);
        }
        if |cols| < 9 {
          FailurePersists(lines[start..], i + 1 - start);
          return Failure(MissingField);
        }
        var key := VariantKey(cols[0], pos.value, cols[3], cols[4]);
        records := records[key := Record(cols[7], cols[8], cols[9..])];
      }
      i := i + 1;
    }
    assert lines[start..i] == lines[start..];
    r := Success(records);
  }

  /** Reading one more line: how the parse of `lines[start..i + 1]` follows
      from that of `lines[start..i]`. */
  lemma ParseRecordsSnoc(lines: seq<string>, start: nat, i: nat)
    requires start <= i < |lines|
    ensures lines[start..][..i + 1 - start] == lines[start..i + 1]
    ensures ParseRecords(lines[start..i + 1])
         == match ParseRecords(lines[start..i])
            case Failure(e) => Failure(e)
            case Success(m) =>
              if Skipped(lines[i]) then Success(m)
              else
                match ParseDataLine(lines[i])
                case Failure(e) => Failure(e)
                case Success((k, rec)) => Success(m[k := rec])
  {
    assert lines[start..i + 1][..i - start] == lines[start..i];
  }

  /** Once a prefix of the data lines fails, the whole parse fails the same
      way. */
  lemma {:induction false} FailurePersists(lines: seq<string>, k: nat)
    requires k <= |lines| && ParseRecords(lines[..k]).Failure?
    ensures ParseRecords(lines) == ParseRecords(lines[..k])
    decreases |lines| - k
  {
    if k < |lines| {
      assert lines[..k + 1][..k] == lines[..k];
      FailurePersists(lines, k + 1);
    } else {
      assert lines[..k] == lines;
    }
  }

  /** Reference for the header: the right-stripped `##` lines, in order. */
  function HashHashLines(lines: seq<string>): seq<string> {
    if |lines| == 0 then []
    else
      var last := lines[|lines| - 1];
      HashHashLines(lines[..|lines| - 1]) + (if StartsWith(last, "##") then [RStrip(last)] else [])
  }

  lemma {:induction false} HashHashLinesCons(lines: seq<string>)
    requires |lines| > 0
    ensures HashHashLines(lines)
         == (if StartsWith(lines[0], "##") then [RStrip(lines[0])] else []) + HashHashLines(lines[1..])
    decreases |lines|
  {
    if |lines| == 1 {
      assert lines[..0] == [] && lines[1..] == [];
    } else {
      var init := lines[..|lines| - 1];
      HashHashLinesCons(init);
      assert init[1..] == lines[1..][..|lines| - 2];
      assert lines[1..][|lines| - 2] == lines[|lines| - 1];
    }
  }

  lemma {:induction false} ScanHeaderUpTo(lines: seq<string>, i: nat, j: nat)
    requires i <= j <= |lines|
    requires forall t | i <= t < j :: !StartsWith(lines[t], "#CHROM")
    requires j < |lines| ==> StartsWith(lines[j], "#CHROM")
    ensures ScanHeader(lines, i)
         == (HashHashLines(lines[i..j]),
             if j < |lines| then Some(RStrip(lines[j])) else None,
             if j < |lines| then j + 1 else |lines|)
    decreases j - i
  {
    if i == j {
      if j < |lines| {
        assert lines[j][1] == 'C';
      }
    } else {
      ScanHeaderUpTo(lines, i + 1, j);
      HashHashLinesCons(lines[i..j]);
      assert lines[i..j][0] == lines[i] && lines[i..j][1..] == lines[i + 1..j];
      assert !StartsWith(lines[i], "#CHROM");
      var rest := ScanHeader(lines, i + 1);
      if StartsWith(lines[i], "##") {
        assert ScanHeader(lines, i) == ([RStrip(lines[i])] + rest.0, rest.1, rest.2);
      } else {
        assert ScanHeader(lines, i) == rest;
        assert [] + HashHashLines(lines[i + 1..j]) == HashHashLines(lines[i + 1..j]);
      }
    }
  }

  /** With a column header: the header is exactly the `##` lines before the
      first `#CHROM` line, that line (right-stripped) is the column header,
      and the records come from the lines after it only. */
  lemma HeaderBeforeColumnLine(lines: seq<string>, j: nat)
    requires j < |lines| && StartsWith(lines[j], "#CHROM")
    requires forall t | 0 <= t < j :: !StartsWith(lines[t], "#CHROM")
    ensures ParseTable(lines).Success? <==> ParseRecords(lines[j + 1..]).Success?
    ensures ParseTable(lines).Success? ==>
              ParseTable(lines).value
              == Table(HashHashLines(lines[..j]), Some(RStrip(lines[j])), ParseRecords(lines[j + 1..]).value)
  {
    ScanHeaderUpTo(lines, 0, j);
    assert lines[0..j] == lines[..j];
  }

  /** Without a `#CHROM` line the first loop reads every line: the header is
      every `##` line, there is no column header and no record. */
  lemma HeaderWithoutColumnLine(lines: seq<string>)
    requires forall t | 0 <= t < |lines| :: !StartsWith(lines[t], "#CHROM")
    ensures ParseTable(lines) == Success(Table(HashHashLines(lines), None, map[]))
  {
    ScanHeaderUpTo(lines, 0, |lines|);
    assert lines[0..|lines|] == lines;
    assert lines[|lines|..] == [];
  }

  /** Line `i` is a data line whose key is `k`. */
  predicate DefinesKey(lines: seq<string>, i: int, k: VariantKey) {
    && 0 <= i < |lines|
    && !Skipped(lines[i])
    && ParseDataLine(lines[i]).Success?
    && ParseDataLine(lines[i]).value.0 == k
  }

  /** Line `i` is a data line that does not parse. */
  predicate BadLine(lines: seq<string>, i: int) {
    0 <= i < |lines| && !Skipped(lines[i]) && ParseDataLine(lines[i]).Failure?
  }

  lemma DefinesKeyInPrefix(lines: seq<string>, n: nat, i: int, k: VariantKey)
    requires n <= |lines|
    ensures DefinesKey(lines[..n], i, k) <==> i < n && DefinesKey(lines, i, k)
  {
    if 0 <= i < n {
      assert lines[..n][i] == lines[i];
    }
  }

  /** Every data line of a successful parse parses, and its key is kept. */
  lemma {:induction false} RecordsCoverDataLines(lines: seq<string>, m: map<VariantKey, Record>, i: nat)
    requires ParseRecords(lines) == Success(m)
    requires i < |lines| && !Skipped(lines[i])
    ensures ParseDataLine(lines[i]).Success? && ParseDataLine(lines[i]).value.0 in m
    decreases |lines|
  {
    var n := |lines| - 1;
    var init := lines[..n];
    if i < n {
      assert init[i] == lines[i];
      RecordsCoverDataLines(init, ParseRecords(init).value, i);
    }
  }

  /** One step of the second loop: the last line either is passed over or
      adds its record to the map of the lines before it. */
  lemma ParseRecordsStep(lines: seq<string>, m: map<VariantKey, Record>)
    requires |lines| > 0 && ParseRecords(lines) == Success(m)
    ensures ParseRecords(lines[..|lines| - 1]).Success?
    ensures var m0 := ParseRecords(lines[..|lines| - 1]).value;
            var line := lines[|lines| - 1];
            if Skipped(line) then m == m0
            else ParseDataLine(line).Success?
                 && m == m0[ParseDataLine(line).value.0 := ParseDataLine(line).value.1]
  {
  }

  /** A successful parse keeps, for every key, the record of the LAST data
      line with that key; no record comes from anywhere else. */
  lemma {:induction false} RecordsLastWins(lines: seq<string>, m: map<VariantKey, Record>, k: VariantKey)
    requires ParseRecords(lines) == Success(m) && k in m
    ensures exists i ::
              && DefinesKey(lines, i, k)
              && m[k] == ParseDataLine(lines[i]).value.1
              && forall j | i < j < |lines| :: !DefinesKey(lines, j, k)
    decreases |lines|
  {
    var n := |lines| - 1;
    var init := lines[..n];
    ParseRecordsStep(lines, m);
    var m0 := ParseRecords(init).value;
    if DefinesKey(lines, n, k) {
      assert m[k] == ParseDataLine(lines[n]).value.1;
      assert forall j | n < j < |lines| :: !DefinesKey(lines, j, k);
    } else {
      assert k in m0 && m[k] == m0[k];
      RecordsLastWins(init, m0, k);
      var i :| DefinesKey(init, i, k) && m0[k] == ParseDataLine(init[i]).value.1
               && forall j | i < j < |init| :: !DefinesKey(init, j, k);
      DefinesKeyInPrefix(lines, n, i, k);
      assert init[i] == lines[i];
      NoLaterDefinition(lines, init, i, k);
      assert DefinesKey(lines, i, k) && m[k] == ParseDataLine(lines[i]).value.1;
    }
  }

  /** The step of `RecordsLastWins` for the lines after the witness. */
  lemma NoLaterDefinition(lines: seq<string>, init: seq<string>, i: nat, k: VariantKey)
    requires |lines| > 0 && init == lines[..|lines| - 1] && !DefinesKey(lines, |lines| - 1, k)
    requires forall j | i < j < |init| :: !DefinesKey(init, j, k)
    ensures forall j | i < j < |lines| :: !DefinesKey(lines, j, k)
  {
    forall j | i < j < |init|
      ensures !DefinesKey(lines, j, k)
    {
      assert init[j] == lines[j];
      assert !DefinesKey(init, j, k);
    }
  }

  /** No key or record of a successful parse contains a tab. */
  lemma {:induction false} RecordsTabFree(lines: seq<string>, m: map<VariantKey, Record>, k: VariantKey)
    requires ParseRecords(lines) == Success(m) && k in m
    ensures KeyTabFree(k) && RecordTabFree(m[k])
  {
    RecordsLastWins(lines, m, k);
  }

  /** The parse fails exactly at the first data line that does not parse,
      with that line's error. */
  lemma {:induction false} RecordsFailAtFirstBadLine(lines: seq<string>, i: nat)
    requires BadLine(lines, i)
    requires forall j | 0 <= j < i :: !BadLine(lines, j)
    ensures ParseRecords(lines) == Failure(ParseDataLine(lines[i]).error)
  {
    var init := lines[..i];
    assert forall j | 0 <= j < i :: init[j] == lines[j] && BadLine(init, j) == BadLine(lines, j);
    RecordsWithoutBadLine(init);
    assert lines[..i + 1][..i] == init;
    FailurePersists(lines, i + 1);
  }

  /** With no malformed data line the parse succeeds. */
  lemma {:induction false} RecordsWithoutBadLine(lines: seq<string>)
    requires forall j | 0 <= j < |lines| :: !BadLine(lines, j)
    ensures ParseRecords(lines).Success?
    decreases |lines|
  {
    if |lines| > 0 {
      var init := lines[..|lines| - 1];
      assert forall j | 0 <= j < |init| :: init[j] == lines[j] && BadLine(init, j) == BadLine(lines, j);
      RecordsWithoutBadLine(init);
      assert !BadLine(lines, |lines| - 1);
    }
  }

  /** A line written as tab-joined fields reads back as those fields: the
      position field is read by `int()` and the columns land in the key and
      the record as the parser places them. */
  lemma DataLineRoundTrip(fields: seq<string>)
    requires |fields| >= 9
    requires forall i | 0 <= i < |fields| :: TabFree(fields[i])
    requires IsDigits(fields[1])
    requires var last := fields[|fields| - 1]; |last| > 0 && !IsSpace(last[|last| - 1])
    ensures ParseDataLine(Join(fields, '\t'))
         == Success((VariantKey(fields[0], DigitsValue(fields[1]), fields[3], fields[4]),
                     Record(fields[7], fields[8], fields[9..])))
  {
    var line := Join(fields, '\t');
    JoinLast(fields, '\t');
    assert RStrip(line) == line;
    SplitJoin(fields, '\t');
  }
}
