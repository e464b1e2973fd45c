/** The fixed header `main` writes before the merged rows: the file format
    line, one contig line per conventional chromosome, three INFO and eight
    FORMAT definitions, then the column line. None of it depends on the
    callers' own headers. */
module MergedHeader {
  import opened Wrappers
  import opened Text
  import opened Chromosomes
  import opened FilteredTable

  /** `chromos`: chr1 to chr22, then chrX, chrY and chrM. */
  function Contigs(): seq<string> {
    seq(22, i requires 0 <= i < 22 => "chr" + NatToString(i + 1)) + ["chrX", "chrY", "chrM"]
  }

  /** A `##KEY=<FIELDS>` definition line. */
  function Definition(key: string, fields: string): string {
    "##" + key + "=<" + fields + ">"
  }

  const FileFormatLine := "##fileformat=VCFv4.2"

  /** The fields of the three INFO definitions. */
  const InfoFields: seq<string> := [
    "ID=CC,Number=1,Type=Integer,Description=\"Number of callers supporting variant\"",
    "ID=CL,Number=.,Type=String,Description=\"List of callers supporting variant\"",
    "ID=SOMATIC,Number=0,Type=Flag,Description=\"Indicates if record is a somatic mutation\""
  ]

  /** The fields of the eight FORMAT definitions. */
  const FormatFields: seq<string> := [
    "ID=AF,Number=A,Type=Float,Description=\"Allele fractions of alternate alleles in the tumor\"",
    "ID=DP,Number=1,Type=Integer,Description=\"Approximate read depth (reads con MQ=255 o con bad mates filtrados)\"",
    "ID=GT,Number=1,Type=String,Description=\"Genotype\"",
    "ID=SB,Number=4,Type=Integer,Description=\"Per-sample strand-bias statistics\"",
    "ID=BQ,Number=.,Type=Integer,Description=\"Average base quality for reads supporting alleles\"",
    "ID=GQ,Number=1,Type=Integer,Description=\"Genotype Quality\"",
    "ID=MQ,Number=1,Type=Float,Description=\"RMS Mapping Quality\"",
    "ID=MQ0,Number=1,Type=Integer,Description=\"Mapping Quality Zero Count\""
  ]

  function Definitions(key: string, fields: seq<string>): seq<string> {
    seq(|fields|, i requires 0 <= i < |fields| => Definition(key, fields[i]))
  }

  /** `merged_header`. */
  function HeaderLines(): seq<string> {
    [FileFormatLine] + Definitions("contig", ContigFields()) + Definitions("INFO", InfoFields)
    + Definitions("FORMAT", FormatFields)
  }

  function ContigFields(): seq<string> {
    seq(|Contigs()|, i requires 0 <= i < |Contigs()| => "ID=" + Contigs()[i])
  }

  const ColumnNames: seq<string> :=
    ["CHROM", "POS", "ID", "REF", "ALT", "QUAL", "FILTER", "INFO", "FORMAT", "NORMAL", "TUMOR"]

  /** `column_header`. */
  function ColumnHeader(): string {
    "#" + Join(ColumnNames, '\t')
  }

  /** The contig lines list the chromosomes in the order the rows are sorted
      by: the i-th contig has rank i + 1 under `chr_sort_key`. */
  lemma ContigRanks()
    ensures |Contigs()| == 25
    ensures forall i | 0 <= i < 25 :: ChrSortKey(Contigs()[i]) == Standard(i + 1)
  {
    NumberedContigRanks();
    SexAndMitoRanks();
  }

  lemma NumberedContigRanks()
    ensures forall i | 0 <= i < 22 :: ChrSortKey(Contigs()[i]) == Standard(i + 1)
  {
    forall i | 0 <= i < 22
      ensures ChrSortKey(Contigs()[i]) == Standard(i + 1)
    {
      NumberedRank(i + 1);
    }
  }

  /** A header line the table parser keeps as it is: it starts with `##` and
      does not end in whitespace. */
  predicate KeptHeaderLine(line: string) {
    StartsWith(line, "##") && |line| > 0 && !IsSpace(line[|line| - 1])
  }

  lemma DefinitionKept(key: string, fields: string)
    ensures KeptHeaderLine(Definition(key, fields))
  {
    var line := Definition(key, fields);
    assert line[..2] == "##";
  }

  lemma DefinitionsKept(key: string, fields: seq<string>)
    ensures forall i | 0 <= i < |fields| :: KeptHeaderLine(Definitions(key, fields)[i])
  {
    forall i | 0 <= i < |fields|
      ensures KeptHeaderLine(Definitions(key, fields)[i])
    {
      DefinitionKept(key, fields[i]);
    }
  }

  /** The header has 37 lines, each kept as it is by the table parser. */
  lemma HeaderShape()
    ensures |HeaderLines()| == 37
    ensures forall i | 0 <= i < 37 :: KeptHeaderLine(HeaderLines()[i])
  {
    var contigs := Definitions("contig", ContigFields());
    var infos := Definitions("INFO", InfoFields);
    var formats := Definitions("FORMAT", FormatFields);
    DefinitionsKept("contig", ContigFields());
    DefinitionsKept("INFO", InfoFields);
    DefinitionsKept("FORMAT", FormatFields);
    assert FileFormatLine[..2] == "##" && FileFormatLine[|FileFormatLine| - 1] == '2';
    KeptConcat([FileFormatLine], contigs);
    KeptConcat([FileFormatLine] + contigs, infos);
    KeptConcat([FileFormatLine] + contigs + infos, formats);
  }

  lemma KeptConcat(a: seq<string>, b: seq<string>)
    requires forall i | 0 <= i < |a| :: KeptHeaderLine(a[i])
    requires forall i | 0 <= i < |b| :: KeptHeaderLine(b[i])
    ensures forall i | 0 <= i < |a + b| :: KeptHeaderLine((a + b)[i])
  {
  }

  /** The column line is recognised as such: it starts with `#CHROM`. */
  lemma ColumnHeaderRecognised()
    ensures StartsWith(ColumnHeader(), "#CHROM")
  {
    ColumnLineStart(ColumnNames, ColumnHeader());
  }

  /** The column line names the eleven columns of a row, the last two NORMAL
      and TUMOR. */
  lemma ColumnHeaderNames()
    ensures Split(ColumnHeader()[1..], '\t') == ColumnNames
    ensures |ColumnNames| == 11 && ColumnNames[9] == "NORMAL" && ColumnNames[10] == "TUMOR"
  {
    assert forall i | 0 <= i < |ColumnNames| :: '\t' !in ColumnNames[i];
    ColumnLineSplit(ColumnNames, ColumnHeader());
  }

  /** The parser reads the header back: a file made of this header, the
      column line and any rows parses exactly when the rows do, with this
      header, this column line and the rows' records. */
  lemma HeaderReadsBack(rows: seq<string>)
    ensures var lines := HeaderLines() + [ColumnHeader()] + rows;
            && (ParseTable(lines).Success? <==> ParseRecords(rows).Success?)
            && (ParseTable(lines).Success? ==>
                  ParseTable(lines).value == Table(HeaderLines(), Some(ColumnHeader()), ParseRecords(rows).value))
  {
    HeaderShape();
    ColumnHeaderRecognised();
    ColumnLineEnd(ColumnNames, ColumnHeader());
    ReadsBack(HeaderLines(), ColumnHeader(), rows);
  }

  lemma ColumnLineEnd(names: seq<string>, line: string)
    requires |names| >= 2 && names[|names| - 1] == "TUMOR" && line == "#" + Join(names, '\t')
    ensures |line| > 0 && line[|line| - 1] == 'R'
  {
    JoinLast(names, '\t');
  }

  /** Kept header lines, a column line that `rstrip` leaves alone, and any
      rows: the parser returns the header lines and the column line as they
      are, and the rows' records. */
  lemma ReadsBack(header: seq<string>, column: string, rows: seq<string>)
    requires forall i | 0 <= i < |header| :: KeptHeaderLine(header[i])
    requires StartsWith(column, "#CHROM") && |column| > 0 && !IsSpace(column[|column| - 1])
    ensures var lines := header + [column] + rows;
            && (ParseTable(lines).Success? <==> ParseRecords(rows).Success?)
            && (ParseTable(lines).Success? ==>
                  ParseTable(lines).value == Table(header, Some(column), ParseRecords(rows).value))
  {
    var lines := header + [column] + rows;
    var j := |header|;
    forall t | 0 <= t < j
      ensures !StartsWith(lines[t], "#CHROM")
    {
      assert lines[t] == header[t] && header[t][1] == '#';
    }
    HeaderBeforeColumnLine(lines, j);
    assert lines[..j] == header && lines[j] == column && lines[j + 1..] == rows;
    KeptHashHashLines(header);
  }

  /** Kept header lines are their own `##` lines. */
  lemma {:induction false} KeptHashHashLines(header: seq<string>)
    requires forall i | 0 <= i < |header| :: KeptHeaderLine(header[i])
    ensures HashHashLines(header) == header
    decreases |header|
  {
    if |header| > 0 {
      var init := header[..|header| - 1];
      KeptHashHashLines(init);
      assert header == init + [header[|header| - 1]];
    }
  }

  lemma ColumnLineStart(names: seq<string>, line: string)
    requires |names| > 0 && names[0] == "CHROM" && line == "#" + Join(names, '\t')
    ensures StartsWith(line, "#CHROM")
  {
    JoinStartsWith(names, '\t');
  }

  lemma ColumnLineSplit(names: seq<string>, line: string)
    requires |names| > 0 && line == "#" + Join(names, '\t')
    requires forall i | 0 <= i < |names| :: '\t' !in names[i]
    ensures Split(line[1..], '\t') == names
  {
    SplitJoin(names, '\t');
    assert line[1..] == Join(names, '\t');
  }

  lemma JoinStartsWith(parts: seq<string>, sep: char)
    requires |parts| > 0
    ensures StartsWith("#" + Join(parts, sep), "#" + parts[0])
  {
    var s := "#" + Join(parts, sep);
    if |parts| > 1 {
      assert Join(parts, sep) == parts[0] + ([sep] + Join(parts[1..], sep));
    }
    assert s[..|parts[0]| + 1] == "#" + parts[0];
  }
}
