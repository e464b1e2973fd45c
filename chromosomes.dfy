/** The chromosome ordering `chr_sort_key`: a rank for every contig label.
    Labels `1`..`22`, `X`, `Y`, `M`/`MT` (with or without a `chr` prefix of
    any case) are standard and ranked numerically; every other label ranks
    after all of them, ordered as a string. */
module Chromosomes {
  import opened Text

  /** Python's `(0, n)` and `(1, label)` tuples. */
  datatype ChromRank = Standard(index: nat) | Other(name: string)

  /** `chrom.lower().startswith("chr")`. */
  predicate HasChrPrefix(chrom: string) {
    |chrom| >= 3 && chrom[0] in "cC" && chrom[1] in "hH" && chrom[2] in "rR"
  }

  /** The label with one case-insensitive `chr` prefix removed. */
  function StripChrPrefix(chrom: string): (ch: string)
    ensures HasChrPrefix(chrom) ==> chrom == chrom[..3] + ch
    ensures !HasChrPrefix(chrom) ==> ch == chrom
  {
    if HasChrPrefix(chrom) then chrom[3..] else chrom
  }

  function ChrSortKey(chrom: string): ChromRank {
    var ch := StripChrPrefix(chrom);
    if IsDigits(ch) then Standard(DigitsValue(ch))
    else if ch == "X" then Standard(23)
    else if ch == "Y" then Standard(24)
    else if ch == "M" || ch == "MT" then Standard(25)
    else Other(ch)
  }

  /** Tuple `<` on ranks: standard before other, numbers numerically, other
      labels as strings. */
  predicate RankLess(a: ChromRank, b: ChromRank) {
    match (a, b)
    case (Standard(i), Standard(j)) => i < j
    case (Standard(_), Other(_)) => true
    case (Other(_), Standard(_)) => false
    case (Other(s), Other(t)) => Less(s, t)
  }

  lemma RankLessStrictTotal(a: ChromRank, b: ChromRank, c: ChromRank)
    ensures !RankLess(a, a)
    ensures RankLess(a, b) || a == b || RankLess(b, a)
    ensures !(RankLess(a, b) && RankLess(b, a))
    ensures RankLess(a, b) && RankLess(b, c) ==> RankLess(a, c)
  {
    if a.Other? {
      LessIrreflexive(a.name);
      if b.Other? {
        LessTrichotomy(a.name, b.name);
        if c.Other? && RankLess(a, b) && RankLess(b, c) {
          LessTransitive(a.name, b.name, c.name);
        }
      }
    }
  }

  /** The prefix is matched case-insensitively: `chr`, `Chr`, `CHR`, ... all
      give the same rank. */
  lemma PrefixCaseInsensitive(prefix: string, rest: string)
    requires |prefix| == 3 && HasChrPrefix(prefix)
    ensures ChrSortKey(prefix + rest) == ChrSortKey("chr" + rest)
  {
    assert (prefix + rest)[3..] == rest;
    assert ("chr" + rest)[3..] == rest;
  }

  /** The prefix is optional: `chr7` and `7` rank alike, unless the bare label
      itself starts with `chr` (only one prefix is removed). */
  lemma PrefixOptional(contig: string)
    requires !HasChrPrefix(contig)
    ensures ChrSortKey("chr" + contig) == ChrSortKey(contig)
  {
    assert ("chr" + contig)[3..] == contig;
  }

  /** `chr<n>` has standard rank `n` for every number `n`. */
  lemma NumberedRank(n: nat)
    ensures ChrSortKey("chr" + NatToString(n)) == Standard(n)
  {
    assert ("chr" + NatToString(n))[3..] == NatToString(n);
  }

  /** Only upper-case `X`, `Y`, `M`, `MT` are standard; their lower-case forms
      fall into the other bucket. */
  lemma SexAndMitoRanks()
    ensures ChrSortKey("chrX") == Standard(23) && ChrSortKey("chrY") == Standard(24)
    ensures ChrSortKey("chrM") == ChrSortKey("chrMT") == Standard(25)
    ensures ChrSortKey("chrx") == Other("x") && ChrSortKey("chrm") == Other("m")
  {
    assert "chrX"[3..] == "X" && "chrY"[3..] == "Y" && "chrM"[3..] == "M";
    assert "chrMT"[3..] == "MT" && "chrx"[3..] == "x" && "chrm"[3..] == "m";
  }

  /** chr2 < chr10 < chrX < chrY < chrM, and every label outside the standard
      set ranks after chrM. */
  lemma ConventionalOrder(contig: string)
    requires ChrSortKey(contig).Other?
    ensures RankLess(ChrSortKey("chr2"), ChrSortKey("chr10"))
    ensures RankLess(ChrSortKey("chr10"), ChrSortKey("chrX"))
    ensures RankLess(ChrSortKey("chrX"), ChrSortKey("chrY"))
    ensures RankLess(ChrSortKey("chrY"), ChrSortKey("chrM"))
    ensures RankLess(ChrSortKey("chrM"), ChrSortKey(contig))
  {
    NumberedRank(2);
    NumberedRank(10);
    assert NatToString(2) == "2" && NatToString(10) == "10";
    SexAndMitoRanks();
  }
}
