/**
 * Worked samples for `parse_fastq`.
 *
 * The panel AAAA, CCCC and four reads: the first read holds AAAA, the second
 * CCCC, the third neither, and the fourth both. The fourth is credited to
 * AAAA only, because AAAA comes first in the panel. So the table has the rows
 * AAAA, CCCC, `tot_read` holding 2, 1 and 3: `tot_read` is 3 although four
 * reads were scanned.
 *
 * With an empty panel the table is the `tot_read` row alone, holding 0 for
 * any number of reads.
 *
 * A panel whose barcodes are their own reverse complements is searched
 * unchanged in a reverse-complement run.
 */
module Scenario {
  import opened OrderedDict
  import opened Barcodes
  import opened Dna
  import opened Batch

  /** Where each read of the sample is credited. */
  lemma ReadsCredited()
    ensures FirstMatch("AAAAGG", ["AAAA", "CCCC"]) == Some(0)
    ensures FirstMatch("CCCCAA", ["AAAA", "CCCC"]) == Some(1)
    ensures FirstMatch("GGGG", ["AAAA", "CCCC"]) == None
    ensures FirstMatch("AAAACCCC", ["AAAA", "CCCC"]) == Some(0)
  {
    assert IsSubstring("AAAA", "AAAAGG");
    AAAANotInCCCCAA();
    assert IsSubstring("CCCC", "CCCCAA");
    AbsentFirstBase("AAAA", "GGGG");
    AbsentFirstBase("CCCC", "GGGG");
    assert IsSubstring("AAAA", "AAAACCCC");
  }

  /**
   * The read CCCCAA ends in AA but holds no AAAA: at each of its offsets the
   * barcode either meets a C or runs past the end of the read.
   */
  lemma AAAANotInCCCCAA()
    ensures !IsSubstring("AAAA", "CCCCAA")
  {
    assert !IsSubstring("AAAA", "");
    assert "A"[1..] == "";
    assert !IsSubstring("AAAA", "A");
    assert "AA"[1..] == "A";
    assert !IsSubstring("AAAA", "AA");
    assert "CAA"[1..] == "AA";
    assert !IsSubstring("AAAA", "CAA");
    assert "CCAA"[1..] == "CAA" && "CCAA"[0] == 'C';
    assert !IsSubstring("AAAA", "CCAA");
    assert "CCCAA"[1..] == "CCAA" && "CCCAA"[0] == 'C';
    assert !IsSubstring("AAAA", "CCCAA");
    assert "CCCCAA"[1..] == "CCCAA" && "CCCCAA"[0] == 'C';
  }

  /** The prefixes of the sample that the counting functions recurse through. */
  lemma ReadsPrefixes()
    ensures ["AAAAGG", "CCCCAA", "GGGG", "AAAACCCC"][..3] == ["AAAAGG", "CCCCAA", "GGGG"]
    ensures ["AAAAGG", "CCCCAA", "GGGG", "AAAACCCC"][..3][..2] == ["AAAAGG", "CCCCAA"]
    ensures ["AAAAGG", "CCCCAA", "GGGG", "AAAACCCC"][..3][..2][..1] == ["AAAAGG"]
    ensures ["AAAAGG"][..0] == []
  {
  }

  /** Three of the four reads contain a barcode. */
  lemma ScenarioMatched()
    ensures MatchedCount(["AAAAGG", "CCCCAA", "GGGG", "AAAACCCC"], ["AAAA", "CCCC"]) == 3
  {
    ReadsCredited();
    ReadsPrefixes();
  }

  /** AAAA is credited with the first and the fourth read. */
  lemma ScenarioCountAAAA()
    ensures CountOf(["AAAAGG", "CCCCAA", "GGGG", "AAAACCCC"], ["AAAA", "CCCC"], "AAAA") == 2
  {
    ReadsCredited();
    ReadsPrefixes();
  }

  /** CCCC is credited with the second read only; the fourth went to AAAA. */
  lemma ScenarioCountCCCC()
    ensures CountOf(["AAAAGG", "CCCCAA", "GGGG", "AAAACCCC"], ["AAAA", "CCCC"], "CCCC") == 1
  {
    ReadsCredited();
    ReadsPrefixes();
  }

  /** The table's rows: the barcodes in panel order, then `tot_read`. */
  lemma ScenarioRows()
    ensures RowKeys(["AAAA", "CCCC"]) == ["AAAA", "CCCC", TotRead]
  {
    var ks := ["AAAA", "CCCC"] + [TotRead];
    assert ks == ["AAAA", "CCCC", TotRead];
    assert Distinct(ks);
    FromKeysDistinct(ks, 0);
  }

  /** The table `parse_fastq` returns for the sample. */
  lemma ScenarioTable()
    ensures var t := SampleCounts(["AAAAGG", "CCCCAA", "GGGG", "AAAACCCC"], ["AAAA", "CCCC"]);
      && t.keys == ["AAAA", "CCCC", TotRead]
      && Get(t, "AAAA") == 2 && Get(t, "CCCC") == 1 && Get(t, TotRead) == 3
  {
    ScenarioMatched();
    ScenarioCountAAAA();
    ScenarioCountCCCC();
    ScenarioRows();
    SampleCountsMeaning(["AAAAGG", "CCCCAA", "GGGG", "AAAACCCC"], ["AAAA", "CCCC"]);
    assert "AAAA" != TotRead && "CCCC" != TotRead;
  }

  /** With an empty panel no read is credited, however many reads there are. */
  lemma {:induction false} EmptyPanelMatchesNothing(records: seq<string>)
    ensures MatchedCount(records, []) == 0
  {
    if records != [] {
      EmptyPanelMatchesNothing(records[..|records| - 1]);
    }
  }

  /**
   * With an empty panel the table holds the `tot_read` row alone, and it is
   * zero: `tot_read` counts matched reads, not the reads scanned.
   */
  lemma ScenarioEmptyPanel(records: seq<string>)
    ensures var t := SampleCounts(records, []);
      t.keys == [TotRead] && Get(t, TotRead) == 0
  {
    EmptyPanelMatchesNothing(records);
    SampleCountsMeaning(records, []);
    FromKeysDistinct([TotRead], 0);
    assert [] + [TotRead] == [TotRead];
  }

  /**
   * A reverse-complement run over the panel AT, GC searches for AT, GC again:
   * each of these barcodes is its own reverse complement.
   */
  lemma ScenarioSelfComplementaryPanel()
    ensures SearchPanel(["AT", "GC"], true) == ["AT", "GC"]
  {
    SearchPanelMeaning(["AT", "GC"], true);
    assert ReverseComplement("AT") == "AT";
    assert ReverseComplement("GC") == "GC";
  }
}
