/**
 * Per-sample barcode counting, `parse_fastq` (barcodes.py:37-61).
 *
 * A sample is given as the sequence lines of its reads, in file order. Each
 * read is tested against the barcode panel in panel order and is credited to
 * the first barcode that occurs in it as a contiguous substring. The result is
 * an ordered table with one row per distinct barcode (first-occurrence order,
 * starting at zero) followed by a `tot_read` row, which holds the sum of the
 * barcode counts: the number of reads that matched some barcode.
 */
module Barcodes {
  import opened OrderedDict

  datatype Option<T> = None | Some(value: T)

  /** The key of the row appended after the barcode rows (barcodes.py:56). */
  const TotRead: string := "tot_read"

  /** `bc` occurs in `read` starting at position `i`. */
  predicate OccursAt(bc: string, read: string, i: nat) {
    i + |bc| <= |read| && read[i..i + |bc|] == bc
  }

  /** Python's `bc in read`: contiguous substring containment. */
  predicate IsSubstring(bc: string, read: string) {
    bc <= read || (read != [] && IsSubstring(bc, read[1..]))
  }

  /** Containment holds exactly when the barcode occurs at some position of the read. */
  lemma {:induction false} IsSubstringIffOccurs(bc: string, read: string)
    ensures IsSubstring(bc, read) <==> exists i: nat :: OccursAt(bc, read, i)
  {
    if bc <= read {
      assert OccursAt(bc, read, 0);
    } else if read == [] {
      forall i: nat ensures !OccursAt(bc, read, i) {
      }
    } else {
      IsSubstringIffOccurs(bc, read[1..]);
      if IsSubstring(bc, read[1..]) {
        var i: nat :| OccursAt(bc, read[1..], i);
        assert read[1..][i..i + |bc|] == read[i + 1..i + 1 + |bc|];
        assert OccursAt(bc, read, i + 1);
      }
      forall i: nat | OccursAt(bc, read, i) ensures IsSubstring(bc, read[1..]) {
        assert i > 0;
        assert read[1..][i - 1..i - 1 + |bc|] == read[i..i + |bc|];
        assert OccursAt(bc, read[1..], i - 1);
      }
    }
  }

  /** A barcode whose first base does not occur in the read is not contained in it. */
  lemma {:induction false} AbsentFirstBase(bc: string, read: string)
    requires bc != [] && bc[0] !in read
    ensures !IsSubstring(bc, read)
  {
    if read != [] {
      assert bc[0] !in read[1..];
      AbsentFirstBase(bc, read[1..]);
    }
  }
  /**
   * The position of the barcode a read is credited to: the first barcode of
   * the panel, in panel order, contained in the read; `None` when the read
   * contains none of them.
   */
  function FirstMatch(read: string, panel: seq<string>): (r: Option<nat>)
    ensures r.Some? ==> r.value < |panel| && IsSubstring(panel[r.value], read)
    ensures r.Some? ==> forall j :: 0 <= j < r.value ==> !IsSubstring(panel[j], read)
    ensures r.None? <==> forall j :: 0 <= j < |panel| ==> !IsSubstring(panel[j], read)
  {
    if panel == [] then None
    else if IsSubstring(panel[0], read) then Some(0)
    else
      match FirstMatch(read, panel[1..])
      case None => None
      case Some(i) => Some(i + 1)
  }

  /** The read is credited to barcode `bc`. */
  predicate CreditedTo(read: string, panel: seq<string>, bc: string) {
    var m := FirstMatch(read, panel);
    m.Some? && panel[m.value] == bc
  }

  /**
   * A read is credited to `bc` exactly when `bc` sits at some position of the
   * panel, occurs in the read, and no barcode before that position does.
   */
  lemma CreditedToIff(read: string, panel: seq<string>, bc: string)
    ensures CreditedTo(read, panel, bc) <==>
      exists i :: 0 <= i < |panel| && panel[i] == bc && IsSubstring(bc, read) &&
        forall j :: 0 <= j < i ==> !IsSubstring(panel[j], read)
  {
    if !CreditedTo(read, panel, bc) {
      forall i | 0 <= i < |panel| && panel[i] == bc && IsSubstring(bc, read)
        ensures exists j :: 0 <= j < i && IsSubstring(panel[j], read)
      {
        var m := FirstMatch(read, panel);
        assert m.Some? && m.value != i;
      }
    }
  }

  /** Lines 48-51 for one read: add one to the count of the barcode it is credited to. */
  function Credit(counts: Dict<int>, read: string, panel: seq<string>): (r: Dict<int>)
    requires Valid(counts)
    requires forall bc :: bc in panel ==> bc in counts.keys
    ensures Valid(r) && r.keys == counts.keys
  {
    match FirstMatch(read, panel)
    case None => counts
    case Some(i) => Put(counts, panel[i], Get(counts, panel[i]) + 1)
  }

  /** Crediting a read adds one to the count of the barcode it is credited to and leaves every other count alone. */
  lemma CreditGet(counts: Dict<int>, read: string, panel: seq<string>, k: string)
    requires Valid(counts)
    requires forall bc :: bc in panel ==> bc in counts.keys
    requires k in counts.keys
    ensures Get(Credit(counts, read, panel), k) == Get(counts, k) + if CreditedTo(read, panel, k) then 1 else 0
  {
    match FirstMatch(read, panel)
    case None =>
    case Some(i) =>
      var bc := panel[i];
      if k == bc {
        PutSame(counts, bc, Get(counts, bc) + 1);
      } else {
        PutOther(counts, bc, Get(counts, bc) + 1, k);
      }
  }

  /** The barcode table after scanning `records` (lines 45-53). */
  function CountReads(records: seq<string>, panel: seq<string>): (r: Dict<int>)
    ensures Valid(r) && r.keys == FromKeys(panel, 0).keys
  {
    if records == [] then FromKeys(panel, 0)
    else Credit(CountReads(records[..|records| - 1], panel), records[|records| - 1], panel)
  }

  /** The number of reads in `records` credited to `bc`. */
  function CountOf(records: seq<string>, panel: seq<string>, bc: string): nat {
    if records == [] then 0
    else CountOf(records[..|records| - 1], panel, bc) + if CreditedTo(records[|records| - 1], panel, bc) then 1 else 0
  }

  /** The number of reads in `records` that contain some barcode of the panel. */
  function MatchedCount(records: seq<string>, panel: seq<string>): (r: nat)
    ensures r <= |records|
  {
    if records == [] then 0
    else MatchedCount(records[..|records| - 1], panel) + if FirstMatch(records[|records| - 1], panel).Some? then 1 else 0
  }

  /** The rows of a sample's table (lines 45 and 56). */
  function RowKeys(panel: seq<string>): seq<string> {
    FromKeys(panel + [TotRead], 0).keys
  }

  /**
   * The rows of a sample's table: each distinct barcode once, then `tot_read`
   * unless the panel already holds it, in the order of first occurrence.
   */
  lemma RowKeysMeaning(panel: seq<string>)
    ensures var r := RowKeys(panel);
      && Distinct(r)
      && (forall k :: k in r <==> k in panel || k == TotRead)
      && FirstOccurrenceOrder(r, panel + [TotRead])
      && (TotRead !in panel ==> r[|r| - 1] == TotRead)
  {
    var ks := panel + [TotRead];
    FromKeysOrder(ks, 0);
    assert ks[..|panel|] == panel;
  }

  /** The table `parse_fastq` returns: the barcode counts and then `tot_read` (lines 45-57). */
  function SampleCounts(records: seq<string>, panel: seq<string>): Dict<int> {
    var counts := CountReads(records, panel);
    Put(counts, TotRead, SumValues(counts))
  }

  /** Each barcode's row holds the number of reads credited to it. */
  lemma {:induction false} CountReadsValues(records: seq<string>, panel: seq<string>, bc: string)
    requires bc in panel
    ensures Get(CountReads(records, panel), bc) == CountOf(records, panel, bc)
  {
    if records != [] {
      var init := records[..|records| - 1];
      CountReadsValues(init, panel, bc);
      CreditGet(CountReads(init, panel), records[|records| - 1], panel, bc);
    }
  }

  /**
   * Tie-break: when barcode `i` occurs in the read and no earlier barcode
   * does, the read is credited to barcode `i`, whatever later barcodes occur.
   */
  lemma CreditFirstMatch(counts: Dict<int>, read: string, panel: seq<string>, i: nat)
    requires Valid(counts)
    requires forall bc :: bc in panel ==> bc in counts.keys
    requires i < |panel| && IsSubstring(panel[i], read)
    requires forall j :: 0 <= j < i ==> !IsSubstring(panel[j], read)
    ensures Credit(counts, read, panel) == Put(counts, panel[i], Get(counts, panel[i]) + 1)
  {
    FirstMatchAt(read, panel, i);
  }

  /** The first barcode the read contains is the one `FirstMatch` reports. */
  lemma FirstMatchAt(read: string, panel: seq<string>, i: nat)
    requires i < |panel| && IsSubstring(panel[i], read)
    requires forall j :: 0 <= j < i ==> !IsSubstring(panel[j], read)
    ensures FirstMatch(read, panel) == Some(i)
  {
    var m := FirstMatch(read, panel);
    assert m.Some?;
    assert !(m.value < i);
    assert !(i < m.value);
  }

  /** Crediting one read adds one to the sum of the counts when it matched, nothing otherwise. */
  lemma CreditSum(counts: Dict<int>, read: string, panel: seq<string>)
    requires Valid(counts)
    requires forall bc :: bc in panel ==> bc in counts.keys
    ensures SumValues(Credit(counts, read, panel)) == SumValues(counts) + if FirstMatch(read, panel).Some? then 1 else 0
  {
    match FirstMatch(read, panel)
    case None =>
    case Some(i) => SumValuesPut(counts, panel[i], 1);
  }

  /** The barcode counts add up to the number of matched reads. */
  lemma {:induction false} CountReadsSum(records: seq<string>, panel: seq<string>)
    ensures SumValues(CountReads(records, panel)) == MatchedCount(records, panel)
  {
    if records == [] {
      SumValuesFromKeysZero(panel);
    } else {
      var init, read := records[..|records| - 1], records[|records| - 1];
      CountReadsSum(init, panel);
      CreditSum(CountReads(init, panel), read, panel);
    }
  }

  /**
   * Scanning one more read changes exactly one barcode count, by one, when
   * the read contains a barcode, and no count otherwise.
   */
  lemma CountReadsStep(records: seq<string>, read: string, panel: seq<string>)
    ensures var before, after := CountReads(records, panel), CountReads(records + [read], panel);
      && after.keys == before.keys
      && (forall bc :: bc in panel ==>
            Get(after, bc) == Get(before, bc) + if CreditedTo(read, panel, bc) then 1 else 0)
      && SumValues(after) == SumValues(before) + if FirstMatch(read, panel).Some? then 1 else 0
  {
    assert (records + [read])[..|records|] == records;
    var before := CountReads(records, panel);
    CreditSum(before, read, panel);
    forall bc | bc in panel
      ensures Get(CountReads(records + [read], panel), bc) == Get(before, bc) + if CreditedTo(read, panel, bc) then 1 else 0
    {
      CreditGet(before, read, panel, bc);
    }
  }

  /**
   * The meaning of the table `parse_fastq` returns: one row per distinct
   * barcode in first-occurrence order, then `tot_read` (a barcode spelled
   * `tot_read` would have its row overwritten by line 56); each barcode row
   * counts the reads credited to it, and `tot_read` counts the reads that
   * matched some barcode, never more than the reads scanned.
   */
  lemma SampleCountsMeaning(records: seq<string>, panel: seq<string>)
    ensures var t := SampleCounts(records, panel);
      && Valid(t) && t.keys == RowKeys(panel)
      && Get(t, TotRead) == MatchedCount(records, panel) <= |records|
      && forall bc :: bc in panel && bc != TotRead ==> Get(t, bc) == CountOf(records, panel, bc)
  {
    var counts := CountReads(records, panel);
    CountReadsSum(records, panel);
    PutSame(counts, TotRead, SumValues(counts));
    assert (panel + [TotRead])[..|panel|] == panel;
    forall bc | bc in panel && bc != TotRead
      ensures Get(SampleCounts(records, panel), bc) == CountOf(records, panel, bc)
    {
      CountReadsValues(records, panel, bc);
      PutOther(counts, TotRead, SumValues(counts), bc);
    }
  }

  /** Every read is counted as matched exactly when every read contains some barcode. */
  lemma {:induction false} MatchedCountAll(records: seq<string>, panel: seq<string>)
    ensures MatchedCount(records, panel) == |records| <==>
      forall i :: 0 <= i < |records| ==> FirstMatch(records[i], panel).Some?
  {
    if records != [] {
      var init := records[..|records| - 1];
      MatchedCountAll(init, panel);
      assert forall i :: 0 <= i < |init| ==> init[i] == records[i];
    }
  }

  /**
   * `tot_read` equals the number of reads scanned exactly when every read
   * contains some barcode of the panel; one unmatched read makes it smaller.
   */
  lemma TotReadIsRecordCount(records: seq<string>, panel: seq<string>)
    ensures Get(SampleCounts(records, panel), TotRead) == |records| <==>
      forall i :: 0 <= i < |records| ==> FirstMatch(records[i], panel).Some?
  {
    SampleCountsMeaning(records, panel);
    MatchedCountAll(records, panel);
  }

  /**
   * Lines 48-53 for one read: try the barcodes in panel order and, at the
   * first one the read contains, add one to its count and stop.
   */
  method CreditRead(counts: Dict<int>, read: string, panel: seq<string>) returns (r: Dict<int>)
    requires Valid(counts)
    requires forall bc :: bc in panel ==> bc in counts.keys
    ensures r == Credit(counts, read, panel)
  {
    r := counts;
    for i := 0 to |panel|
      invariant r == counts
      invariant forall j :: 0 <= j < i ==> !IsSubstring(panel[j], read)
    {
      if IsSubstring(panel[i], read) {
        r := Put(r, panel[i], Get(r, panel[i]) + 1);
        CreditFirstMatch(counts, read, panel, i);
        return;
      }
    }
  }

  /** Lines 45-53: start every barcode at zero and credit each read in turn. */
  method CountSample(records: seq<string>, panel: seq<string>) returns (counts: Dict<int>)
    ensures counts == CountReads(records, panel)
  {
    counts := FromKeys(panel, 0);
    for n := 0 to |records|
      invariant counts == CountReads(records[..n], panel)
    {
      assert records[..n + 1][..n] == records[..n];
      counts := CreditRead(counts, records[n], panel);
    }
    assert records[..|records|] == records;
  }

  /**
   * `parse_fastq` (barcodes.py:45-57): count the reads per barcode, then add
   * the `tot_read` row holding the sum of the counts.
   */
  method ParseFastq(records: seq<string>, panel: seq<string>) returns (table: Dict<int>)
    ensures table == SampleCounts(records, panel)
    ensures Valid(table) && table.keys == RowKeys(panel)
    ensures Get(table, TotRead) == MatchedCount(records, panel)
    ensures forall bc :: bc in panel && bc != TotRead ==> Get(table, bc) == CountOf(records, panel, bc)
  {
    var counts := CountSample(records, panel);
    var total := SumValues(counts);
    table := Put(counts, TotRead, total);
    SampleCountsMeaning(records, panel);
  }
}
