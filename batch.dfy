/**
 * The batch run of `main` (barcodes.py:64-89): choose the output file name,
 * reverse-complement the panel when asked, count every sample with
 * `parse_fastq`, and gather the per-sample tables into one results table
 * with one column per sample file name.
 *
 * The results table is an ordered dictionary from column names to sample
 * tables. Writing a column that already exists replaces it in place, as
 * DataFrame column assignment does.
 */
module Batch {
  import opened OrderedDict
  import opened Barcodes
  import opened Dna

  /** One FASTQ file: its path and the sequence lines of its reads, in file order. */
  datatype Sample = Sample(path: string, records: seq<string>)

  /** The output file name of a plain run (line 75). */
  const PlainOutput: string := "barcode_reads.xlsx"

  /** The output file name of a reverse-complement run (line 81). */
  const RevcompOutput: string := "revcomp_barcode_reads.xlsx"

  /**
   * Lines 75-81: the name of the file the results table is written to. It is
   * always an Excel workbook, and it starts with `revcomp_` exactly when the
   * panel was reverse-complemented.
   */
  function OutputName(rc: bool): (r: string)
    ensures |r| > 8 && r[|r| - 5..] == ".xlsx"
    ensures rc <==> r[..8] == "revcomp_"
  {
    if rc then assert RevcompOutput[..8] == "revcomp_"; RevcompOutput
    else assert PlainOutput[..8][0] == 'b'; PlainOutput
  }

  /** Lines 78-80: the panel the reads are searched for. */
  function SearchPanel(barcodes: seq<string>, rc: bool): seq<string> {
    if rc then ReverseComplementPanel(barcodes) else barcodes
  }

  /**
   * The two runs write different files: the reverse-complement name is the
   * plain name with a `revcomp_` prefix, so one run never overwrites the
   * other's output.
   */
  lemma OutputNamesDistinct()
    ensures OutputName(true) == "revcomp_" + OutputName(false)
    ensures OutputName(true) != OutputName(false)
  {
    assert |OutputName(true)| != |OutputName(false)|;
  }

  /**
   * A reverse-complement run searches for exactly the barcodes whose reverse
   * complement is in the given panel, in the panel's order; a plain run
   * searches for the panel itself.
   */
  lemma SearchPanelMeaning(barcodes: seq<string>, rc: bool)
    ensures |SearchPanel(barcodes, rc)| == |barcodes|
    ensures forall i :: 0 <= i < |barcodes| ==>
      SearchPanel(barcodes, rc)[i] == if rc then ReverseComplement(barcodes[i]) else barcodes[i]
    ensures rc ==> ReverseComplementPanel(SearchPanel(barcodes, rc)) == barcodes
  {
    if rc {
      ReverseComplementPanelInvolutive(barcodes);
    }
  }

  /**
   * `fname.split('/')[-1]` (line 87): the part of the path after its last
   * `/`, or the whole path when it has none. It is the longest suffix of the
   * path without a `/`.
   */
  function ColumnName(path: string): (r: string)
    ensures |r| <= |path| && r == path[|path| - |r|..]
    ensures '/' !in r
    ensures |r| == |path| || path[|path| - |r| - 1] == '/'
  {
    if path == [] || path[|path| - 1] == '/' then []
    else ColumnName(path[..|path| - 1]) + [path[|path| - 1]]
  }

  /** The column name is the only suffix without a `/` that starts the path or follows a `/`. */
  lemma ColumnNameUnique(path: string, name: string)
    requires |name| <= |path| && name == path[|path| - |name|..]
    requires '/' !in name
    requires |name| == |path| || path[|path| - |name| - 1] == '/'
    ensures name == ColumnName(path)
  {
  }

  /** A file `name` inside directory `dir` gets the column `name`. */
  lemma ColumnNameOfFile(dir: string, name: string)
    requires '/' !in name
    ensures ColumnName(dir + "/" + name) == name
  {
    var path := dir + "/" + name;
    assert path[|path| - |name|..] == name;
    assert path[|path| - |name| - 1] == '/';
    ColumnNameUnique(path, name);
  }

  /** The column names of the samples, in sample order. */
  function ColumnNames(samples: seq<Sample>): (r: seq<string>)
    ensures |r| == |samples|
    ensures forall i :: 0 <= i < |samples| ==> r[i] == ColumnName(samples[i].path)
  {
    seq(|samples|, i requires 0 <= i < |samples| => ColumnName(samples[i].path))
  }

  /** The table `parse_fastq` returns for each sample, in sample order. */
  function SampleTables(samples: seq<Sample>, panel: seq<string>): (r: seq<Dict<int>>)
    ensures |r| == |samples|
    ensures forall i :: 0 <= i < |samples| ==> r[i] == SampleCounts(samples[i].records, panel)
  {
    seq(|samples|, i requires 0 <= i < |samples| => SampleCounts(samples[i].records, panel))
  }

  /** The results table after lines 84-88: each sample's table assigned to its column in turn. */
  function Aggregate(samples: seq<Sample>, panel: seq<string>): Dict<Dict<int>> {
    PutAll(Empty(), ColumnNames(samples), SampleTables(samples, panel))
  }

  /**
   * The columns of the results table: one per distinct sample file name, in
   * the order the names first appear; a repeated name adds no column.
   */
  lemma AggregateColumns(samples: seq<Sample>, panel: seq<string>)
    ensures var cols := Aggregate(samples, panel).keys;
      && cols == FromKeys(ColumnNames(samples), 0).keys
      && Distinct(cols)
      && (forall c :: c in cols <==> c in ColumnNames(samples))
      && FirstOccurrenceOrder(cols, ColumnNames(samples))
  {
    PutAllKeys(ColumnNames(samples), SampleTables(samples, panel));
    FromKeysOrder(ColumnNames(samples), 0);
  }

  /**
   * The column of a sample's name holds the table of the last sample with
   * that name: a later file with the same name overwrites an earlier one.
   */
  lemma AggregateLastWins(samples: seq<Sample>, panel: seq<string>, i: nat)
    requires i < |samples|
    requires forall j :: i < j < |samples| ==> ColumnName(samples[j].path) != ColumnName(samples[i].path)
    ensures ColumnName(samples[i].path) in Aggregate(samples, panel).keys
    ensures Get(Aggregate(samples, panel), ColumnName(samples[i].path)) == SampleCounts(samples[i].records, panel)
  {
    PutAllLastWins(Empty(), ColumnNames(samples), SampleTables(samples, panel), i);
  }

  /**
   * Every column has the same rows, those of `RowKeys(panel)`, so placing the
   * sample tables side by side needs no realignment of rows.
   */
  lemma AggregateRows(samples: seq<Sample>, panel: seq<string>, c: string)
    requires c in Aggregate(samples, panel).keys
    ensures Valid(Get(Aggregate(samples, panel), c))
    ensures Get(Aggregate(samples, panel), c).keys == RowKeys(panel)
  {
    PutAllValues(ColumnNames(samples), SampleTables(samples, panel), c);
    var i :| 0 <= i < |samples| && Get(Aggregate(samples, panel), c) == SampleTables(samples, panel)[i];
    SampleCountsMeaning(samples[i].records, panel);
  }

  /** The results table after the first `n` samples. */
  function AggregatePrefix(samples: seq<Sample>, panel: seq<string>, n: nat): Dict<Dict<int>>
    requires n <= |samples|
  {
    PutAll(Empty(), ColumnNames(samples)[..n], SampleTables(samples, panel)[..n])
  }

  /** Storing sample `n`'s table under its column name extends the results table by one sample. */
  lemma AggregatePrefixStep(samples: seq<Sample>, panel: seq<string>, n: nat)
    requires n < |samples|
    ensures AggregatePrefix(samples, panel, n + 1) ==
      Put(AggregatePrefix(samples, panel, n), ColumnName(samples[n].path), SampleCounts(samples[n].records, panel))
  {
    PutAllStep(Empty(), ColumnNames(samples), SampleTables(samples, panel), n);
  }

  /** After all samples, the prefix table is the whole results table. */
  lemma AggregatePrefixAll(samples: seq<Sample>, panel: seq<string>)
    ensures AggregatePrefix(samples, panel, |samples|) == Aggregate(samples, panel)
  {
    assert ColumnNames(samples)[..|samples|] == ColumnNames(samples);
    assert SampleTables(samples, panel)[..|samples|] == SampleTables(samples, panel);
  }

  /** Lines 84-88: count each sample and store its table under its column name. */
  method BuildMatrix(samples: seq<Sample>, panel: seq<string>) returns (matrix: Dict<Dict<int>>)
    ensures matrix == Aggregate(samples, panel)
  {
    matrix := Empty();
    for n := 0 to |samples|
      invariant matrix == AggregatePrefix(samples, panel, n)
    {
      var table := ParseFastq(samples[n].records, panel);
      var colname := ColumnName(samples[n].path);
      AggregatePrefixStep(samples, panel, n);
      matrix := Put(matrix, colname, table);
    }
    AggregatePrefixAll(samples, panel);
  }

  /**
   * `main` (lines 74-89) once the file list and the panel have been read:
   * the output name, and the results table over the panel searched for.
   */
  method RunBatch(samples: seq<Sample>, barcodes: seq<string>, rc: bool) returns (outName: string, matrix: Dict<Dict<int>>)
    ensures outName == OutputName(rc)
    ensures matrix == Aggregate(samples, SearchPanel(barcodes, rc))
  {
    outName := PlainOutput;
    var panel := barcodes;
    if rc {
      panel := ReverseComplementPanel(barcodes);
      outName := RevcompOutput;
    }
    matrix := BuildMatrix(samples, panel);
  }
}
