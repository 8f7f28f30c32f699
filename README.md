# Barcode read counting, modelled in Dafny

`barcodes.py` counts how many sequencing reads of each sample contain each
barcode of a panel. It then writes one results table, with one column per
distinct sample file name and one row per distinct barcode plus a `tot_read`
row. This project
models that counting and aggregation logic and proves its properties.

- `ordered_dict.dfy` (module `OrderedDict`) models Python's insertion-ordered
  `dict` with string keys, as the script uses it:
  - `dict.fromkeys`
  - item assignment, which keeps a present key in place and appends a new key
  - lookup
  - `sum(d.values())`
  - assigning a list of keys in turn
- `dna.dfy` (module `Dna`) models the reverse complement of a barcode and of
  the whole panel.
- `barcodes.dfy` (module `Barcodes`) models `parse_fastq`:
  - Each read is credited to the first barcode of the panel that it
    contains as a contiguous substring. The `break` stops the search at that
    barcode.
  - The per-barcode counts start at zero.
  - A `tot_read` row is appended.
  - The nested loop is written as two methods with loop invariants:
    `CreditRead` credits one read and `CountSample` scans all reads.
    Both are proved against the specification functions `Credit` and
    `CountReads`.
- `batch.dfy` (module `Batch`) models the body of `main` once the inputs
  are known:
  - the output file name;
  - the optional reverse complement of the panel;
  - the column name `fname.split('/')[-1]`;
  - the loop that stores each sample's table as a column.
- `scenario.dfy` (module `Scenario`) proves concrete tables for two worked
  samples.

A sample's reads are given as the sequence lines of its FASTQ records, in file
order. Counts are unbounded integers, like Python's.

**What `tot_read` counts.** Line 54 sets `tot_read` to the sum of the barcode
counts. That is the number of reads that contained some barcode, not the
number of reads in the file. The docstring at line 40 speaks of "a running
tally of total reads". The model follows the code:

- `Barcodes.SampleCountsMeaning` proves that `tot_read` is `MatchedCount`.
- `Barcodes.TotReadIsRecordCount` proves, for all inputs, that `tot_read`
  equals the number of reads exactly when every read contains some barcode.
- `Scenario.ScenarioTable` shows `tot_read` = 3 for four reads, one of which
  matches nothing.
- `Scenario.ScenarioEmptyPanel` shows `tot_read` = 0 for any number of reads
  when the panel is empty.

Other behaviour of the code that the model keeps:

- A barcode that occurs twice in the panel gets one row, at its first
  position.
- An empty barcode is contained in every read.
- A barcode spelled `tot_read` has its row overwritten by line 56.
- Two sample files with the same name share one column, and the later file
  wins.

## Model

| member | source | states |
|---|---|---|
| OrderedDict.Get | barcodes.py:50 | `d[k]` on a present key returns one of the table's stored values; `PutSame` and `PutOther` state which one after an assignment |
| OrderedDict.Put | barcodes.py:50 | `d[k] = v` (also lines 56 and 88) keeps the table well formed, leaves the key order unchanged when `k` is present and appends `k` otherwise; `PutSame`, `PutOther` and `PutDistinct` give its lookups and its distinct keys |
| OrderedDict.SumValues | barcodes.py:54 | `sum(d.values())`; `SumValuesPut` and `SumValuesFromKeysZero` state how it moves under `+=` and that a fresh `fromkeys(ks, 0)` sums to zero |
| OrderedDict.PutAll | barcodes.py:84-88 | assigning a list of keys in turn keeps the table well formed; `PutAllKeys`, `PutAllLastWins` and `PutAllValues` state its keys and values |
| OrderedDict.FromKeys | barcodes.py:45 | `dict.fromkeys(ks, v)` has exactly the distinct keys of `ks`, none repeated, and every value is `v` |
| OrderedDict.FromKeysOrder | barcodes.py:45 | the keys of `dict.fromkeys` come in the order of their first occurrence in the list |
| OrderedDict.FromKeysDistinct | barcodes.py:45 | for a list without repeats, `dict.fromkeys` keeps every key in list order |
| OrderedDict.PutSame | barcodes.py:50 | after `d[k] = v` the key is present and `d[k]` is `v` |
| OrderedDict.PutOther | barcodes.py:50 | `d[k] = v` leaves every other key present with its value unchanged |
| OrderedDict.SumValuesPut | barcodes.py:50-54 | adding `delta` to one entry adds `delta` to `sum(d.values())` |
| OrderedDict.SumValuesFromKeysZero | barcodes.py:45-54 | a fresh `dict.fromkeys(ks, 0)` sums to zero |
| OrderedDict.PutAllKeys | barcodes.py:84-88 | assigning keys in turn into an empty table gives the same keys, in the same order, as `dict.fromkeys` on that key list |
| OrderedDict.PutAllLastWins | barcodes.py:88 | when keys repeat, a key's final value is the one from its last assignment |
| OrderedDict.PutAllValues | barcodes.py:88 | every value in the final table was assigned to that key at some step |
| Dna.Complement | barcodes.py:79 | A and T complement each other, C and G complement each other, and any other character maps to itself |
| Dna.ReverseComplement | barcodes.py:79 | the result has the barcode's length, and position `i` holds the complement of position `len-1-i` |
| Dna.ReverseComplementPanel | barcodes.py:79 | the panel keeps its length and order, and each entry is reverse-complemented |
| Dna.ReverseComplementInvolutive | barcodes.py:79 | reverse-complementing a barcode twice gives it back |
| Dna.ReverseComplementPanelInvolutive | barcodes.py:79-80 | reverse-complementing the panel twice gives back the same panel |
| Barcodes.IsSubstring | barcodes.py:49 | `bc in record`; `IsSubstringIffOccurs` proves it holds exactly when `bc` occurs at some offset of the read |
| Barcodes.IsSubstringIffOccurs | barcodes.py:49 | `bc in read` holds exactly when `bc` occurs at some position of the read |
| Barcodes.AbsentFirstBase | barcodes.py:49 | a barcode whose first base is absent from the read is not contained in it |
| Barcodes.FirstMatch | barcodes.py:48-51 | the credited position holds a barcode the read contains, and no earlier barcode is contained; None exactly when no barcode of the panel is contained |
| Barcodes.Credit | barcodes.py:48-53 | scanning one read keeps the table well formed with the same rows; `CreditGet`, `CreditFirstMatch` and `CreditSum` state which count rises |
| Barcodes.CreditedToIff | barcodes.py:48-51 | a read is credited to `bc` if and only if `bc` sits at some panel position, is contained in the read, and no earlier barcode is |
| Barcodes.FirstMatchAt | barcodes.py:48-51 | the first contained barcode is the one the search stops at, whatever later barcodes the read contains |
| Barcodes.CreditFirstMatch | barcodes.py:48-51 | the read is credited to the first contained barcode: its count goes up by one |
| Barcodes.CreditGet | barcodes.py:48-53 | scanning one read adds one to the count of the barcode it is credited to and leaves every other count unchanged |
| Barcodes.CreditSum | barcodes.py:48-54 | scanning one read adds one to the sum of the counts if it contains a barcode, nothing otherwise |
| Barcodes.CountReadsStep | barcodes.py:47-53 | one more read keeps the rows and raises exactly the credited barcode's count by one, or nothing when no barcode is contained |
| Barcodes.CountReads | barcodes.py:45-53 | the counts after all reads have the rows of `dict.fromkeys(panel, 0)`; `CountReadsValues` and `CountReadsSum` tie the counts to `CountOf` and `MatchedCount` |
| Barcodes.CountReadsValues | barcodes.py:45-53 | each barcode's count is the number of reads credited to it |
| Barcodes.CountReadsSum | barcodes.py:45-54 | the barcode counts add up to the number of reads that contain some barcode |
| Barcodes.RowKeys | barcodes.py:45-56 | the row keys of a sample table; `RowKeysMeaning` states them |
| Barcodes.RowKeysMeaning | barcodes.py:45-56 | the rows are the distinct barcodes in first-occurrence order followed by `tot_read`, each key once |
| Barcodes.SampleCounts | barcodes.py:45-57 | the table `parse_fastq` returns; `SampleCountsMeaning` states its rows and values and `TotReadIsRecordCount` when `tot_read` equals the number of reads |
| Barcodes.SampleCountsMeaning | barcodes.py:45-57 | the returned table has the rows of `RowKeys`; `tot_read` is the number of matched reads and at most the number of reads; every barcode row counts the reads credited to it |
| Barcodes.MatchedCountAll | barcodes.py:47-54 | every read is matched exactly when the matched-read count equals the number of reads |
| Barcodes.TotReadIsRecordCount | barcodes.py:54-56 | `tot_read` equals the number of reads scanned if and only if every read contains some barcode of the panel, so the running tally of total reads the docstring at line 40 describes holds only then |
| Barcodes.CreditRead | barcodes.py:48-53 | the inner loop with its `break` computes `Credit`: only the first contained barcode gains one |
| Barcodes.CountSample | barcodes.py:45-53 | the outer loop computes `CountReads`: counts start at zero and every read is credited in file order |
| Barcodes.ParseFastq | barcodes.py:45-57 | the table is `SampleCounts`; its rows are `RowKeys`; `tot_read` is the number of matched reads; each barcode row counts the reads credited to it |
| Batch.OutputName | barcodes.py:75-81 | the output is always an `.xlsx` file, and its name starts with `revcomp_` exactly when the reverse-complement flag is set |
| Batch.SearchPanel | barcodes.py:78-80 | the panel that is searched; `SearchPanelMeaning` states it |
| Batch.OutputNamesDistinct | barcodes.py:75-81 | the reverse-complement output name is the plain name prefixed with `revcomp_`, so the two names differ |
| Batch.SearchPanelMeaning | barcodes.py:78-80 | with the flag set, the searched panel is the element-wise reverse complement of the given panel, and reverse-complementing it again gives the given panel; without it, the panel is unchanged |
| Batch.ColumnName | barcodes.py:87 | the column name is a suffix of the path, contains no `/`, and is the whole path or follows a `/` |
| Batch.ColumnNameUnique | barcodes.py:87 | any suffix with those three properties is the column name |
| Batch.ColumnNameOfFile | barcodes.py:87 | a file `name` in directory `dir` gets the column `name` |
| Batch.Aggregate | barcodes.py:84-88 | the results table after the column loop; `AggregateColumns`, `AggregateLastWins` and `AggregateRows` state its columns, its values and its rows |
| Batch.AggregateColumns | barcodes.py:84-88 | the columns are the distinct sample file names, each once, in the order they first appear |
| Batch.AggregateLastWins | barcodes.py:85-88 | a column holds the table of the last sample with that file name |
| Batch.AggregateRows | barcodes.py:84-88 | every column has exactly the rows `RowKeys(panel)`, so the columns line up without reindexing |
| Batch.AggregatePrefixStep | barcodes.py:85-88 | storing one more sample's table under its column name extends the results table by that sample |
| Batch.BuildMatrix | barcodes.py:84-88 | the column loop computes `Aggregate`: each sample's table is assigned to its column in sample order |
| Batch.RunBatch | barcodes.py:74-88 | the output name is `OutputName(rc)`, and the table is built over the reverse-complemented panel exactly when the flag is set |
| Scenario.AAAANotInCCCCAA | barcodes.py:49 | the read CCCCAA does not contain AAAA |
| Scenario.ScenarioTable | barcodes.py:45-57 | panel AAAA, CCCC with reads AAAAGG, CCCCAA, GGGG, AAAACCCC gives rows AAAA, CCCC, `tot_read` with counts 2, 1, 3 |
| Scenario.ScenarioEmptyPanel | barcodes.py:45-57 | with an empty panel the table is the single row `tot_read`, equal to 0 for any reads |
| Scenario.ScenarioSelfComplementaryPanel | barcodes.py:78-80 | a reverse-complement run over the panel AT, GC searches for AT, GC, since each is its own reverse complement |

## Left out

- `get_fnames` (barcodes.py:15-24) walks the directory tree and is file-system I/O. Samples are a given list of (path, reads) in processing order. The order `os.walk` yields is not modelled.
- `get_bc` (barcodes.py:27-34) reads the panel from a spreadsheet. The panel is a parameter.
- Gzip decompression and FASTQ decoding by `SeqIO.parse` (barcodes.py:46-47) are library I/O. Each read is its sequence string, and quality lines are not modelled. A malformed or truncated FASTQ file raises out of `SeqIO.parse` and ends `main` before `to_excel`; `Batch.RunBatch` always returns a table, so that failure path is not modelled.
- The progress messages with timestamps (barcodes.py:42-43, 59-60) are output only.
- The pandas `Series`/`DataFrame` conversions and `to_excel` (barcodes.py:57, 84, 89) are library plumbing. A table is an ordered dictionary, and the results table is an ordered dictionary of them. Index alignment is not modelled; `Batch.AggregateRows` shows that every column has the same rows.
- Argument parsing and the usage check (barcodes.py:70-72, 92-97) handle the command line. The reverse-complement flag is a `bool` parameter.
- Dna.Complement: covers only A, C, G, T and leaves every other character unchanged, so N maps to N. Biopython's IUPAC ambiguity codes (R/Y, K/M, B/V, D/H) and lowercase letters are not modelled.
