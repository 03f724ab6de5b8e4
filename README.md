# FASTA analyzer — a Dafny model

This project models the core of a small FASTA analysis tool written in
Python 2. The tool reads a FASTA file into a dictionary of contig records.
It can merge a tab-separated coverage file into those records. It then
builds the point lists that its plots draw: GC content against length,
coverage against GC content, coverage against length, and two histograms.

Two scripts are modelled:

- **`fasta_analyzer.py`**, the current tool:
  - the `Fasta` record class, which lower-cases its sequence, strips its
    identifier and caches its `gccount()` fields;
  - `read_file`, a line-driven loop that keeps the last record for each
    identifier;
  - `read_covfile`, which sets coverages in place, reports unmatched names
    by line number, and is stopped by a line that does not split into
    exactly two fields;
  - `isNaN`;
  - the list-building loops of `lengcplot`, `covgcplot`, `covlenplot`,
    `covhistogram` and `lenhistogram`, with their length bins and GC bins.
- **`fasta-analyzer.py`**, the older script:
  - its `Fasta` class, which keeps the sequence as read, counts capital
    bases, counts line feeds in its length, and divides by zero when the
    sequence has no G, C, A or T;
  - its `read_file` generator, which keeps every record in file order;
  - its `length()` and `gccontent()` loops, which append to two module-level
    lists.

Modules, one per file:

| file | module | what it holds |
|---|---|---|
| `wrappers.dfy` | `Wrappers` | `Option` |
| `text.dfy` | `Text` | Python 2 string operations: `count`, ASCII `lower()`, `rstrip()`, `''.join`, `split('\t')` |
| `numbers.dfy` | `Numbers` | floats with a NaN value; `isNaN` and the comparisons the plots make |
| `fasta_format.dfy` | `FastaFormat` | the FASTA line format: header lines, identifiers, and the records both readers collect |
| `fasta_record.dfy` | `FastaRecord` | the `Fasta` class of `fasta_analyzer.py` and its statistics |
| `fasta_reader.dfy` | `FastaReader` | `read_file` of `fasta_analyzer.py` and its last-write-wins dictionary |
| `coverage.dfy` | `Coverage` | `read_covfile` |
| `plot_data.dfy` | `PlotData` | the lists the five plot functions build, and their bins |
| `legacy.dfy` | `Legacy` | `fasta-analyzer.py` |

Both readers share one specification, `FastaFormat.Parse`. It maps the
lines of a file to its records, each being a header line together with the
joined lines that follow it. The current reader stores
`Index(Parse(lines))`: the map from identifier to the content of the last
record with that identifier. The older one yields `Parse(lines)` itself.

Behaviour worth noting:

- **Coverage values that `float()` rejects.** The exception is swallowed,
  so the record keeps the coverage it had.
- **Coverage lines without exactly one tab.** `name, cov = line.split('\t')`
  raises on such a line. That statement sits outside the `try`, so the
  whole merge ends there, with the lines before it already applied.
- **Rounding.** `round(x, 1)` gives a whole number of tenths; a value
  halfway between two tenths goes to the larger one.
- **Plot order.** Each plot loop visits the records in the iteration order
  of the dictionary, which the model takes as a parameter `keys`.
- **Record content.** Content keeps the line terminators of its lines, so
  the last record of `">c1\nAAA\n>c1\nCCC\n"` holds `"ccc\n"`. Its
  `length()` is 3.

## Model

| member | source | states |
|---|---|---|
| Text.Count | fasta_analyzer.py:102 | `str.count` of one character: never more than the length, and zero exactly when the character does not occur |
| Text.Lower | fasta_analyzer.py:91 | Python 2 `lower()`: same length, each capital A–Z replaced by its small letter, everything else kept |
| Text.RStrip | fasta_analyzer.py:90 | `rstrip()`: a prefix of the string that does not end in whitespace, with only whitespace cut off |
| Text.SplitTab | fasta_analyzer.py:148 | `split('\t')` gives two fields exactly when the line holds one tab; the fields rejoin to the line and hold no tab |
| Text.Concat | fasta_analyzer.py:171 | `''.join`; a function without a contract of its own |
| Text.CountLower | fasta_analyzer.py:91-109 | after `lower()`, the count of a small letter is its count plus that of its capital |
| Numbers.IsNaN | fasta_analyzer.py:512-515 | `num != num` holds exactly for NaN |
| FastaFormat.Identifier | fasta_analyzer.py:90 | `name[1:].rstrip()`: a prefix of the line after its first character, followed in the line only by whitespace, not ending in whitespace |
| FastaFormat.IsHeader | fasta_analyzer.py:169 | `line.startswith('>')`; a predicate without a contract of its own |
| FastaFormat.Body | fasta_analyzer.py:168-176 | the lines a record collects: a prefix of the rest of the file without header lines, ended by a header or the end |
| FastaFormat.Parse | fasta_analyzer.py:167-180 | the records the reading loop collects, each a `>` line and the join of the lines after it; no contract of its own, its properties are the lemmas below |
| FastaFormat.ParseHeaderLines | fasta_analyzer.py:168-180 | one record per `>` line, in file order, headed by that line |
| FastaFormat.RecordsAtHeaders | fasta_analyzer.py:169-174 | every record starts at a header line of the file |
| FastaFormat.HeaderStartsRecord | fasta_analyzer.py:169-174 | every header line of the file starts a record |
| FastaFormat.ParseEmpty | fasta_analyzer.py:177-180 | there are no records exactly when no line starts with `>` |
| FastaFormat.ParsePreamble | fasta_analyzer.py:167-176 | lines before the first `>` line are dropped |
| FastaFormat.EmptyRecord | fasta_analyzer.py:169-174 | a header directly followed by another header gives a record with empty content |
| FastaFormat.ParseSnoc | fasta_analyzer.py:168-176 | one more line either opens a new empty record or extends the last one; it is dropped when no record is open |
| FastaFormat.ParseUnparse | fasta_analyzer.py:165-181 | writing well-formed records out as lines and reading them back gives the same records |
| FastaRecord.RoundedPercent | fasta_analyzer.py:113 | `round(gc / total * 100, 1)`: a whole number of tenths within 0.05 of the exact percentage (halves upwards), between 0 and 100 |
| FastaRecord.SeqLength | fasta_analyzer.py:102 | `len(seq) - seq.count('\n')`; a function without a contract of its own |
| FastaRecord.GcContent | fasta_analyzer.py:106-114 | NaN exactly when the sequence has no a, c, g or t; otherwise a whole number of tenths, between 0 and 100, within 0.05 of 100·(g+c)/(g+c+a+t) |
| FastaRecord.BasesOfLowered | fasta_analyzer.py:91-109 | the bases counted in the lowered sequence are the input's bases of either case |
| FastaRecord.StatisticsIgnoreCase | fasta_analyzer.py:91-114 | GC content and length do not depend on the letter case of the input |
| FastaRecord.LengthZero | fasta_analyzer.py:101-102 | the length is 0 exactly when the sequence is empty or holds only line feeds |
| FastaRecord.NCountAtMostLength | fasta_analyzer.py:122-123 | the count of `n` never exceeds the length |
| FastaRecord.Gca | fasta_analyzer.py:101-114 | the sequence `gca` has length 3 and GC content 66.7 |
| FastaRecord.Fasta.constructor | fasta_analyzer.py:89-92 | the name is the header's identifier, the sequence is lowered, coverage is NaN, and no `gccount()` field exists yet |
| FastaRecord.Fasta.Length | fasta_analyzer.py:101-102 | the number of characters that are not line feeds, never more than the sequence length |
| FastaRecord.Fasta.NContent | fasta_analyzer.py:122-123 | the count of `n`, never more than `length()` |
| FastaRecord.Fasta.GcCount | fasta_analyzer.py:106-114 | returns the GC content and caches the G+C count, the base total and the result |
| FastaRecord.Fasta.SetCoverage | fasta_analyzer.py:119-120 | sets the coverage |
| FastaReader.Index | fasta_analyzer.py:171-180 | the map the repeated `dictionary.update` builds from the records; no contract of its own, its properties are the lemmas below |
| FastaReader.IndexSnoc | fasta_analyzer.py:171-173 | `dictionary.update` with the newest record replaces any entry under its identifier |
| FastaReader.IndexKeys | fasta_analyzer.py:171-180 | the keys are exactly the identifiers of the stored records |
| FastaReader.IndexLastWins | fasta_analyzer.py:171-180 | an identifier maps to the content of the last record carrying it |
| FastaReader.CorpusKeys | fasta_analyzer.py:165-181 | the keys read from a file are exactly the identifiers of its `>` lines |
| FastaReader.NoHeaderNoRecords | fasta_analyzer.py:165-181 | a file without a `>` line gives an empty dictionary |
| FastaReader.ReadFile | fasta_analyzer.py:162-181 | one new `Fasta` per identifier of the file, built from the last record with it: its name, lowered content, NaN coverage and empty cache |
| FastaReader.ReadLine | fasta_analyzer.py:168-176 | one turn of the loop keeps "the records read so far are the stored ones plus the open one" |
| FastaReader.OpenStep | fasta_analyzer.py:169-176 | a header line closes the open record and opens an empty one; any other line joins the open record |
| FastaReader.Store | fasta_analyzer.py:171-173 | storing a record adds one fresh `Fasta` under its identifier and keeps the object stored under every other key |
| Coverage.LineEffect | fasta_analyzer.py:148-155 | a line is malformed exactly when it does not hold one tab; unmatched exactly when its name is not a key; it assigns exactly when the name is a key and `float()` accepts the value, and then assigns the parsed value |
| Coverage.Processed | fasta_analyzer.py:146-148 | how many lines the merge handles before a line without exactly one tab: no more than there are lines |
| Coverage.ProcessedStops | fasta_analyzer.py:146-148 | the merge handles every line up to the first one without exactly one tab, and stops there |
| Coverage.CoverageAfter | fasta_analyzer.py:146-153 | the coverage a record holds after some lines: the value of the last line that assigns to it, or its starting coverage; no contract of its own |
| Coverage.Diagnostics | fasta_analyzer.py:145-155 | the 1-based line numbers reported for unmatched names; no contract of its own |
| Coverage.ReadCovfile | fasta_analyzer.py:139-156 | aborts at the first malformed line (with its 1-based number) or returns the same dictionary; each record's coverage is set by the lines handled; one diagnostic per unmatched line; keys never change |
| Coverage.MergeLine | fasta_analyzer.py:147-155 | one line updates the coverage of the record it names and the diagnostics |
| Coverage.CoverageLastAssignment | fasta_analyzer.py:149-151 | a record ends with the value of the last line that sets it |
| Coverage.CoverageUntouched | fasta_analyzer.py:149-153 | a record no line sets, or whose values all fail to parse, keeps its coverage |
| Coverage.AssignsToKey | fasta_analyzer.py:149-151 | with one record per key, a line sets a record exactly when it names that record's key |
| Coverage.DiagnosticsAreUnmatched | fasta_analyzer.py:145-155 | diagnostics are the 1-based numbers of exactly the unmatched lines |
| Coverage.DiagnosticsIncreasing | fasta_analyzer.py:145-155 | diagnostics come in increasing line order and never exceed the line count |
| PlotData.Visited | fasta_analyzer.py:196 | the records a plot loop visits: exactly the records stored under the keys it visits, all of them records of the dictionary |
| PlotData.Rows | fasta_analyzer.py:196 | one row per visited key |
| PlotData.RowsAt | fasta_analyzer.py:196-199 | row j is the record under the j-th key |
| PlotData.RowsAll | fasta_analyzer.py:196-199 | every row is the record under its key |
| PlotData.OneRowPerRecord | fasta_analyzer.py:196 | iterating over the dictionary gives exactly one row per record, and every record has its row |
| PlotData.DistinctKeysCount | fasta_analyzer.py:196 | a key order without repeats holds as many keys as it is long |
| PlotData.ColumnsAt | fasta_analyzer.py:193-199 | the name, length, GC and coverage columns are aligned point by point with the rows |
| PlotData.LengthBin | fasta_analyzer.py:286-296 | large exactly above 100000, medium from 10000 to 100000, small below 10000; the `else` is never reached |
| PlotData.GcBin | fasta_analyzer.py:383-393 | large above 55, medium from 40 to 55, small below 40; no bin exactly when the GC content is NaN |
| PlotData.Select | fasta_analyzer.py:282 | the rows that pass the `isNaN` test and, for a bin, the bin test, in order; no contract of its own |
| PlotData.SelectMembers | fasta_analyzer.py:282 | the filtered rows are exactly the rows meeting the test, and there are no more of them than rows |
| PlotData.LengthBinsPartition | fasta_analyzer.py:281-296 | the three length bins together hold exactly the records with a coverage, each once, and nothing falls through |
| PlotData.GcBinsPartition | fasta_analyzer.py:378-393 | the three GC bins together hold exactly the records with a coverage and a GC content |
| PlotData.GcUnbinned | fasta_analyzer.py:379-393 | the records that reach the unbinned lists but no GC bin are exactly those with a coverage and NaN GC content |
| PlotData.PointsHaveCoverage | fasta_analyzer.py:282-294 | x and y lists have equal lengths, no more points than rows, and no plotted coverage is NaN |
| PlotData.Visit | fasta_analyzer.py:198 | `gccount()` returns the record's GC content and leaves its cache filled, and the caches of visited records stay filled |
| PlotData.CachedSkip | fasta_analyzer.py:282 | passing over a record without coverage keeps the visited records with coverage cached |
| PlotData.LenGcPlot | fasta_analyzer.py:187-199 | the lists are the length, GC content and name of every record in visiting order; every visited record ends cached, and no other record is touched |
| PlotData.LenGcStep | fasta_analyzer.py:196-199 | one turn appends the point of the next row |
| PlotData.AddLenGc | fasta_analyzer.py:197-199 | the three appends give the lists of one more row |
| PlotData.CovGcPlot | fasta_analyzer.py:272-296 | the lists are the coverage/GC points and names of the records with a coverage, and the same points split by length bin; only those records are cached; records without a coverage and records not visited keep their fields |
| PlotData.CovGcStep | fasta_analyzer.py:281-296 | one turn appends the next row's points when it has a coverage, and leaves its record untouched otherwise |
| PlotData.NoCovGcPoint | fasta_analyzer.py:282 | a row without coverage adds no point |
| PlotData.AddCovGc | fasta_analyzer.py:283-294 | the appends give the lists of one more row |
| PlotData.CovLenPlot | fasta_analyzer.py:369-393 | the lists are the coverage/length points and names of the records with a coverage, and the same points split by GC bin; only those records are cached; records without a coverage and records not visited keep their fields |
| PlotData.CovLenStep | fasta_analyzer.py:378-393 | one turn appends the next row's points when it has a coverage, and leaves its record untouched otherwise |
| PlotData.NoCovLenPoint | fasta_analyzer.py:379 | a row without coverage adds no point |
| PlotData.AddCovLen | fasta_analyzer.py:380-391 | the appends give the lists of one more row |
| PlotData.CovHistogram | fasta_analyzer.py:465-484 | the histogram list is the coverage of every record that has one, in visiting order |
| PlotData.AddCoverage | fasta_analyzer.py:473-475 | one turn appends the next coverage unless it is NaN |
| PlotData.LenHistogram | fasta_analyzer.py:490-506 | the histogram list is the length of every record, in visiting order |
| PlotData.AddLength | fasta_analyzer.py:498-499 | one turn appends the next length |
| Legacy.GcFraction | fasta-analyzer.py:58-63 | the division raises exactly when there is no capital G, C, A or T; otherwise the fraction lies between 0 and 1 |
| Legacy.CountsAgree | fasta-analyzer.py:59-61 | on a sequence without small bases, the capital counts equal the current script's counts of the lowered sequence |
| Legacy.VersionsAgree | fasta-analyzer.py:58-63 | on such a sequence the two scripts agree: one raises exactly when the other gives NaN, and 100 times the fraction is within 0.05 of the rounded percentage |
| Legacy.LengthCountsNewlines | fasta-analyzer.py:54-55 | this length is the current script's length plus the number of line feeds |
| Legacy.LegacyFasta.constructor | fasta-analyzer.py:44-46 | name and sequence are kept unchanged |
| Legacy.LegacyFasta.Header | fasta-analyzer.py:48-49 | `name[1:].rstrip()`, computed on each call |
| Legacy.LegacyFasta.Length | fasta-analyzer.py:54-55 | every character counts, line feeds included |
| Legacy.LegacyFasta.GcCount | fasta-analyzer.py:58-63 | caches the two capital counts, returns the fraction, and sets `content` only when the division does not raise |
| Legacy.LengthsAt | fasta-analyzer.py:87-90 | one length per record, the record's own, in order |
| Legacy.LengthPerHeaderLine | fasta-analyzer.py:70-90 | `length()` appends exactly one value per `>` line of the file |
| Legacy.GcRun | fasta-analyzer.py:97-100 | the values `gccontent()` appends and where it raises; no contract of its own, its properties are the lemmas below |
| Legacy.GcRunFinished | fasta-analyzer.py:97-100 | `gccontent()` finishes exactly when every record holds a capital G, C, A or T |
| Legacy.GcRunRaised | fasta-analyzer.py:97-100 | otherwise it raises at a record without any, after one value for each earlier record |
| Legacy.GcRunValues | fasta-analyzer.py:97-100 | the appended values are, in order, 100 times each record's fraction, each between 0 and 100 |
| Legacy.GcRunSnoc | fasta-analyzer.py:98-100 | one more record appends its percentage or raises at it |
| Legacy.GcRunStops | fasta-analyzer.py:97-100 | after the exception, later records change nothing |
| Legacy.Script.constructor | fasta-analyzer.py:123-124 | both global lists start empty |
| Legacy.Script.ReadFile | fasta-analyzer.py:70-80 | reads the script's input file, not its argument, and gives every record in file order, duplicates kept |
| Legacy.Script.Length | fasta-analyzer.py:86-90 | `lengthlist` gains the length of every record in file order |
| Legacy.Script.Fraction | fasta-analyzer.py:99-100 | a record built from a yielded pair gives that content's fraction, or raises |
| Legacy.Script.GcContent | fasta-analyzer.py:96-100 | `gclist` gains the percentage of each record up to the first that raises, and the run reports where it raised |

## Left out

- Command line and output: argument parsing, `run()`, the `-all` expansion and all printing. The diagnostics of `read_covfile` are modelled as the line numbers they carry, not as text written to stderr.
- Drawing: the matplotlib calls, the log-scale histogram bins, the `onpick`, `on_key` and `format_coord` closures with their global `mark` and `annotation`, and the `conname` holder. Only the lists built before drawing are modelled.
- Floating point: coverages and percentages are exact reals, and NaN is a value of its own. `float()` is a parameter `parse` that gives no value where Python raises. Which strings it accepts is not modelled.
- Files: `seek(0)`, iteration over a file object and `close()` are not modelled. Input is the sequence of the file's lines, each with its line terminator.
- Dictionary order: Python's iteration order is not modelled. The plot methods take the order as a `keys` parameter listing keys of the dictionary.
- Generators: the older `read_file` is modelled as producing the whole record list at once. Its laziness shows only when `gccontent()` raises, and `Legacy.GcRun` models that.
- Plain accessors: `header()`, `sequence()` and `getcoverage()` of `fasta_analyzer.py`, and `sequence()` of `fasta-analyzer.py`, return a field unchanged. They are modelled as those fields, or as a function without a contract of its own.
- Repeated calls: `covgcplot` and `covlenplot` call `gccount()`, `length()` and `getcoverage()` several times per record. These calls are modelled as one, because they return the same values and leave the same cache.
- `fasta_analyzer_test.py` is not part of this model. It holds no logic, and its expectations do not match the current code.
