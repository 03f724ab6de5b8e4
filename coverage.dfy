/** `read_covfile` of fasta_analyzer.py: merges a coverage file of
    `name<TAB>value` lines into the records of a dictionary, in place. */
module Coverage {
  import opened Wrappers
  import opened Text
  import opened Numbers
  import opened FastaRecord

  /** What one line of the coverage file does. `parse` is Python's
      `float()`: None where it raises. */
  datatype Effect =
    | Malformed                            // not exactly one tab: the unpacking raises
    | Unmatched                            // the name is not a key: a diagnostic is written
    | Unparsed(name: string)               // `float()` raised and was swallowed
    | Assign(name: string, value: Number)  // `setcoverage(float(cov))`

  function LineEffect(line: string, keys: set<string>, parse: string -> Option<Number>): (e: Effect)
    ensures e.Malformed? <==> Count(line, '\t') != 1
    ensures (e.Unparsed? || e.Assign?) ==> e.name in keys && line == e.name + "\t" + SplitTab(line).value.1
    ensures e.Unmatched? <==> SplitTab(line).Some? && SplitTab(line).value.0 !in keys
    ensures e.Assign? <==> SplitTab(line).Some? && SplitTab(line).value.0 in keys && parse(SplitTab(line).value.1).Some?
    ensures e.Assign? ==> e.value == parse(SplitTab(line).value.1).value
  {
    match SplitTab(line)
    case None => Malformed
    case Some(fields) =>
      if fields.0 !in keys then Unmatched
      else if parse(fields.1).None? then Unparsed(fields.0)
      else Assign(fields.0, parse(fields.1).value)
  }

  /** The number of lines processed before the merge stops: the index of the
      first line that does not hold exactly one tab, or all of them. */
  function Processed(lines: seq<string>): (n: nat)
    ensures n <= |lines|
  {
    if lines == [] || SplitTab(lines[0]).None? then 0 else 1 + Processed(lines[1..])
  }

  /** Every line before the `Processed(lines)`-th holds exactly one tab, and
      that line, if there is one, does not. */
  lemma {:induction false} ProcessedStops(lines: seq<string>)
    ensures forall i :: 0 <= i < Processed(lines) ==> Count(lines[i], '\t') == 1
    ensures Processed(lines) < |lines| ==> Count(lines[Processed(lines)], '\t') != 1
  {
    if lines != [] && SplitTab(lines[0]).Some? {
      ProcessedStops(lines[1..]);
      assert forall i :: 0 < i < |lines| ==> lines[i] == lines[1..][i - 1];
    }
  }

  /** The loop's view of `Processed`: it is reached at the first line
      without exactly one tab. */
  lemma {:induction false} ProcessedStep(lines: seq<string>, i: nat)
    requires i <= Processed(lines) && i < |lines|
    ensures SplitTab(lines[i]).None? <==> i == Processed(lines)
  {
    ProcessedStops(lines);
  }

  /** Whether a line with effect `e` sets the coverage of record `o`. */
  predicate AssignsTo(e: Effect, d: map<string, Fasta>, o: Fasta)
    requires e.Assign? ==> e.name in d
  {
    e.Assign? && d[e.name] == o
  }

  /** The coverage of record `o` after the lines `lines` have been applied to
      dictionary `d`, starting from coverage `start`. Several keys may hold
      the same record; any line assigning to one of them assigns to it. */
  function CoverageAfter(lines: seq<string>, d: map<string, Fasta>, o: Fasta, start: Number,
                         parse: string -> Option<Number>): Number
  {
    if lines == [] then start
    else
      var e := LineEffect(lines[|lines| - 1], d.Keys, parse);
      if AssignsTo(e, d, o) then e.value
      else CoverageAfter(lines[..|lines| - 1], d, o, start, parse)
  }

  /** The 1-based numbers of the lines whose name matches no key, in order. */
  function Diagnostics(lines: seq<string>, keys: set<string>, parse: string -> Option<Number>): seq<nat> {
    if lines == [] then []
    else
      Diagnostics(lines[..|lines| - 1], keys, parse)
        + (if LineEffect(lines[|lines| - 1], keys, parse).Unmatched? then [|lines|] else [])
  }

  /** Every record of `d` holds the coverage `lines` leave it with, from
      the coverage `start` gives it. */
  ghost predicate CoveragesAfter(lines: seq<string>, d: map<string, Fasta>, start: map<Fasta, Number>,
                                 parse: string -> Option<Number>)
    reads d.Values`cov
  {
    forall o :: o in d.Values ==> o in start && o.cov == CoverageAfter(lines, d, o, start[o], parse)
  }

  /** How `read_covfile` ends: returning the dictionary, or raising on the
      line with the given 1-based number. */
  datatype Outcome = Merged(dictionary: map<string, Fasta>) | Aborted(line: nat)

  /** `read_covfile(infile, dictionary)`, reading `lines` from the start of
      the coverage file. The dictionary itself is not changed; records are
      updated in place, and the diagnostics written to stderr are returned
      as line numbers. */
  method ReadCovfile(lines: seq<string>, dictionary: map<string, Fasta>, parse: string -> Option<Number>)
    returns (outcome: Outcome, diagnostics: seq<nat>)
    modifies dictionary.Values`cov
    ensures Processed(lines) == |lines| ==> outcome == Merged(dictionary)
    ensures Processed(lines) < |lines| ==> outcome == Aborted(Processed(lines) + 1)
    ensures diagnostics == Diagnostics(lines[..Processed(lines)], dictionary.Keys, parse)
    ensures forall o :: o in dictionary.Values ==>
              o.cov == CoverageAfter(lines[..Processed(lines)], dictionary, o, old(o.cov), parse)
  {
    // The coverages on entry, so that the loop need not refer to `old`.
    ghost var start := map o | o in dictionary.Values :: o.cov;
    diagnostics := [];
    var i := 0;
    while i < |lines|
      invariant 0 <= i <= |lines|
      invariant i <= Processed(lines)
      invariant diagnostics == Diagnostics(lines[..i], dictionary.Keys, parse)
      invariant CoveragesAfter(lines[..i], dictionary, start, parse)
    {
      ProcessedStep(lines, i);
      if SplitTab(lines[i]).None? {
        return Aborted(i + 1), diagnostics;
      }
      diagnostics := MergeLine(lines, i, dictionary, parse, diagnostics, start);
      i := i + 1;
    }
    assert lines[..i] == lines;
    outcome := Merged(dictionary);
  }

  /** The body of the loop for line `i`, which holds exactly one tab: set
      the coverage of the record the line names, or add the line's number
      to the diagnostics when the name is not a key. */
  method MergeLine(lines: seq<string>, i: nat, dictionary: map<string, Fasta>, parse: string -> Option<Number>,
                   diagnostics: seq<nat>, ghost start: map<Fasta, Number>)
    returns (diagnostics': seq<nat>)
    requires i < |lines| && SplitTab(lines[i]).Some?
    requires diagnostics == Diagnostics(lines[..i], dictionary.Keys, parse)
    requires CoveragesAfter(lines[..i], dictionary, start, parse)
    modifies dictionary.Values`cov
    ensures diagnostics' == Diagnostics(lines[..i + 1], dictionary.Keys, parse)
    ensures CoveragesAfter(lines[..i + 1], dictionary, start, parse)
  {
    UnfoldLast(lines, i, dictionary, parse);
    var (name, cov) := SplitTab(lines[i]).value;
    if name !in dictionary {
      return diagnostics + [i + 1];
    }
    var value := parse(cov);
    if value.Some? {
      dictionary[name].SetCoverage(value.value);
    }
    return diagnostics;
  }

  /** The spec functions on the first `i + 1` lines, in terms of those on
      the first `i`. */
  lemma {:induction false} UnfoldLast(lines: seq<string>, i: nat, d: map<string, Fasta>, parse: string -> Option<Number>)
    requires i < |lines|
    ensures LineEffect(lines[i], d.Keys, parse).Unmatched? ==>
              Diagnostics(lines[..i + 1], d.Keys, parse) == Diagnostics(lines[..i], d.Keys, parse) + [i + 1]
    ensures !LineEffect(lines[i], d.Keys, parse).Unmatched? ==>
              Diagnostics(lines[..i + 1], d.Keys, parse) == Diagnostics(lines[..i], d.Keys, parse)
    ensures var e := LineEffect(lines[i], d.Keys, parse);
            forall o: Fasta, start ::
              CoverageAfter(lines[..i + 1], d, o, start, parse)
              == (if AssignsTo(e, d, o) then e.value else CoverageAfter(lines[..i], d, o, start, parse))
  {
    var p := lines[..i + 1];
    assert p[..|p| - 1] == lines[..i];
    assert p[|p| - 1] == lines[i];
    forall o: Fasta, start
      ensures CoverageAfter(p, d, o, start, parse)
              == (var e := LineEffect(lines[i], d.Keys, parse);
                  if AssignsTo(e, d, o) then e.value else CoverageAfter(lines[..i], d, o, start, parse))
    {
    }
  }

  /** Last write wins: a record ends with the value of the last line that
      assigns to it. */
  lemma {:induction false} CoverageLastAssignment(lines: seq<string>, d: map<string, Fasta>, o: Fasta, start: Number,
                                                  parse: string -> Option<Number>, j: nat)
    requires j < |lines| && AssignsTo(LineEffect(lines[j], d.Keys, parse), d, o)
    requires forall k :: j < k < |lines| ==> !AssignsTo(LineEffect(lines[k], d.Keys, parse), d, o)
    ensures CoverageAfter(lines, d, o, start, parse) == LineEffect(lines[j], d.Keys, parse).value
  {
    var front := lines[..|lines| - 1];
    if j < |lines| - 1 {
      assert front[j] == lines[j];
      forall k | j < k < |front|
        ensures !AssignsTo(LineEffect(front[k], d.Keys, parse), d, o)
      {
        assert front[k] == lines[k];
      }
      CoverageLastAssignment(front, d, o, start, parse, j);
    }
  }

  /** A record that no line assigns to keeps the coverage it had: in
      particular lines whose value does not parse leave it alone. */
  lemma {:induction false} CoverageUntouched(lines: seq<string>, d: map<string, Fasta>, o: Fasta, start: Number,
                                             parse: string -> Option<Number>)
    requires forall k :: 0 <= k < |lines| ==> !AssignsTo(LineEffect(lines[k], d.Keys, parse), d, o)
    ensures CoverageAfter(lines, d, o, start, parse) == start
  {
    if lines != [] {
      var front := lines[..|lines| - 1];
      forall k | 0 <= k < |front|
        ensures !AssignsTo(LineEffect(front[k], d.Keys, parse), d, o)
      {
        assert front[k] == lines[k];
      }
      CoverageUntouched(front, d, o, start, parse);
    }
  }

  /** When the records of the dictionary are distinct, a line assigns to the
      record under `key` exactly when it names `key`. */
  lemma {:induction false} AssignsToKey(e: Effect, d: map<string, Fasta>, key: string)
    requires e.Assign? ==> e.name in d
    requires key in d
    requires forall k, k' :: k in d && k' in d && k != k' ==> d[k] != d[k']
    ensures AssignsTo(e, d, d[key]) <==> e.Assign? && e.name == key
  {
  }

  /** A diagnostic is written for exactly the lines whose name is not a key,
      by 1-based line number. */
  lemma {:induction false} DiagnosticsAreUnmatched(lines: seq<string>, keys: set<string>, parse: string -> Option<Number>)
    ensures forall n :: n in Diagnostics(lines, keys, parse) <==>
              1 <= n <= |lines| && LineEffect(lines[n - 1], keys, parse).Unmatched?
  {
    if lines != [] {
      var front := lines[..|lines| - 1];
      DiagnosticsAreUnmatched(front, keys, parse);
      assert forall k :: 0 <= k < |front| ==> front[k] == lines[k];
    }
  }

  /** The diagnostics come in file order, each line at most once. */
  lemma {:induction false} DiagnosticsIncreasing(lines: seq<string>, keys: set<string>, parse: string -> Option<Number>)
    ensures forall a, b :: 0 <= a < b < |Diagnostics(lines, keys, parse)| ==>
              Diagnostics(lines, keys, parse)[a] < Diagnostics(lines, keys, parse)[b]
    ensures forall n :: n in Diagnostics(lines, keys, parse) ==> n <= |lines|
  {
    if lines != [] {
      var front := lines[..|lines| - 1];
      DiagnosticsIncreasing(front, keys, parse);
      var before := Diagnostics(front, keys, parse);
      assert front == lines[..|lines| - 1];
      var ds := Diagnostics(lines, keys, parse);
      if LineEffect(lines[|lines| - 1], keys, parse).Unmatched? {
        assert ds == before + [|lines|];
        forall a, b | 0 <= a < b < |ds|
          ensures ds[a] < ds[b]
        {
          assert before[a] in before;
        }
      } else {
        assert ds == before;
      }
    }
  }
}
