/** fasta-analyzer.py, the older script: the same FASTA reading loop, but a
    record keeps its header line and sequence as read, counts only capital
    bases, and every record of the file is visited, duplicates included. */
module Legacy {
  import opened Wrappers
  import opened Text
  import opened FastaFormat
  import FastaReader
  import FastaRecord
  import Numbers

  /** Number of capital G and C of a sequence. */
  function UpperGcBases(s: string): nat {
    Count(s, 'G') + Count(s, 'C')
  }

  /** Number of capital G, C, A and T of a sequence. */
  function UpperAcgtBases(s: string): nat {
    Count(s, 'G') + Count(s, 'C') + Count(s, 'A') + Count(s, 'T')
  }

  /** `gccount()`'s value: the fraction of G and C among G, C, A and T, or
      None where the division by a zero total raises ZeroDivisionError. */
  function GcFraction(s: string): (r: Option<real>)
    ensures r.None? <==> 'G' !in s && 'C' !in s && 'A' !in s && 'T' !in s
    ensures r.Some? ==> 0.0 <= r.value <= 1.0
  {
    if UpperAcgtBases(s) == 0 then None
    else
      FractionInUnitInterval(UpperGcBases(s), UpperAcgtBases(s));
      Some(UpperGcBases(s) as real / UpperAcgtBases(s) as real)
  }

  lemma FractionInUnitInterval(g: nat, t: nat)
    requires g <= t && 0 < t
    ensures 0.0 <= g as real / t as real <= 1.0
  {
  }

  /** Without small letters, the newer version's counts of the lower-cased
      text are the older version's counts of capitals. */
  lemma {:induction false} CountsAgree(s: string)
    requires 'a' !in s && 'c' !in s && 'g' !in s && 't' !in s
    ensures FastaRecord.GcBases(Lower(s)) == UpperGcBases(s)
    ensures FastaRecord.AcgtBases(Lower(s)) == UpperAcgtBases(s)
  {
    FastaRecord.BasesOfLowered(s);
  }

  lemma PercentOfFraction(g: nat, t: nat, p: real)
    requires 0 < t
    requires p - 0.05 <= 100.0 * g as real / t as real < p + 0.05
    ensures p - 0.05 <= 100.0 * (g as real / t as real) < p + 0.05
  {
    assert 100.0 * g as real / t as real == 100.0 * (g as real / t as real);
  }

  /** On a text with no small a, c, g or t the two versions agree: the
      newer one fails to a NaN exactly where the older one raises, and
      otherwise reports the older one's fraction as a percentage rounded to
      one decimal. */
  lemma {:induction false} VersionsAgree(s: string)
    requires 'a' !in s && 'c' !in s && 'g' !in s && 't' !in s
    ensures GcFraction(s).None? <==> FastaRecord.GcContent(Lower(s)).NaN?
    ensures GcFraction(s).Some? ==>
              var p := FastaRecord.GcContent(Lower(s)).value;
              p - 0.05 <= 100.0 * GcFraction(s).value < p + 0.05
  {
    CountsAgree(s);
    var g, t := UpperGcBases(s), UpperAcgtBases(s);
    AgreeOnCounts(g, t, FastaRecord.GcContent(Lower(s)), GcFraction(s));
  }

  lemma AgreeOnCounts(g: nat, t: nat, c: Numbers.Number, f: Option<real>)
    requires g <= t
    requires c == if t == 0 then Numbers.NaN else Numbers.Num(FastaRecord.RoundedPercent(g, t))
    requires f == if t == 0 then None else Some(g as real / t as real)
    ensures f.None? <==> c.NaN?
    ensures f.Some? ==> c.value - 0.05 <= 100.0 * f.value < c.value + 0.05
  {
    if t != 0 {
      PercentOfFraction(g, t, c.value);
    }
  }

  /** The length the older `length()` reports counts the line feeds the
      newer one leaves out. */
  lemma {:induction false} LengthCountsNewlines(s: string)
    ensures |s| == FastaRecord.SeqLength(s) + Count(s, '\n')
    ensures |s| == |StripNewlines(s)| + Count(s, '\n')
  {
  }

  /** `class Fasta` of the older script: the header line and the sequence
      are kept exactly as read. */
  class LegacyFasta {
    const name: string
    const sequence: string
    var gc: Option<nat>
    var total: Option<nat>
    var content: Option<real>

    /** `Fasta(name, sequence)`: both stored unchanged; the attributes
        `gccount()` sets do not exist yet. */
    constructor (name: string, sequence: string)
      ensures this.name == name && this.sequence == sequence
      ensures gc == None && total == None && content == None
    {
      this.name := name;
      this.sequence := sequence;
      gc, total, content := None, None, None;
    }

    /** `header()`: the header line without its '>' and trailing whitespace,
        computed anew on each call. */
    function Header(): (h: string)
      ensures h == Identifier(name)
      ensures name != [] ==> h <= name[1..] && (h == [] || !IsWhitespace(h[|h| - 1]))
    {
      Identifier(name)
    }

    /** `length()`: every character, line feeds included. */
    function Length(): (n: nat)
      ensures n == FastaRecord.SeqLength(sequence) + Count(sequence, '\n')
    {
      |sequence|
    }

    /** `gccount()`: caches the two counts, then divides; the division by a
        zero total raises (None) before `content` is set. */
    method GcCount() returns (r: Option<real>)
      modifies this`gc, this`total, this`content
      ensures gc == Some(UpperGcBases(sequence)) && total == Some(UpperAcgtBases(sequence))
      ensures r == GcFraction(sequence)
      ensures content == if r.Some? then r else old(content)
    {
      gc := Some(Count(sequence, 'G') + Count(sequence, 'C'));
      total := Some(Count(sequence, 'G') + Count(sequence, 'C') + Count(sequence, 'A') + Count(sequence, 'T'));
      if total.value == 0 {
        return None;
      }
      content := Some(gc.value as real / total.value as real);
      r := content;
    }
  }

  /** The lengths `length()` appends, one per record in file order. */
  function Lengths(rs: seq<RawRecord>): seq<nat> {
    if rs == [] then [] else Lengths(rs[..|rs| - 1]) + [|rs[|rs| - 1].content|]
  }

  /** One length per record, the record's own, in order. */
  lemma {:induction false} LengthsAt(rs: seq<RawRecord>)
    ensures |Lengths(rs)| == |rs|
    ensures forall j :: 0 <= j < |rs| ==> Lengths(rs)[j] == |rs[j].content|
  {
    if rs != [] {
      LengthsAt(rs[..|rs| - 1]);
    }
  }

  /** `length()` appends one value per header line of the file, so two
      records with the same identifier give two values. */
  lemma {:induction false} LengthPerHeaderLine(lines: seq<string>)
    ensures |Lengths(Parse(lines))| == |HeaderLines(lines)|
  {
    LengthsAt(Parse(lines));
    ParseHeaderLines(lines);
  }

  /** How `gccontent()` ends: after every record, or at the record whose
      division raised. */
  datatype Run = Finished | ZeroDivisionError(record: nat)

  /** The values `gccontent()` appends and how it ends. */
  datatype GcLog = GcLog(values: seq<real>, run: Run)

  function GcRun(rs: seq<RawRecord>): GcLog {
    if rs == [] then GcLog([], Finished)
    else
      var before := GcRun(rs[..|rs| - 1]);
      if before.run.ZeroDivisionError? then before
      else match GcFraction(rs[|rs| - 1].content)
        case None => GcLog(before.values, ZeroDivisionError(|rs| - 1))
        case Some(v) => GcLog(before.values + [v * 100.0], Finished)
  }

  /** `gccontent()` finishes exactly when every record holds a G, C, A or
      T. */
  lemma {:induction false} GcRunFinished(rs: seq<RawRecord>)
    ensures GcRun(rs).run.Finished? <==> forall j :: 0 <= j < |rs| ==> GcFraction(rs[j].content).Some?
  {
    if rs != [] {
      var front := rs[..|rs| - 1];
      GcRunFinished(front);
      if GcRun(rs).run.Finished? {
        forall j | 0 <= j < |rs|
          ensures GcFraction(rs[j].content).Some?
        {
          if j < |front| {
            assert front[j] == rs[j];
          }
        }
      } else if GcRun(front).run.Finished? {
        assert GcFraction(rs[|rs| - 1].content).None?;
      } else {
        var j :| 0 <= j < |front| && GcFraction(front[j].content).None?;
        assert front[j] == rs[j];
      }
    }
  }

  /** Otherwise it raises at a record without any, after appending one
      value for each record before it. */
  lemma {:induction false} GcRunRaised(rs: seq<RawRecord>)
    ensures GcRun(rs).run.ZeroDivisionError? ==>
              && GcRun(rs).run.record < |rs|
              && GcFraction(rs[GcRun(rs).run.record].content).None?
              && |GcRun(rs).values| == GcRun(rs).run.record
  {
    if rs != [] {
      var front := rs[..|rs| - 1];
      GcRunRaised(front);
      if GcRun(front).run.ZeroDivisionError? {
        assert front[GcRun(front).run.record] == rs[GcRun(front).run.record];
      } else {
        GcRunValues(front);
      }
    }
  }

  /** The values `gccontent()` appends are, in order, the GC percentages of
      the first records, each between 0 and 100. */
  lemma {:induction false} GcRunValues(rs: seq<RawRecord>)
    ensures |GcRun(rs).values| <= |rs|
    ensures GcRun(rs).run.Finished? ==> |GcRun(rs).values| == |rs|
    ensures forall j :: 0 <= j < |GcRun(rs).values| ==>
              && GcFraction(rs[j].content).Some?
              && GcRun(rs).values[j] == 100.0 * GcFraction(rs[j].content).value
              && 0.0 <= GcRun(rs).values[j] <= 100.0
  {
    if rs != [] {
      var front := rs[..|rs| - 1];
      GcRunValues(front);
      var before, after := GcRun(front), GcRun(rs);
      forall j | 0 <= j < |after.values|
        ensures GcFraction(rs[j].content).Some?
        ensures after.values[j] == 100.0 * GcFraction(rs[j].content).value
        ensures 0.0 <= after.values[j] <= 100.0
      {
        if j < |before.values| {
          assert front[j] == rs[j];
          assert after.values[j] == before.values[j];
        }
      }
    }
  }

  lemma {:induction false} GcRunSnoc(rs: seq<RawRecord>, j: nat)
    requires j < |rs| && GcRun(rs[..j]).run.Finished?
    ensures GcRun(rs[..j + 1]) == match GcFraction(rs[j].content)
              case None => GcLog(GcRun(rs[..j]).values, ZeroDivisionError(j))
              case Some(v) => GcLog(GcRun(rs[..j]).values + [v * 100.0], Finished)
  {
    assert rs[..j + 1][..j] == rs[..j];
  }

  /** Once a division has raised, later records change nothing. */
  lemma {:induction false} GcRunStops(rs: seq<RawRecord>, k: nat)
    requires k <= |rs| && GcRun(rs[..k]).run.ZeroDivisionError?
    ensures GcRun(rs) == GcRun(rs[..k])
  {
    if k < |rs| {
      var front := rs[..|rs| - 1];
      assert front[..k] == rs[..k];
      GcRunStops(front, k);
    } else {
      assert rs[..k] == rs;
    }
  }

  /** The script's module-level state: the input file and the two global
      lists, both empty at start. */
  class Script {
    const infile: seq<string>
    var lengthlist: seq<nat>
    var gclist: seq<real>

    constructor (infile: seq<string>)
      ensures this.infile == infile && lengthlist == [] && gclist == []
    {
      this.infile := infile;
      lengthlist, gclist := [], [];
    }

    /** `read_file(infile)`: rewinds the script's input file and reads all
        of it; the argument is not used. Yields one (header line, joined
        lines) pair per header line, in file order. */
    method ReadFile(ignored: seq<string>) returns (records: seq<RawRecord>)
      ensures records == Parse(infile)
    {
      var name: Option<string> := None;
      var buffer: seq<string> := [];
      records := [];
      var i := 0;
      while i < |infile|
        invariant 0 <= i <= |infile|
        invariant name.None? ==> records == []
        invariant Parse(infile[..i]) == FastaReader.Open(records, name, buffer)
      {
        var line := infile[i];
        assert infile[..i + 1] == infile[..i] + [line];
        ParseSnoc(infile[..i], line);
        FastaReader.OpenStep(records, name, buffer, line);
        if IsHeader(line) {
          if name.Some? {
            // the generator's `yield (name, ''.join(seq))`
            records := records + [RawRecord(name.value, Concat(buffer))];
          }
          name, buffer := Some(line), [];
        } else {
          buffer := buffer + [line];
        }
        i := i + 1;
      }
      assert infile[..i] == infile;
      if name.Some? {
        records := records + [RawRecord(name.value, Concat(buffer))];
      }
    }

    /** `length()`: appends the length of every record to `lengthlist`. */
    method Length()
      modifies this`lengthlist
      ensures lengthlist == old(lengthlist) + Lengths(Parse(infile))
    {
      var records := ReadFile(infile);
      var j := 0;
      while j < |records|
        invariant 0 <= j <= |records|
        invariant lengthlist == old(lengthlist) + Lengths(records[..j])
      {
        var fs := new LegacyFasta(records[j].headerLine, records[j].content);
        assert records[..j + 1][..j] == records[..j];
        lengthlist := lengthlist + [fs.Length()];
        j := j + 1;
      }
      assert records[..j] == records;
    }

    /** The body of `gccontent()`'s loop up to the append: build the record
        and call its `gccount()`. */
    method Fraction(r: RawRecord) returns (fraction: Option<real>)
      ensures fraction == GcFraction(r.content)
    {
      var fs := new LegacyFasta(r.headerLine, r.content);
      fraction := fs.GcCount();
    }

    /** `gccontent()`: appends the GC percentage of every record to
        `gclist`, until a record's division raises. */
    method GcContent() returns (run: Run)
      modifies this`gclist
      ensures gclist == old(gclist) + GcRun(Parse(infile)).values
      ensures run == GcRun(Parse(infile)).run
    {
      var records := ReadFile(infile);
      var j := 0;
      while j < |records|
        invariant 0 <= j <= |records|
        invariant GcRun(records[..j]).run.Finished?
        invariant gclist == old(gclist) + GcRun(records[..j]).values
      {
        var fraction := Fraction(records[j]);
        GcRunSnoc(records, j);
        if fraction.None? {
          GcRunStops(records, j + 1);
          return ZeroDivisionError(j);
        }
        gclist := gclist + [fraction.value * 100.0];
        j := j + 1;
      }
      assert records[..j] == records;
      run := Finished;
    }
  }
}
