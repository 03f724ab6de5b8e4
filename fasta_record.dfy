/** One contig of fasta_analyzer.py: the class `Fasta` and the statistics it
    derives from its sequence. */
module FastaRecord {
  import opened Wrappers
  import opened Text
  import opened Numbers
  import FastaFormat

  /** `len(seq) - seq.count('\n')` */
  function SeqLength(s: string): nat {
    |s| - Count(s, '\n')
  }

  /** Number of G and C bases of a lower-cased sequence. */
  function GcBases(s: string): nat {
    Count(s, 'g') + Count(s, 'c')
  }

  /** Number of G, C, A and T bases of a lower-cased sequence. */
  function AcgtBases(s: string): nat {
    Count(s, 'g') + Count(s, 'c') + Count(s, 'a') + Count(s, 't')
  }

  /** `round((float(gc) / total) * 100, 1)` on exact arithmetic: the
      percentage rounded to the nearest tenth, halves upwards. */
  function RoundedPercent(gc: nat, total: nat): (p: real)
    requires 0 < total && gc <= total
    ensures 0.0 <= p <= 100.0
    ensures p - 0.05 <= 100.0 * gc as real / total as real < p + 0.05
    ensures (10.0 * p).Floor as real == 10.0 * p
  {
    var tenths := (2000 * gc + total) / (2 * total);
    RoundingBounds(gc, total, tenths);
    tenths as real / 10.0
  }

  lemma RoundingBounds(gc: nat, total: nat, tenths: int)
    requires 0 < total && gc <= total
    requires tenths == (2000 * gc + total) / (2 * total)
    ensures 0 <= tenths <= 1000
    ensures tenths as real / 10.0 - 0.05 <= 100.0 * gc as real / total as real < tenths as real / 10.0 + 0.05
  {
    var n, d := 2000 * gc + total, 2 * total;
    assert d * tenths <= n < d * tenths + d;
    QuotientBelow(n, d, 1001);
    // The same two bounds in reals.
    IntToRealMul(2 * tenths - 1, total);
    IntToRealMul(2 * tenths + 1, total);
    RealBounds(tenths as real, gc as real, total as real);
  }

  lemma RealBounds(t: real, g: real, tot: real)
    requires 0.0 < tot
    requires (2.0 * t - 1.0) * tot <= 2000.0 * g < (2.0 * t + 1.0) * tot
    ensures t / 10.0 - 0.05 <= 100.0 * g / tot < t / 10.0 + 0.05
  {
    var x := 100.0 * g / tot;
    assert 2000.0 * g == (20.0 * x) * tot;
    ScaleBack(2.0 * t - 1.0, 20.0 * x, tot);
    ScaleBackStrict(20.0 * x, 2.0 * t + 1.0, tot);
  }

  lemma QuotientBelow(n: nat, d: nat, k: nat)
    requires 0 < d && n < d * k
    ensures n / d < k
  {
  }

  lemma IntToRealMul(a: int, b: int)
    ensures (a * b) as real == a as real * b as real
  {
  }

  lemma ScaleBack(a: real, b: real, c: real)
    requires c > 0.0 && a * c <= b * c
    ensures a <= b
  {
  }

  lemma ScaleBackStrict(a: real, b: real, c: real)
    requires c > 0.0 && a * c < b * c
    ensures a < b
  {
  }

  /** `gccount()`'s result for a lower-cased sequence: NaN when it holds no
      a, c, g or t; otherwise the rounded percentage of g and c among them. */
  function GcContent(s: string): (r: Number)
    ensures r.NaN? <==> 'a' !in s && 'c' !in s && 'g' !in s && 't' !in s
    ensures r.Num? ==> 0.0 <= r.value <= 100.0
    ensures r.Num? ==> r.value - 0.05 <= 100.0 * GcBases(s) as real / AcgtBases(s) as real < r.value + 0.05
    ensures r.Num? ==> (10.0 * r.value).Floor as real == 10.0 * r.value
  {
    if AcgtBases(s) == 0 then NaN else Num(RoundedPercent(GcBases(s), AcgtBases(s)))
  }

  /** A record stores its sequence lower-cased, so its base counts include
      both cases of each letter of the text it was built from. */
  lemma {:induction false} BasesOfLowered(s: string)
    ensures GcBases(Lower(s)) == Count(s, 'g') + Count(s, 'G') + Count(s, 'c') + Count(s, 'C')
    ensures AcgtBases(Lower(s)) == GcBases(Lower(s)) + Count(s, 'a') + Count(s, 'A') + Count(s, 't') + Count(s, 'T')
  {
    CountLower(s, 'g');
    CountLower(s, 'c');
    CountLower(s, 'a');
    CountLower(s, 't');
  }

  /** Statistics do not depend on the letter case of the input: a record
      built from the upper-cased text has the same sequence. */
  lemma {:induction false} StatisticsIgnoreCase(s: string)
    ensures Lower(Upper(s)) == Lower(s)
    ensures GcContent(Lower(Upper(s))) == GcContent(Lower(s))
    ensures SeqLength(Lower(s)) == SeqLength(s)
  {
    LowerOfUpper(s);
    CountLower(s, '\n');
  }

  /** `length()` is zero exactly when the sequence is empty or only line
      feeds. */
  lemma {:induction false} LengthZero(s: string)
    ensures SeqLength(s) == 0 <==> forall i :: 0 <= i < |s| ==> s[i] == '\n'
  {
    if s != [] {
      LengthZero(s[1..]);
      assert SeqLength(s) == SeqLength(s[1..]) + (if s[0] == '\n' then 0 else 1);
      if forall i :: 0 <= i < |s[1..]| ==> s[1..][i] == '\n' {
        assert forall i :: 1 <= i < |s| ==> s[i] == s[1..][i - 1];
      }
    }
  }

  /** `ncontent()` never exceeds `length()`: every counted 'n' is a
      character other than a line feed. */
  lemma {:induction false} NCountAtMostLength(s: string)
    ensures Count(s, 'n') <= SeqLength(s)
  {
    CountStripNewlines(s, 'n');
  }

  /** A worked example: "gca" has 3 bases, 2 of them g or c, so its GC
      content is 2/3 = 66.66...% rounded to 66.7. */
  lemma Gca()
    ensures SeqLength("gca") == 3
    ensures GcContent("gca") == Num(66.7)
  {
    var s := "gca";
    assert s[1..] == "ca" && s[2..] == "a" && s[3..] == "";
    assert s[1..][1..] == s[2..] && s[2..][1..] == s[3..];
    assert Count(s, '\n') == 0;
    assert AcgtBases(s) == 3 && GcBases(s) == 2;
    assert (2000 * 2 + 3) / (2 * 3) == 667;
  }

  /** `class Fasta`: one contig. Its fields `name` and `sequence` are what
      `header()` and `sequence()` return. The header and sequence never change once
      built; the coverage is set later from the coverage file, and
      `gccount()` caches what it computes in `gc`, `total` and `content`,
      which do not exist before its first call. */
  class Fasta {
    const name: string
    const sequence: string
    var cov: Number
    var gc: Option<nat>
    var total: Option<nat>
    var content: Option<Number>

    /** `Fasta(name, sequence)`: the identifier is the header line without its
        first character and trailing whitespace, the sequence is lower-cased,
        and the coverage is NaN. */
    constructor (header: string, text: string)
      ensures name == FastaFormat.Identifier(header) && sequence == Lower(text)
      ensures cov == NaN && gc == None && total == None && content == None
    {
      name := FastaFormat.Identifier(header);
      sequence := Lower(text);
      cov := NaN;
      gc, total, content := None, None, None;
    }

    /** `length()`: the number of characters of the sequence that are not
        line feeds. */
    function Length(): (n: nat)
      ensures n == |StripNewlines(sequence)|
      ensures n <= |sequence|
    {
      SeqLength(sequence)
    }

    /** `ncontent()`: the number of 'n' in the sequence, never more than
        `length()`. */
    function NContent(): (n: nat)
      ensures n == Count(sequence, 'n')
      ensures n <= Length()
    {
      NCountAtMostLength(sequence);
      Count(sequence, 'n')
    }

    /** `gccount()`: returns the GC content and caches it with the two counts
        it is made of. */
    method GcCount() returns (c: Number)
      modifies this`gc, this`total, this`content
      ensures gc == Some(GcBases(sequence)) && total == Some(AcgtBases(sequence))
      ensures content == Some(c) && c == GcContent(sequence)
    {
      gc := Some(Count(sequence, 'g') + Count(sequence, 'c'));
      total := Some(Count(sequence, 'g') + Count(sequence, 'c') + Count(sequence, 'a') + Count(sequence, 't'));
      if total.value == 0 {
        content := Some(NaN);
      } else {
        content := Some(Num(RoundedPercent(gc.value, total.value)));
      }
      c := content.value;
    }

    /** `getcoverage()` */
    function Coverage(): Number
      reads this`cov
    {
      cov
    }

    /** `setcoverage(cov)` */
    method SetCoverage(c: Number)
      modifies this`cov
      ensures cov == c
    {
      cov := c;
    }
  }
}
