/** The line structure of a FASTA file, shared by both versions of the
    analyzer: a line that starts with '>' opens a record, every other line
    belongs to the record opened last, and lines before the first '>' line
    belong to none. */
module FastaFormat {
  import opened Text

  /** `line.startswith('>')` */
  predicate IsHeader(line: string) {
    |line| > 0 && line[0] == '>'
  }

  /** A record as the readers collect it: its '>' line, and the lines that
      follow it joined together, line terminators kept. */
  datatype RawRecord = RawRecord(headerLine: string, content: string)

  /** The identifier of a header line, `name[1:].rstrip()`: the line without
      its first character and without trailing whitespace. */
  function Identifier(line: string): (id: string)
    ensures line == [] ==> id == []
    ensures line != [] ==> id <= line[1..]
    ensures line != [] ==> forall i :: 1 + |id| <= i < |line| ==> IsWhitespace(line[i])
    ensures id == [] || !IsWhitespace(id[|id| - 1])
  {
    RStrip(if line == [] then [] else line[1..])
  }

  /** The run of lines that belong to a record: the longest prefix of `ls`
      holding no header line. */
  function Body(ls: seq<string>): (r: seq<string>)
    ensures r <= ls
    ensures forall i :: 0 <= i < |r| ==> !IsHeader(r[i])
    ensures |r| < |ls| ==> IsHeader(ls[|r|])
  {
    if ls == [] || IsHeader(ls[0]) then [] else [ls[0]] + Body(ls[1..])
  }

  /** The records of a file, in file order: one per header line, holding the
      lines up to the next header line or the end of the file. */
  function Parse(lines: seq<string>): seq<RawRecord> {
    if lines == [] then []
    else if IsHeader(lines[0]) then [RawRecord(lines[0], Concat(Body(lines[1..])))] + Parse(lines[1..])
    else Parse(lines[1..])
  }

  /** The header lines of a file, in file order. */
  function HeaderLines(lines: seq<string>): seq<string> {
    if lines == [] then []
    else (if IsHeader(lines[0]) then [lines[0]] else []) + HeaderLines(lines[1..])
  }

  function HeaderLinesOf(rs: seq<RawRecord>): seq<string> {
    if rs == [] then [] else [rs[0].headerLine] + HeaderLinesOf(rs[1..])
  }

  /** `rs` with `line` appended to the content of its last record. */
  function AppendToLast(rs: seq<RawRecord>, line: string): seq<RawRecord>
    requires rs != []
  {
    rs[..|rs| - 1] + [RawRecord(rs[|rs| - 1].headerLine, rs[|rs| - 1].content + line)]
  }

  /** Parsing yields exactly one record per header line, in order, and each
      record starts at its own header line. */
  lemma {:induction false} ParseHeaderLines(lines: seq<string>)
    ensures HeaderLinesOf(Parse(lines)) == HeaderLines(lines)
    ensures |Parse(lines)| == |HeaderLines(lines)|
  {
    if lines != [] {
      ParseHeaderLines(lines[1..]);
      if IsHeader(lines[0]) {
        var rest := Parse(lines[1..]);
        var r := RawRecord(lines[0], Concat(Body(lines[1..])));
        assert ([r] + rest)[1..] == rest;
      }
    }
  }

  /** Every record starts at a header line of the file. */
  lemma {:induction false} RecordsAtHeaders(lines: seq<string>)
    ensures forall j :: 0 <= j < |Parse(lines)| ==>
              Parse(lines)[j].headerLine in lines && IsHeader(Parse(lines)[j].headerLine)
  {
    if lines != [] {
      var tail := lines[1..];
      RecordsAtHeaders(tail);
      var rs, rest := Parse(lines), Parse(tail);
      var shift := if IsHeader(lines[0]) then 1 else 0;
      forall j | 0 <= j < |rs|
        ensures rs[j].headerLine in lines && IsHeader(rs[j].headerLine)
      {
        if j >= shift {
          assert rs[j] == rest[j - shift];
          var i :| 0 <= i < |tail| && tail[i] == rest[j - shift].headerLine;
          assert lines[i + 1] == rs[j].headerLine;
        }
      }
    }
  }

  /** Every header line of the file starts a record. */
  lemma {:induction false} HeaderStartsRecord(lines: seq<string>, i: nat)
    requires i < |lines| && IsHeader(lines[i])
    ensures exists j :: 0 <= j < |Parse(lines)| && Parse(lines)[j].headerLine == lines[i]
  {
    var rs, rest := Parse(lines), Parse(lines[1..]);
    var shift := if IsHeader(lines[0]) then 1 else 0;
    assert rs[shift..] == rest;
    if i == 0 {
      assert rs[0].headerLine == lines[0];
    } else {
      assert lines[1..][i - 1] == lines[i];
      HeaderStartsRecord(lines[1..], i - 1);
      var k :| 0 <= k < |rest| && rest[k].headerLine == lines[i];
      assert rs[k + shift] == rest[k];
    }
  }

  /** A file yields no record exactly when it has no header line. */
  lemma {:induction false} ParseEmpty(lines: seq<string>)
    ensures Parse(lines) == [] <==> forall i :: 0 <= i < |lines| ==> !IsHeader(lines[i])
  {
    if lines != [] {
      ParseEmpty(lines[1..]);
      if !IsHeader(lines[0]) {
        forall i | 0 < i < |lines| && !IsHeader(lines[1..][i - 1])
          ensures !IsHeader(lines[i])
        {
        }
      }
    }
  }

  /** Lines before the first header line are dropped. */
  lemma {:induction false} ParsePreamble(pre: seq<string>, rest: seq<string>)
    requires forall i :: 0 <= i < |pre| ==> !IsHeader(pre[i])
    ensures Parse(pre + rest) == Parse(rest)
  {
    if pre != [] {
      var s := pre + rest;
      assert s[0] == pre[0] && !IsHeader(s[0]);
      assert s[1..] == pre[1..] + rest;
      assert Parse(s) == Parse(s[1..]);
      assert forall i :: 0 <= i < |pre[1..]| ==> pre[1..][i] == pre[i + 1];
      ParsePreamble(pre[1..], rest);
    } else {
      assert pre + rest == rest;
    }
  }

  /** A header line directly followed by another header line opens a record
      with empty content. */
  lemma {:induction false} EmptyRecord(h1: string, h2: string, rest: seq<string>)
    requires IsHeader(h1) && IsHeader(h2)
    ensures Parse([h1, h2] + rest) == [RawRecord(h1, "")] + Parse([h2] + rest)
  {
    assert ([h1, h2] + rest)[1..] == [h2] + rest;
  }

  /** How one more line extends the body of the record being read. */
  lemma {:induction false} BodySnoc(ls: seq<string>, l: string)
    ensures (forall i :: 0 <= i < |ls| ==> !IsHeader(ls[i])) ==>
              Body(ls + [l]) == ls + (if IsHeader(l) then [] else [l])
    ensures (exists i :: 0 <= i < |ls| && IsHeader(ls[i])) ==> Body(ls + [l]) == Body(ls)
  {
    if ls == [] {
      assert [] + [l] == [l];
    } else {
      assert (ls + [l])[0] == ls[0];
      assert (ls + [l])[1..] == ls[1..] + [l];
      BodySnoc(ls[1..], l);
      if !IsHeader(ls[0]) {
        if exists i :: 0 <= i < |ls| && IsHeader(ls[i]) {
          var i :| 0 <= i < |ls| && IsHeader(ls[i]);
          assert IsHeader(ls[1..][i - 1]);
        }
      }
    }
  }

  /** The reading loop's step: a header line opens a new empty record; any
      other line is added to the open record, or dropped when none is open. */
  lemma {:induction false} ParseSnoc(ls: seq<string>, l: string)
    ensures Parse(ls + [l]) == Step(Parse(ls), l)
  {
    if ls == [] {
      assert [] + [l] == [l];
      assert Body([]) == [];
    } else {
      var x, xs := ls[0], ls[1..];
      var s := ls + [l];
      assert s[0] == x;
      assert s[1..] == xs + [l];
      ParseSnoc(xs, l);
      if IsHeader(x) {
        assert Parse(s) == [RawRecord(x, Concat(Body(xs + [l])))] + Parse(xs + [l]);
        assert Parse(ls) == [RawRecord(x, Concat(Body(xs)))] + Parse(xs);
        ParseSnocAfterHeader(x, xs, l);
      } else {
        assert Parse(s) == Parse(xs + [l]);
        assert Parse(ls) == Parse(xs);
      }
    }
  }

  /** The records after reading one more line `l`, given those before. */
  function Step(rs: seq<RawRecord>, l: string): seq<RawRecord> {
    if IsHeader(l) then rs + [RawRecord(l, "")]
    else if rs == [] then []
    else AppendToLast(rs, l)
  }

  lemma {:induction false} ParseSnocAfterHeader(x: string, xs: seq<string>, l: string)
    requires Parse(xs + [l]) == Step(Parse(xs), l)
    ensures [RawRecord(x, Concat(Body(xs + [l])))] + Parse(xs + [l])
         == Step([RawRecord(x, Concat(Body(xs)))] + Parse(xs), l)
  {
    ParseEmpty(xs);
    if forall i :: 0 <= i < |xs| ==> !IsHeader(xs[i]) {
      SnocInOnlyRecord(x, xs, l);
    } else {
      SnocAfterLaterRecord(x, xs, l);
    }
  }

  /** The record opened by `x` is still the last one: `l` joins it, or
      opens the next one. */
  lemma {:induction false} SnocInOnlyRecord(x: string, xs: seq<string>, l: string)
    requires forall i :: 0 <= i < |xs| ==> !IsHeader(xs[i])
    requires Parse(xs) == [] && Parse(xs + [l]) == Step([], l)
    ensures [RawRecord(x, Concat(Body(xs + [l])))] + Parse(xs + [l])
         == Step([RawRecord(x, Concat(Body(xs)))] + Parse(xs), l)
  {
    BodySnoc(xs, l);
    assert Body(xs) == xs;
    if !IsHeader(l) {
      ConcatSnoc(xs, l);
      assert Body(xs + [l]) == xs + [l];
    } else {
      assert Body(xs + [l]) == xs;
    }
  }

  /** A later header line in `xs` has closed the record opened by `x`, so
      `l` only affects the records after it. */
  lemma {:induction false} SnocAfterLaterRecord(x: string, xs: seq<string>, l: string)
    requires exists i :: 0 <= i < |xs| && IsHeader(xs[i])
    requires Parse(xs) != [] && Parse(xs + [l]) == Step(Parse(xs), l)
    ensures [RawRecord(x, Concat(Body(xs + [l])))] + Parse(xs + [l])
         == Step([RawRecord(x, Concat(Body(xs)))] + Parse(xs), l)
  {
    BodySnoc(xs, l);
    var rest := Parse(xs);
    var r := RawRecord(x, Concat(Body(xs)));
    assert [RawRecord(x, Concat(Body(xs + [l])))] + Parse(xs + [l]) == [r] + Step(rest, l);
    if !IsHeader(l) {
      AppendToLastCons(r, rest, l);
    } else {
      assert [r] + (rest + [RawRecord(l, "")]) == ([r] + rest) + [RawRecord(l, "")];
    }
  }

  lemma AppendToLastCons(r: RawRecord, rest: seq<RawRecord>, line: string)
    requires rest != []
    ensures AppendToLast([r] + rest, line) == [r] + AppendToLast(rest, line)
  {
    assert ([r] + rest)[..|rest|] == [r] + rest[..|rest| - 1];
  }

  /** A record as a file holds it: a header line and the lines under it. */
  datatype Block = Block(headerLine: string, lines: seq<string>)

  predicate WellFormed(b: Block) {
    IsHeader(b.headerLine) && forall i :: 0 <= i < |b.lines| ==> !IsHeader(b.lines[i])
  }

  /** The lines of a file that holds `blocks` one after the other. */
  function Unparse(blocks: seq<Block>): seq<string> {
    if blocks == [] then [] else [blocks[0].headerLine] + blocks[0].lines + Unparse(blocks[1..])
  }

  function RecordsOf(blocks: seq<Block>): seq<RawRecord> {
    if blocks == [] then []
    else [RawRecord(blocks[0].headerLine, Concat(blocks[0].lines))] + RecordsOf(blocks[1..])
  }

  /** Writing records out and reading them back gives the same records. */
  lemma {:induction false} ParseUnparse(blocks: seq<Block>)
    requires forall i :: 0 <= i < |blocks| ==> WellFormed(blocks[i])
    ensures Parse(Unparse(blocks)) == RecordsOf(blocks)
  {
    if blocks != [] {
      var b, rest := blocks[0], Unparse(blocks[1..]);
      ParseUnparse(blocks[1..]);
      assert rest == [] || IsHeader(rest[0]);
      BodyPrefix(b.lines, rest);
      ParsePreamble(b.lines, rest);
      assert ([b.headerLine] + b.lines + rest)[1..] == b.lines + rest;
    }
  }

  lemma {:induction false} BodyPrefix(a: seq<string>, b: seq<string>)
    requires forall i :: 0 <= i < |a| ==> !IsHeader(a[i])
    requires b == [] || IsHeader(b[0])
    ensures Body(a + b) == a
  {
    if a == [] {
      assert a + b == b;
    } else {
      assert (a + b)[1..] == a[1..] + b;
      BodyPrefix(a[1..], b);
    }
  }
}
