/** `read_file` of fasta_analyzer.py: one pass over the lines of a FASTA file
    that builds a dictionary from identifier to record. */
module FastaReader {
  import opened Wrappers
  import opened Text
  import opened Numbers
  import opened FastaFormat
  import opened FastaRecord

  /** The dictionary's contents after `dictionary.update({header: record})`
      for each record in turn: identifier to raw content, a later record
      replacing an earlier one with the same identifier. */
  function Index(rs: seq<RawRecord>): map<string, string> {
    if rs == [] then map[]
    else
      var last := rs[|rs| - 1];
      Index(rs[..|rs| - 1])[Identifier(last.headerLine) := last.content]
  }

  lemma {:induction false} IndexSnoc(rs: seq<RawRecord>, r: RawRecord)
    ensures Index(rs + [r]) == Index(rs)[Identifier(r.headerLine) := r.content]
  {
    assert (rs + [r])[..|rs|] == rs;
  }

  /** An identifier is a key exactly when some record carries it. */
  lemma {:induction false} IndexKeys(rs: seq<RawRecord>, k: string)
    ensures k in Index(rs) <==> exists i :: 0 <= i < |rs| && Identifier(rs[i].headerLine) == k
  {
    if rs != [] {
      var front := rs[..|rs| - 1];
      IndexKeys(front, k);
      if exists i :: 0 <= i < |rs| && Identifier(rs[i].headerLine) == k {
        var i :| 0 <= i < |rs| && Identifier(rs[i].headerLine) == k;
        if i < |rs| - 1 {
          assert Identifier(front[i].headerLine) == k;
        }
      }
      if exists i :: 0 <= i < |front| && Identifier(front[i].headerLine) == k {
        var i :| 0 <= i < |front| && Identifier(front[i].headerLine) == k;
        assert Identifier(rs[i].headerLine) == k;
      }
    }
  }

  /** Last write wins: a key holds the content of the last record that
      carries it. */
  lemma {:induction false} IndexLastWins(rs: seq<RawRecord>, i: nat)
    requires i < |rs|
    requires forall j :: i < j < |rs| ==> Identifier(rs[j].headerLine) != Identifier(rs[i].headerLine)
    ensures Identifier(rs[i].headerLine) in Index(rs)
    ensures Index(rs)[Identifier(rs[i].headerLine)] == rs[i].content
  {
    if i < |rs| - 1 {
      var front := rs[..|rs| - 1];
      assert front[i] == rs[i];
      IndexLastWins(front, i);
    }
  }

  /** The keys `read_file` produces are exactly the identifiers of the
      file's header lines. */
  lemma {:induction false} CorpusKeys(lines: seq<string>, k: string)
    ensures k in Index(Parse(lines)) <==>
            exists i :: 0 <= i < |lines| && IsHeader(lines[i]) && Identifier(lines[i]) == k
  {
    var rs := Parse(lines);
    IndexKeys(rs, k);
    if k in Index(rs) {
      RecordsAtHeaders(lines);
      var j :| 0 <= j < |rs| && Identifier(rs[j].headerLine) == k;
      var i :| 0 <= i < |lines| && lines[i] == rs[j].headerLine;
      assert IsHeader(lines[i]) && Identifier(lines[i]) == k;
    }
    if exists i :: 0 <= i < |lines| && IsHeader(lines[i]) && Identifier(lines[i]) == k {
      var i :| 0 <= i < |lines| && IsHeader(lines[i]) && Identifier(lines[i]) == k;
      HeaderStartsRecord(lines, i);
      var j :| 0 <= j < |rs| && rs[j].headerLine == lines[i];
      assert Identifier(rs[j].headerLine) == k;
    }
  }

  /** A file without a header line gives an empty dictionary. */
  lemma {:induction false} NoHeaderNoRecords(lines: seq<string>)
    requires forall i :: 0 <= i < |lines| ==> !IsHeader(lines[i])
    ensures Index(Parse(lines)) == map[]
  {
    ParseEmpty(lines);
  }

  /** The records of a dictionary are distinct objects. */
  ghost predicate Distinct(d: map<string, Fasta>) {
    forall k, k' :: k in d && k' in d && k != k' ==> d[k] != d[k']
  }

  /** The records read so far: those already stored, and the one being
      read when a header line has been seen. */
  function Open(flushed: seq<RawRecord>, name: Option<string>, buffer: seq<string>): seq<RawRecord> {
    flushed + (if name.Some? then [RawRecord(name.value, Concat(buffer))] else [])
  }

  /** What the dictionary holds once the records `flushed` are stored: one
      fresh record per identifier, built from the last record with it. */
  ghost predicate Loaded(d: map<string, Fasta>, flushed: seq<RawRecord>)
    reads d.Values`cov, d.Values`gc, d.Values`total, d.Values`content
  {
    && d.Keys == Index(flushed).Keys
    && (forall k :: k in d ==> d[k].name == k && d[k].sequence == Lower(Index(flushed)[k]))
    && (forall k :: k in d ==> d[k].cov == NaN && d[k].gc == None && d[k].total == None && d[k].content == None)
    && Distinct(d)
  }

  /** `read_file(infile)`, reading `lines` from the start of the file. */
  method ReadFile(lines: seq<string>) returns (dictionary: map<string, Fasta>)
    ensures dictionary.Keys == Index(Parse(lines)).Keys
    ensures forall k :: k in dictionary ==>
              && fresh(dictionary[k])
              && dictionary[k].name == k
              && dictionary[k].sequence == Lower(Index(Parse(lines))[k])
              && dictionary[k].cov == NaN
              && dictionary[k].gc == None
              && dictionary[k].total == None
              && dictionary[k].content == None
    ensures Distinct(dictionary)
  {
    dictionary := map[];
    // `name` is None until the first header line; after it, the header
    // line of the record being read, never empty, so Python's `if name:`
    // is `name.Some?`.
    var name: Option<string> := None;
    var buffer: seq<string> := [];
    ghost var flushed: seq<RawRecord> := [];
    var i := 0;
    while i < |lines|
      invariant 0 <= i <= |lines|
      invariant name.None? ==> flushed == []
      invariant Parse(lines[..i]) == Open(flushed, name, buffer)
      invariant Loaded(dictionary, flushed)
      invariant forall k :: k in dictionary ==> fresh(dictionary[k])
    {
      dictionary, name, buffer, flushed := ReadLine(lines, i, dictionary, name, buffer, flushed);
      i := i + 1;
    }
    assert lines[..i] == lines;
    if name.Some? {
      dictionary, flushed := Store(dictionary, flushed, name.value, buffer);
    }
  }

  /** One turn of the loop: a header line stores the record being read, if
      any, and opens a new one; any other line joins the buffer. */
  method ReadLine(lines: seq<string>, i: nat, d: map<string, Fasta>, name: Option<string>, buffer: seq<string>,
                  ghost flushed: seq<RawRecord>)
    returns (d': map<string, Fasta>, name': Option<string>, buffer': seq<string>, ghost flushed': seq<RawRecord>)
    requires i < |lines|
    requires name.None? ==> flushed == []
    requires Parse(lines[..i]) == Open(flushed, name, buffer)
    requires Loaded(d, flushed)
    ensures name'.None? ==> flushed' == []
    ensures Parse(lines[..i + 1]) == Open(flushed', name', buffer')
    ensures Loaded(d', flushed')
    ensures forall k :: k in d' ==> (k in d && d'[k] == d[k]) || fresh(d'[k])
  {
    var line := lines[i];
    assert lines[..i + 1] == lines[..i] + [line];
    ParseSnoc(lines[..i], line);
    OpenStep(flushed, name, buffer, line);
    d', flushed' := d, flushed;
    if IsHeader(line) {
      if name.Some? {
        d', flushed' := Store(d, flushed, name.value, buffer);
      }
      name', buffer' := Some(line), [];
    } else {
      name', buffer' := name, buffer + [line];
    }
  }

  /** How the loop's state follows the records read: a header line closes
      the open record and opens an empty one, any other line extends the
      buffer. */
  lemma {:induction false} OpenStep(flushed: seq<RawRecord>, name: Option<string>, buffer: seq<string>, line: string)
    requires name.None? ==> flushed == []
    ensures IsHeader(line) ==>
              Step(Open(flushed, name, buffer), line) == Open(Open(flushed, name, buffer), Some(line), [])
    ensures !IsHeader(line) ==>
              Step(Open(flushed, name, buffer), line) == Open(flushed, name, buffer + [line])
  {
    var before := Open(flushed, name, buffer);
    if IsHeader(line) {
      assert Open(before, Some(line), []) == before + [RawRecord(line, "")];
    } else {
      ConcatSnoc(buffer, line);
      if name.Some? {
        assert Open(flushed, name, buffer + [line]) == AppendToLast(before, line);
      }
    }
  }

  /** The flush step of the loop: build a record from the buffered header
      line and content lines and put it in the dictionary under its
      identifier. */
  method Store(d: map<string, Fasta>, ghost flushed: seq<RawRecord>, name: string, buffer: seq<string>)
    returns (d': map<string, Fasta>, ghost flushed': seq<RawRecord>)
    requires Loaded(d, flushed)
    ensures flushed' == flushed + [RawRecord(name, Concat(buffer))]
    ensures Loaded(d', flushed')
    ensures forall k :: k in d' ==> (k in d && d'[k] == d[k]) || fresh(d'[k])
    ensures forall k :: k in d && k != Identifier(name) ==> k in d' && d'[k] == d[k]
  {
    var fs := new Fasta(name, Concat(buffer));
    d' := d[fs.name := fs];
    flushed' := flushed + [RawRecord(name, Concat(buffer))];
    IndexSnoc(flushed, RawRecord(name, Concat(buffer)));
  }
}
