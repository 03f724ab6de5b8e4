/** Character-level string helpers with the semantics of Python 2 byte strings
    in the C locale: case mapping and whitespace are ASCII-only. */
module Text {
  import opened Wrappers

  /** Python's `s.count(c)` for a one-character needle. */
  function Count(s: string, c: char): (n: nat)
    ensures n <= |s|
    ensures n == 0 <==> c !in s
  {
    if s == [] then 0 else (if s[0] == c then 1 else 0) + Count(s[1..], c)
  }

  lemma {:induction false} CountAppend(a: string, b: string, c: char)
    ensures Count(a + b, c) == Count(a, c) + Count(b, c)
  {
    if a == [] {
      assert a + b == b;
    } else {
      assert (a + b)[1..] == a[1..] + b;
      CountAppend(a[1..], b, c);
    }
  }

  predicate IsUpper(c: char) { 'A' <= c <= 'Z' }

  predicate IsLower(c: char) { 'a' <= c <= 'z' }

  function LowerChar(c: char): char {
    if IsUpper(c) then (c as int + 32) as char else c
  }

  function UpperChar(c: char): char {
    if IsLower(c) then (c as int - 32) as char else c
  }

  /** Python 2's `s.lower()`: every ASCII capital letter replaced by its
      small letter, every other character kept. */
  function Lower(s: string): (r: string)
    ensures |r| == |s|
    ensures forall i :: 0 <= i < |s| ==> r[i] == LowerChar(s[i])
  {
    if s == [] then [] else [LowerChar(s[0])] + Lower(s[1..])
  }

  /** Python 2's `s.upper()`. */
  function Upper(s: string): (r: string)
    ensures |r| == |s|
    ensures forall i :: 0 <= i < |s| ==> r[i] == UpperChar(s[i])
  {
    if s == [] then [] else [UpperChar(s[0])] + Upper(s[1..])
  }

  /** Lower-casing merges each small letter with its capital and leaves every
      other character's count alone. */
  lemma {:induction false} CountLower(s: string, c: char)
    requires !IsUpper(c)
    ensures Count(Lower(s), c) == Count(s, c) + (if IsLower(c) then Count(s, UpperChar(c)) else 0)
  {
    if s != [] {
      var t := s[1..];
      assert Lower(s) == [LowerChar(s[0])] + Lower(t);
      assert Count(Lower(s), c) == (if LowerChar(s[0]) == c then 1 else 0) + Count(Lower(t), c);
      LowerCharIs(s[0], c);
      CountLower(t, c);
    }
  }

  lemma LowerCharIs(x: char, c: char)
    requires !IsUpper(c)
    ensures LowerChar(x) == c <==> x == c || (IsLower(c) && x == UpperChar(c))
  {
  }

  /** Lower-casing forgets the original case entirely. */
  lemma {:induction false} LowerOfUpper(s: string)
    ensures Lower(Upper(s)) == Lower(s)
  {
    assert forall i :: 0 <= i < |s| ==> Lower(Upper(s))[i] == Lower(s)[i];
  }

  /** Whitespace as Python 2's `str.isspace` sees it: space, tab, line feed,
      carriage return, vertical tab and form feed. */
  predicate IsWhitespace(c: char) {
    c == ' ' || c == '\t' || c == '\n' || c == '\r' || c == '\U{0B}' || c == '\U{0C}'
  }

  /** Python's `s.rstrip()`: the longest prefix of `s` that does not end in
      whitespace, everything after it being whitespace. */
  function RStrip(s: string): (r: string)
    ensures r <= s
    ensures r == [] || !IsWhitespace(r[|r| - 1])
    ensures forall i :: |r| <= i < |s| ==> IsWhitespace(s[i])
  {
    if s != [] && IsWhitespace(s[|s| - 1]) then RStrip(s[..|s| - 1]) else s
  }

  /** Python's `''.join(ls)`. */
  function Concat(ls: seq<string>): string {
    if ls == [] then [] else ls[0] + Concat(ls[1..])
  }

  lemma {:induction false} ConcatSnoc(ls: seq<string>, l: string)
    ensures Concat(ls + [l]) == Concat(ls) + l
  {
    if ls == [] {
      assert [] + [l] == [l];
    } else {
      assert (ls + [l])[1..] == ls[1..] + [l];
      ConcatSnoc(ls[1..], l);
    }
  }

  /** The characters of `s` other than line feeds, in order. */
  function StripNewlines(s: string): (r: string)
    ensures '\n' !in r
    ensures |r| + Count(s, '\n') == |s|
  {
    if s == [] then [] else (if s[0] == '\n' then [] else [s[0]]) + StripNewlines(s[1..])
  }

  /** Removing line feeds keeps the count of every other character. */
  lemma {:induction false} CountStripNewlines(s: string, c: char)
    requires c != '\n'
    ensures Count(StripNewlines(s), c) == Count(s, c)
  {
    if s != [] {
      CountAppend(if s[0] == '\n' then [] else [s[0]], StripNewlines(s[1..]), c);
      CountStripNewlines(s[1..], c);
    }
  }

  /** Python's `name, value = s.split('\t')`: succeeds exactly when `s` holds
      one tab, and yields the text before and after it; with no tab or with
      several the unpacking raises. */
  function SplitTab(s: string): (r: Option<(string, string)>)
    ensures r.Some? <==> Count(s, '\t') == 1
    ensures r.Some? ==> s == r.value.0 + "\t" + r.value.1
    ensures r.Some? ==> '\t' !in r.value.0 && '\t' !in r.value.1
  {
    if s == [] then None
    else if s[0] == '\t' then
      (if '\t' in s[1..] then None else Some(([], s[1..])))
    else
      match SplitTab(s[1..])
      case None => None
      case Some(p) => Some(([s[0]] + p.0, p.1))
  }
}
