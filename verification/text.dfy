/**
 * String helpers the file readers rely on: `split` on a delimiter with
 * `std::getline` semantics, the `starts_with` prefix test, and decimal
 * conversion in both directions (`std::to_string` for naturals and the
 * leading-number parse of `std::stoi`).
 */
module Text {
  import opened Wrappers
  import opened Sequences

  /**
   * `split`: the fields between delimiters, in order. As with repeated
   * `getline`, an empty string has no fields and a delimiter at the very
   * end does not start a further, empty field.
   */
  function Split(s: string, delim: char): (r: seq<string>)
    ensures forall i :: 0 <= i < |r| ==> delim !in r[i]
    ensures |s| == 0 <==> |r| == 0
    decreases |s|
  {
    if |s| == 0 then []
    else
      var k := Find(s, delim);
      if k == |s| then [s] else [s[..k]] + Split(s[k + 1..], delim)
  }

  /** The fields written back with the delimiter after every field but the last. */
  function Join(fields: seq<string>, delim: char): string
  {
    if |fields| == 0 then []
    else if |fields| == 1 then fields[0]
    else fields[0] + [delim] + Join(fields[1..], delim)
  }

  /** Splitting loses nothing but a final delimiter: joining the fields gives the line back. */
  lemma {:induction false} JoinSplit(s: string, delim: char)
    requires |s| == 0 || s[|s| - 1] != delim
    ensures Join(Split(s, delim), delim) == s
    decreases |s|
  {
    if |s| > 0 {
      var k := Find(s, delim);
      if k < |s| {
        var a, rest := s[..k], s[k + 1..];
        assert |rest| > 0 && rest[|rest| - 1] == s[|s| - 1];
        JoinSplit(rest, delim);
        assert s == a + [delim] + rest;
        JoinSplitStep(a, rest, delim);
      } else {
        SplitWhole(s, delim);
      }
    }
  }

  lemma JoinSplitStep(a: string, rest: string, delim: char)
    requires delim !in a && |rest| > 0 && Join(Split(rest, delim), delim) == rest
    ensures Join(Split(a + [delim] + rest, delim), delim) == a + [delim] + rest
  {
    calc {
      Join(Split(a + [delim] + rest, delim), delim);
      { SplitCons(a, rest, delim); }
      Join([a] + Split(rest, delim), delim);
      { JoinCons(a, Split(rest, delim), delim); }
      a + [delim] + Join(Split(rest, delim), delim);
    }
  }

  /** Joining a field in front of at least one more puts a delimiter between them. */
  lemma JoinCons(a: string, fields: seq<string>, delim: char)
    requires |fields| > 0
    ensures Join([a] + fields, delim) == a + [delim] + Join(fields, delim)
  {
    assert ([a] + fields)[1..] == fields;
  }

  /** Fields that are non-empty and free of the delimiter split back out of their join. */
  lemma {:induction false} SplitJoin(fields: seq<string>, delim: char)
    requires forall i :: 0 <= i < |fields| ==> |fields[i]| > 0 && delim !in fields[i]
    ensures Split(Join(fields, delim), delim) == fields
    decreases |fields|
  {
    if |fields| == 1 {
      SplitWhole(fields[0], delim);
    } else if |fields| > 1 {
      SplitJoin(fields[1..], delim);
      SplitCons(fields[0], Join(fields[1..], delim), delim);
      assert fields == [fields[0]] + fields[1..];
    }
  }

  /** A join begins with its first field. */
  lemma JoinStartsWith(fields: seq<string>, delim: char)
    requires |fields| > 0
    ensures StartsWith(Join(fields, delim), fields[0])
  {
    if |fields| > 1 {
      assert Join(fields, delim) == fields[0] + ([delim] + Join(fields[1..], delim));
    }
  }

  /** A delimiter-free line is one field. */
  lemma SplitWhole(s: string, delim: char)
    requires |s| > 0 && delim !in s
    ensures Split(s, delim) == [s]
  {
  }

  /** A delimiter at the end of a line adds no field, unless the line is only that delimiter. */
  lemma {:induction false} SplitTrailing(s: string, delim: char)
    requires |s| == 0 || s[|s| - 1] != delim
    ensures Split(s + [delim], delim) == (if |s| == 0 then [[]] else Split(s, delim))
    decreases |s|
  {
    if |s| == 0 {
      SplitCons([], [], delim);
      assert s + [delim] == [] + [delim] + [];
    } else if Find(s, delim) < |s| {
      var k := Find(s, delim);
      var a, rest := s[..k], s[k + 1..];
      assert s == a + [delim] + rest;
      SplitTrailing(rest, delim);
      SplitTrailingStep(a, rest, delim);
    } else {
      SplitTrailingLast(s, delim);
    }
  }

  lemma SplitTrailingStep(a: string, rest: string, delim: char)
    requires delim !in a && |rest| > 0
    requires Split(rest + [delim], delim) == Split(rest, delim)
    ensures Split(a + [delim] + rest + [delim], delim) == Split(a + [delim] + rest, delim)
  {
    assert a + [delim] + rest + [delim] == a + [delim] + (rest + [delim]);
    SplitCons(a, rest, delim);
    SplitCons(a, rest + [delim], delim);
  }

  lemma SplitTrailingLast(s: string, delim: char)
    requires 0 < |s| && Find(s, delim) == |s|
    ensures Split(s + [delim], delim) == Split(s, delim)
  {
    SplitCons(s, [], delim);
    assert s + [delim] == s + [delim] + [];
  }

  /** A field followed by a delimiter comes off the front of a line. */
  lemma SplitCons(a: string, rest: string, delim: char)
    requires delim !in a
    ensures Split(a + [delim] + rest, delim) == [a] + Split(rest, delim)
  {
    var s := a + [delim] + rest;
    assert Find(s, delim) == |a| by {
      assert s[|a|] == delim;
      assert forall i :: 0 <= i < |a| ==> s[i] == a[i];
    }
    assert s[..|a|] == a && s[|a| + 1..] == rest;
  }

  /**
   * The fields `std::getline` yields while the stream stays good: unlike
   * `Split`, an empty line is one empty field and a delimiter at the end
   * starts a last, empty field, so there is always one field more than
   * there are delimiters.
   */
  function Pieces(s: string, delim: char): (r: seq<string>)
    ensures |r| > 0
    ensures forall i :: 0 <= i < |r| ==> delim !in r[i]
    decreases |s|
  {
    var k := Find(s, delim);
    if k == |s| then [s] else [s[..k]] + Pieces(s[k + 1..], delim)
  }

  /** Nothing is lost: joining the fields gives the line back, whatever it is. */
  lemma {:induction false} JoinPieces(s: string, delim: char)
    ensures Join(Pieces(s, delim), delim) == s
    decreases |s|
  {
    var k := Find(s, delim);
    if k < |s| {
      var a, rest := s[..k], s[k + 1..];
      JoinPieces(rest, delim);
      JoinCons(a, Pieces(rest, delim), delim);
      assert s == a + [delim] + rest;
    }
  }

  /** `starts_with`: `prefix` begins `line` (an `rfind` anchored at 0). */
  predicate StartsWith(line: string, prefix: string)
  {
    |prefix| <= |line| && line[..|prefix|] == prefix
  }

  predicate IsDigit(c: char)
  {
    '0' <= c <= '9'
  }

  function DigitValue(c: char): (d: nat)
    requires IsDigit(c)
    ensures d < 10
  {
    (c as int) - ('0' as int)
  }

  function DigitChar(d: nat): (c: char)
    requires d < 10
    ensures IsDigit(c) && DigitValue(c) == d
  {
    ((d + '0' as int) as char)
  }

  /** `std::to_string` of a natural: its decimal digits, most significant first, no leading zeros. */
  function NatToString(n: nat): (s: string)
    ensures |s| > 0
    ensures forall i :: 0 <= i < |s| ==> IsDigit(s[i])
    ensures |s| > 1 ==> s[0] != '0'
  {
    if n < 10 then [DigitChar(n)] else NatToString(n / 10) + [DigitChar(n % 10)]
  }

  /** The value of a run of decimal digits. */
  function DigitsValue(s: string): nat
    requires forall i :: 0 <= i < |s| ==> IsDigit(s[i])
  {
    if |s| == 0 then 0 else DigitsValue(s[..|s| - 1]) * 10 + DigitValue(s[|s| - 1])
  }

  lemma {:induction false} DigitsOfNat(n: nat)
    ensures DigitsValue(NatToString(n)) == n
  {
    var s := NatToString(n);
    if n >= 10 {
      DigitsOfNat(n / 10);
      assert s[..|s| - 1] == NatToString(n / 10);
    }
  }

  /** The length of the leading run of digits. */
  function DigitRun(s: string): (k: nat)
    ensures k <= |s|
    ensures forall i :: 0 <= i < k ==> IsDigit(s[i])
    ensures k < |s| ==> !IsDigit(s[k])
  {
    if |s| == 0 || !IsDigit(s[0]) then 0 else 1 + DigitRun(s[1..])
  }

  datatype ParseError = InvalidArgument | OutOfRange

  const IntMax: int := 0x7fff_ffff

  /** The characters C's `isspace` accepts: blank, tab, newline, vertical tab, form feed and carriage return. */
  predicate IsSpace(c: char)
  {
    c == ' ' || 9 <= c as int <= 13
  }

  /** The length of the leading run of white space. */
  function SpaceRun(s: string): (k: nat)
    ensures k <= |s|
    ensures forall i :: 0 <= i < k ==> IsSpace(s[i])
    ensures k < |s| ==> !IsSpace(s[k])
  {
    if |s| == 0 || !IsSpace(s[0]) then 0 else 1 + SpaceRun(s[1..])
  }

  /**
   * `std::stoi` on a token: leading white space is skipped, then an
   * optional sign and the leading run of digits are read; whatever
   * follows is ignored. No digits is an invalid argument, a value beyond
   * the 32-bit `int` range is out of range.
   */
  function Stoi(s: string): (r: Result<int, ParseError>)
    ensures r.Failure? && r.error == InvalidArgument <==>
              var t := s[SpaceRun(s)..];
              var start := if |t| > 0 && (t[0] == '-' || t[0] == '+') then 1 else 0;
              DigitRun(t[start..]) == 0
    ensures r.Success? ==> -IntMax - 1 <= r.value <= IntMax
  {
    SignedPrefix(s[SpaceRun(s)..])
  }

  /** The part of `stoi` after the white space: a sign and the digits. */
  function SignedPrefix(t: string): (r: Result<int, ParseError>)
    ensures r.Failure? && r.error == InvalidArgument <==>
              var start := if |t| > 0 && (t[0] == '-' || t[0] == '+') then 1 else 0;
              DigitRun(t[start..]) == 0
    ensures r.Success? ==> -IntMax - 1 <= r.value <= IntMax
  {
    var start := if |t| > 0 && (t[0] == '-' || t[0] == '+') then 1 else 0;
    var body := t[start..];
    var k := DigitRun(body);
    if k == 0 then Failure(InvalidArgument)
    else
      var v: int := DigitsValue(body[..k]);
      var signed := if start == 1 && t[0] == '-' then -v else v;
      if signed < -IntMax - 1 || signed > IntMax then Failure(OutOfRange) else Success(signed)
  }

  /** `stoi` reads back what `to_string` writes, for every value an `int` holds. */
  lemma StoiOfNatToString(n: nat)
    requires n <= IntMax
    ensures Stoi(NatToString(n)) == Success(n)
  {
    var s := NatToString(n);
    assert SpaceRun(s) == 0 by {
      AllDigitsRun(s);
    }
    AllDigitsRun(s);
    assert s[0..] == s && s[..|s|] == s;
    DigitsOfNat(n);
  }

  /** White space before a token changes nothing `stoi` reads. */
  lemma {:induction false} StoiSkipsSpace(w: string, s: string)
    requires forall i :: 0 <= i < |w| ==> IsSpace(w[i])
    ensures Stoi(w + s) == Stoi(s)
  {
    SkipSpaceAfter(w, s);
  }

  /** Skipping the white space of `w + s` leaves what skipping it in `s` leaves. */
  lemma SkipSpaceAfter(w: string, s: string)
    requires forall i :: 0 <= i < |w| ==> IsSpace(w[i])
    ensures (w + s)[SpaceRun(w + s)..] == s[SpaceRun(s)..]
  {
    SpaceRunAfter(w, s);
    DropAfter(w, s, SpaceRun(s));
  }

  lemma DropAfter(w: string, s: string, k: nat)
    requires k <= |s|
    ensures (w + s)[|w| + k..] == s[k..]
  {
  }

  lemma {:induction false} SpaceRunAfter(w: string, s: string)
    requires forall i :: 0 <= i < |w| ==> IsSpace(w[i])
    ensures SpaceRun(w + s) == |w| + SpaceRun(s)
  {
    if |w| > 0 {
      SpaceRunAfter(w[1..], s);
      assert (w + s)[1..] == w[1..] + s;
    } else {
      assert w + s == s;
    }
  }

  lemma {:induction false} AllDigitsRun(s: string)
    requires forall i :: 0 <= i < |s| ==> IsDigit(s[i])
    ensures DigitRun(s) == |s|
  {
    if |s| > 0 {
      AllDigitsRun(s[1..]);
    }
  }
}
