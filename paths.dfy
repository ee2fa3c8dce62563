/** How the request handler of myapp/main.ts reads its path: the id is
    `path.split("/")[2]`, a missing or empty piece counts as no id, and the
    database compares the id text with the integer key column, so only a
    decimal numeral can ever match a row. */
module Paths {
  import opened Wrappers

  // ---------------------------------------------------------------------
  // String.prototype.split with a one-character separator
  // ---------------------------------------------------------------------

  /** The pieces of `s` between occurrences of `sep`, in order; the empty
      string gives one empty piece, as in JavaScript. */
  function Split(s: string, sep: char): (parts: seq<string>)
    ensures |parts| >= 1
    ensures forall i :: 0 <= i < |parts| ==> sep !in parts[i]
  {
    if s == [] then [[]]
    else
      var rest := Split(s[1..], sep);
      if s[0] == sep then [[]] + rest
      else [[s[0]] + rest[0]] + rest[1..]
  }

  /** The inverse of Split: the pieces with `sep` between them. */
  function Join(parts: seq<string>, sep: char): string
    requires |parts| >= 1
  {
    if |parts| == 1 then parts[0] else parts[0] + [sep] + Join(parts[1..], sep)
  }

  /** Joining the pieces gives back the string that was split. */
  lemma {:induction false} JoinSplit(s: string, sep: char)
    ensures Join(Split(s, sep), sep) == s
  {
    if s != [] {
      var rest := Split(s[1..], sep);
      JoinSplit(s[1..], sep);
      if s[0] == sep {
        assert ([[]] + rest)[1..] == rest;
      } else if |rest| > 1 {
        var parts := [[s[0]] + rest[0]] + rest[1..];
        assert parts[1..] == rest[1..];
        assert Join(rest, sep) == rest[0] + [sep] + Join(rest[1..], sep);
      }
    }
  }

  /** A string without the separator is one piece. */
  lemma {:induction false} SplitNoSep(s: string, sep: char)
    requires sep !in s
    ensures Split(s, sep) == [s]
  {
    if s != [] {
      SplitNoSep(s[1..], sep);
      assert [s[0]] + s[1..] == s;
    }
  }

  /** Splitting at a separator splits the pieces on either side of it. */
  lemma {:induction false} SplitAtSep(x: string, y: string, sep: char)
    ensures Split(x + [sep] + y, sep) == Split(x, sep) + Split(y, sep)
  {
    var s := x + [sep] + y;
    if x == [] {
      assert s == [sep] + y;
      assert s[1..] == y;
    } else {
      assert s[0] == x[0] && s[1..] == x[1..] + [sep] + y;
      SplitAtSep(x[1..], y, sep);
    }
  }

  /** Splitting a joined list gives the list back, when no piece holds the
      separator. */
  lemma {:induction false} SplitJoin(parts: seq<string>, sep: char)
    requires |parts| >= 1
    requires forall i :: 0 <= i < |parts| ==> sep !in parts[i]
    ensures Split(Join(parts, sep), sep) == parts
  {
    SplitNoSep(parts[0], sep);
    if |parts| > 1 {
      SplitJoin(parts[1..], sep);
      SplitAtSep(parts[0], Join(parts[1..], sep), sep);
      assert [parts[0]] + parts[1..] == parts;
    }
  }

  // ---------------------------------------------------------------------
  // The id segment (myapp/main.ts:41, with the `!id` tests of 48 and 56)
  // ---------------------------------------------------------------------

  /** `path.split("/")[2]`, where JavaScript's `undefined` (too few pieces)
      and `""` are both falsy and so both mean "no id". */
  function IdSegment(path: string): (id: Option<string>)
    ensures id.Some? ==> id.value != [] && '/' !in id.value
  {
    var parts := Split(path, '/');
    if |parts| > 2 && parts[2] != [] then Some(parts[2]) else None
  }

  /** The third piece is the id, whatever follows it. */
  lemma IdSegmentPresent(first: string, id: string, rest: string)
    requires '/' !in first && '/' !in id && id != []
    ensures IdSegment("/" + first + "/" + id) == Some(id)
    ensures IdSegment("/" + first + "/" + id + "/" + rest) == Some(id)
  {
    SplitNoSep(first, '/');
    SplitNoSep(id, '/');
    SplitNoSep("", '/');
    assert "/" + first + "/" + id == [] + ['/'] + (first + ['/'] + id);
    SplitAtSep([], first + ['/'] + id, '/');
    SplitAtSep(first, id, '/');
    var long := "/" + first + "/" + id + "/" + rest;
    assert long == [] + ['/'] + (first + ['/'] + (id + ['/'] + rest));
    SplitAtSep([], first + ['/'] + (id + ['/'] + rest), '/');
    SplitAtSep(first, id + ['/'] + rest, '/');
    SplitAtSep(id, rest, '/');
  }

  /** `/horse` and `/horse/` carry no id, and neither does an empty third
      piece such as the one in `/horse//5`. */
  lemma IdSegmentAbsent(first: string, rest: string)
    requires '/' !in first
    ensures IdSegment("/" + first) == None
    ensures IdSegment("/" + first + "/") == None
    ensures IdSegment("/" + first + "//" + rest) == None
  {
    SplitNoSep(first, '/');
    SplitNoSep("", '/');
    assert "/" + first == [] + ['/'] + first;
    SplitAtSep([], first, '/');
    assert "/" + first + "/" == [] + ['/'] + (first + ['/'] + []);
    SplitAtSep([], first + ['/'] + [], '/');
    SplitAtSep(first, [], '/');
    var long := "/" + first + "//" + rest;
    assert long == [] + ['/'] + (first + ['/'] + ([] + ['/'] + rest));
    SplitAtSep([], first + ['/'] + ([] + ['/'] + rest), '/');
    SplitAtSep(first, [] + ['/'] + rest, '/');
    SplitAtSep([], rest, '/');
  }

  // ---------------------------------------------------------------------
  // The id as a key of the integer column
  // ---------------------------------------------------------------------

  predicate IsDigit(c: char) {
    '0' <= c <= '9'
  }

  predicate IsNumeral(s: string) {
    s != [] && forall i :: 0 <= i < |s| ==> IsDigit(s[i])
  }

  /** A numeral without superfluous leading zeros. */
  predicate IsCanonicalNumeral(s: string) {
    IsNumeral(s) && (|s| > 1 ==> s[0] != '0')
  }

  function DigitValue(c: char): (d: nat)
    requires IsDigit(c)
    ensures d < 10
  {
    c as int - '0' as int
  }

  function Digit(d: nat): (c: char)
    requires d < 10
    ensures IsDigit(c) && DigitValue(c) == d
  {
    ('0' as int + d) as char
  }

  /** The value of a string of decimal digits. */
  function NumeralValue(s: string): nat
    requires forall i :: 0 <= i < |s| ==> IsDigit(s[i])
  {
    if s == [] then 0 else 10 * NumeralValue(s[..|s| - 1]) + DigitValue(s[|s| - 1])
  }

  /** The key the id text stands for when it is compared with the INTEGER
      column `id`: a decimal numeral stands for its value, any other text
      matches no row. */
  function ParseId(segment: string): (key: Option<nat>)
    ensures key.Some? <==> IsNumeral(segment)
  {
    if IsNumeral(segment) then Some(NumeralValue(segment)) else None
  }

  /** The decimal numeral of `n`, as JSON.stringify writes an id below 2^53. */
  function DecimalString(n: nat): (s: string)
    ensures IsCanonicalNumeral(s)
  {
    if n < 10 then [Digit(n)]
    else
      var init := DecimalString(n / 10);
      assert |init| == 1 ==> DigitValue(init[0]) == n / 10;
      init + [Digit(n % 10)]
  }

  /** Reading back a written id gives the id. */
  lemma {:induction false} ParseDecimal(n: nat)
    ensures ParseId(DecimalString(n)) == Some(n)
  {
    var s := DecimalString(n);
    if n >= 10 {
      ParseDecimal(n / 10);
      assert s[..|s| - 1] == DecimalString(n / 10);
      assert s[|s| - 1] == Digit(n % 10);
      assert NumeralValue(s) == 10 * (n / 10) + n % 10;
    } else {
      assert s[..0] == [];
    }
  }

  lemma {:induction false} NumeralValuePositive(s: string)
    requires IsNumeral(s) && s[0] != '0'
    ensures NumeralValue(s) >= 1
  {
    if |s| > 1 {
      NumeralValuePositive(s[..|s| - 1]);
    }
  }

  /** Writing the value of a canonical numeral gives the numeral back. */
  lemma {:induction false} DecimalParse(s: string)
    requires IsCanonicalNumeral(s)
    ensures DecimalString(NumeralValue(s)) == s
  {
    var n := NumeralValue(s);
    if |s| > 1 {
      var init := s[..|s| - 1];
      NumeralValuePositive(init);
      DecimalParse(init);
      assert IsDigit(s[|s| - 1]);
      var d := DigitValue(s[|s| - 1]);
      assert n == 10 * NumeralValue(init) + d;
      assert n / 10 == NumeralValue(init) && n % 10 == d;
      assert Digit(d) as int == s[|s| - 1] as int;
      assert s == init + [s[|s| - 1]];
    } else {
      assert |s| == 1 && s[..0] == [];
      assert NumeralValue(s[..0]) == 0;
      assert n == DigitValue(s[0]);
      assert Digit(n) as int == s[0] as int;
      assert s == [Digit(n)];
    }
  }
}
