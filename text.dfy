/**
  The string operations the script performs on its input and output lines:
  `str.split` and `str.join` with a one-character separator, removal of
  newline characters (`str.replace('\n', '')`), and conversion between
  decimal text and integers (`int(...)` and `str(...)`).
*/
module Text {
  import opened Wrappers

  /** Python's `s.split(sep)` for a single-character separator: the text
      between consecutive separators, so there is always at least one piece. */
  function Split(s: string, sep: char): (r: seq<string>)
    ensures |r| >= 1
    ensures forall i :: 0 <= i < |r| ==> sep !in r[i]
  {
    if s == [] then [[]]
    else
      assert s == [s[0]] + s[1..];
      var rest := Split(s[1..], sep);
      if s[0] == sep then [[]] + rest
      else [[s[0]] + rest[0]] + rest[1..]
  }

  /** There is one more piece than there are separators. */
  lemma {:induction false} SplitCount(s: string, sep: char)
    ensures |Split(s, sep)| == multiset(s)[sep] + 1
  {
    if s != [] {
      SplitCount(s[1..], sep);
      assert s == [s[0]] + s[1..];
    }
  }

  /** Every character of a piece comes from the text that was split. */
  lemma {:induction false} SplitKeeps(s: string, sep: char)
    ensures forall i, x :: 0 <= i < |Split(s, sep)| && x in Split(s, sep)[i] ==> x in s
  {
    if s != [] {
      SplitKeeps(s[1..], sep);
      assert s == [s[0]] + s[1..];
    }
  }

  /** Python's `sep.join(parts)`. */
  function Join(parts: seq<string>, sep: char): string
  {
    if |parts| == 0 then []
    else if |parts| == 1 then parts[0]
    else parts[0] + [sep] + Join(parts[1..], sep)
  }

  /** A join begins with the first part and ends with the last one, and
      holds the separator as soon as there are two parts. */
  lemma {:induction false} JoinEnds(parts: seq<string>, sep: char)
    requires |parts| >= 1
    ensures parts[0] <= Join(parts, sep)
    ensures
      var r, last := Join(parts, sep), parts[|parts| - 1];
      |last| <= |r| && r[|r| - |last|..] == last
    ensures |parts| >= 2 ==> sep in Join(parts, sep)
  {
    if |parts| >= 2 {
      JoinEnds(parts[1..], sep);
      var rest := Join(parts[1..], sep);
      var r := parts[0] + [sep] + rest;
      assert r[|parts[0]|] == sep;
      var last := parts[|parts| - 1];
      assert parts[1..][|parts| - 2] == last;
      assert r[|r| - |last|..] == rest[|rest| - |last|..];
    }
  }

  /** Joining the pieces of a split gives back the text that was split. */
  lemma {:induction false} JoinSplit(s: string, sep: char)
    ensures Join(Split(s, sep), sep) == s
  {
    if s != [] {
      JoinSplit(s[1..], sep);
      JoinSplitStep(s, sep);
    }
  }

  /** One more character in front keeps a split joinable back into the text. */
  lemma JoinSplitStep(s: string, sep: char)
    requires s != []
    requires Join(Split(s[1..], sep), sep) == s[1..]
    ensures Join(Split(s, sep), sep) == s
  {
    var rest := Split(s[1..], sep);
    if s[0] == sep {
      assert ([[]] + rest)[1..] == rest;
    } else if |rest| > 1 {
      assert ([[s[0]] + rest[0]] + rest[1..])[1..] == rest[1..];
    }
    assert s == [s[0]] + s[1..];
  }

  /** A text with two separators is its three pieces with the separators
      between them. */
  lemma SplitThree(s: string, sep: char)
    requires multiset(s)[sep] == 2
    ensures
      var f := Split(s, sep);
      |f| == 3 && s == f[0] + [sep] + f[1] + [sep] + f[2]
  {
    var f := Split(s, sep);
    SplitCount(s, sep);
    JoinSplit(s, sep);
    var tail := f[1..];
    assert tail[1..] == [f[2]];
    assert Join(tail, sep) == f[1] + [sep] + f[2];
    assert Join(f, sep) == f[0] + [sep] + Join(tail, sep);
    ConcatFive(f[0], [sep], f[1], [sep], f[2]);
  }

  lemma ConcatFive(a: string, b: string, c: string, d: string, e: string)
    ensures a + b + (c + d + e) == a + b + c + d + e
  {
  }

  /** A text without the separator splits into itself alone. */
  lemma {:induction false} SplitWithoutSeparator(x: string, sep: char)
    requires sep !in x
    ensures Split(x, sep) == [x]
  {
    if x != [] {
      SplitWithoutSeparator(x[1..], sep);
      assert [x[0]] + x[1..] == x;
    }
  }

  /** Splitting stops at the first separator. */
  lemma {:induction false} SplitAtFirstSeparator(x: string, sep: char, y: string)
    requires sep !in x
    ensures Split(x + [sep] + y, sep) == [x] + Split(y, sep)
  {
    if x == [] {
      assert x + [sep] + y == [sep] + y;
      assert ([sep] + y)[1..] == y;
    } else {
      SplitAtFirstSeparator(x[1..], sep, y);
      assert (x + [sep] + y)[1..] == x[1..] + [sep] + y;
      assert [x[0]] + x[1..] == x;
    }
  }

  /** Splitting a join gives back the parts, as long as none of them
      contains the separator. */
  lemma {:induction false} SplitJoin(parts: seq<string>, sep: char)
    requires |parts| >= 1
    requires forall i :: 0 <= i < |parts| ==> sep !in parts[i]
    ensures Split(Join(parts, sep), sep) == parts
  {
    if |parts| == 1 {
      SplitWithoutSeparator(parts[0], sep);
    } else {
      SplitJoin(parts[1..], sep);
      SplitAtFirstSeparator(parts[0], sep, Join(parts[1..], sep));
      assert [parts[0]] + parts[1..] == parts;
    }
  }

  /** A character that no part contains, and that is not the separator,
      does not occur in the join. */
  lemma {:induction false} JoinAvoids(parts: seq<string>, sep: char, x: char)
    requires x != sep
    requires forall i :: 0 <= i < |parts| ==> x !in parts[i]
    ensures x !in Join(parts, sep)
  {
    if |parts| > 1 {
      JoinAvoids(parts[1..], sep, x);
    }
  }

  /** `s.replace('\n', '')`: every newline character is removed and
      every other character is kept, with its multiplicity. */
  function StripNewlines(s: string): (r: string)
    ensures '\n' !in r
    ensures forall x :: x != '\n' ==> multiset(r)[x] == multiset(s)[x]
  {
    if s == [] then []
    else
      assert s == [s[0]] + s[1..];
      (if s[0] == '\n' then [] else [s[0]]) + StripNewlines(s[1..])
  }

  /** Stripping works character by character, so it keeps the order of
      what it keeps. */
  lemma {:induction false} StripNewlinesConcat(s: string, t: string)
    ensures StripNewlines(s + t) == StripNewlines(s) + StripNewlines(t)
  {
    if s == [] {
      assert s + t == t;
    } else {
      var head := if s[0] == '\n' then [] else [s[0]];
      assert (s + t)[0] == s[0];
      assert (s + t)[1..] == s[1..] + t;
      assert StripNewlines(s + t) == head + StripNewlines(s[1..] + t);
      StripNewlinesConcat(s[1..], t);
      assert StripNewlines(s) == head + StripNewlines(s[1..]);
    }
  }

  /** A text without newlines is left as it is; in particular stripping
      twice is stripping once. */
  lemma {:induction false} StripNewlinesKeepsClean(s: string)
    requires '\n' !in s
    ensures StripNewlines(s) == s
  {
    if s != [] {
      StripNewlinesKeepsClean(s[1..]);
      assert [s[0]] + s[1..] == s;
    }
  }

  predicate IsDigit(c: char) { '0' <= c <= '9' }

  predicate AllDigits(s: string) { forall i :: 0 <= i < |s| ==> IsDigit(s[i]) }

  function DigitValue(c: char): nat
    requires IsDigit(c)
  {
    (c as int) - ('0' as int)
  }

  function DigitChar(d: nat): (c: char)
    requires d < 10
    ensures IsDigit(c) && DigitValue(c) == d
  {
    (('0' as int) + d) as char
  }

  /** The number a run of decimal digits denotes; the empty run denotes 0. */
  function DigitsValue(ds: string): nat
    requires AllDigits(ds)
  {
    if ds == [] then 0
    else DigitsValue(ds[..|ds| - 1]) * 10 + DigitValue(ds[|ds| - 1])
  }

  /** The decimal digits of a natural number, with no leading zero. */
  function NatToDigits(n: nat): (r: string)
    ensures r != [] && AllDigits(r)
    ensures DigitsValue(r) == n
    ensures |r| > 1 ==> r[0] != '0'
  {
    if n < 10 then [DigitChar(n)]
    else
      var r := NatToDigits(n / 10) + [DigitChar(n % 10)];
      assert r[..|r| - 1] == NatToDigits(n / 10);
      r
  }

  /** Python's `str(n)` for an integer: a minus sign for a negative
      number, then the digits of its magnitude with no leading zero. */
  function IntToString(n: int): (r: string)
    ensures r != []
    ensures (r[0] == '-') == (n < 0)
    ensures IsDigit(r[|r| - 1])
    ensures ',' !in r && '\n' !in r
    ensures n >= 0 ==> r == NatToDigits(n)
    ensures n < 0 ==> r[1..] == NatToDigits(-n)
  {
    if n < 0 then "-" + NatToDigits(-n) else NatToDigits(n)
  }

  /** The ASCII white space that `int()` skips around a number: the
      characters for which ASCII `isspace` holds. */
  predicate IsSpace(c: char)
  {
    c == ' ' || c == '\t' || c == '\n' || c == '\r' || c == '\U{000B}' || c == '\U{000C}'
  }

  /** `s` without its leading white space. */
  function TrimStart(s: string): string
  {
    if s != [] && IsSpace(s[0]) then TrimStart(s[1..]) else s
  }

  /** `s` without its trailing white space. */
  function TrimEnd(s: string): string
  {
    if s != [] && IsSpace(s[|s| - 1]) then TrimEnd(s[..|s| - 1]) else s
  }

  /** Python's `int(field)`: surrounding white space is ignored, then an
      optional sign and at least one decimal digit must make up the rest. */
  function ParseInt(field: string): Option<int>
  {
    var t := TrimEnd(TrimStart(field));
    if t == [] then None
    else if t[0] == '-' || t[0] == '+' then
      var ds := t[1..];
      if ds != [] && AllDigits(ds) then
        var v: int := DigitsValue(ds);
        Some(if t[0] == '-' then -v else v)
      else None
    else if AllDigits(t) then Some(DigitsValue(t))
    else None
  }

  /** Trimming keeps a contiguous piece of the text: every character of
      the trimmed text comes from the text. */
  lemma {:induction false} TrimKeeps(s: string)
    ensures forall x :: x in TrimStart(s) ==> x in s
    ensures forall x :: x in TrimEnd(s) ==> x in s
  {
    if s != [] {
      if IsSpace(s[0]) {
        TrimKeeps(s[1..]);
      }
      if IsSpace(s[|s| - 1]) {
        TrimKeeps(s[..|s| - 1]);
      }
    }
  }

  /** A field that is a run of decimal digits reads as the number they
      denote; a field without any digit is rejected; a negative value needs
      a minus sign in the field. */
  lemma ParseIntDigits(field: string)
    ensures field != [] && AllDigits(field) ==> ParseInt(field) == Some(DigitsValue(field))
    ensures (forall i :: 0 <= i < |field| ==> !IsDigit(field[i])) ==> ParseInt(field) == None
    ensures ParseInt(field).Some? && ParseInt(field).value < 0 ==> '-' in field
  {
    var t := TrimEnd(TrimStart(field));
    TrimKeeps(field);
    TrimKeeps(TrimStart(field));
    if t != [] {
      assert t[0] in field;
      if forall i :: 0 <= i < |field| ==> !IsDigit(field[i]) {
        assert t[|t| - 1] in field;
      }
    }
  }

  /** White space around a number does not change what `int()` reads. */
  lemma {:induction false} ParseIntSkipsSpace(field: string, c: char)
    requires IsSpace(c)
    ensures ParseInt([c] + field) == ParseInt(field)
    ensures ParseInt(field + [c]) == ParseInt(field)
  {
    assert ([c] + field)[1..] == field;
    TrimAppendSpace(field, c);
  }

  lemma {:induction false} TrimAppendSpace(s: string, c: char)
    requires IsSpace(c)
    ensures TrimEnd(TrimStart(s + [c])) == TrimEnd(TrimStart(s))
  {
    if s == [] {
      assert TrimStart([c]) == TrimStart([c][1..]);
    } else if IsSpace(s[0]) {
      assert (s + [c])[1..] == s[1..] + [c];
      TrimAppendSpace(s[1..], c);
    } else {
      assert TrimStart(s + [c]) == s + [c];
      assert (s + [c])[..|s|] == s;
    }
  }

  /** `int(str(n)) == n`. */
  lemma IntToStringRoundTrip(n: int)
    ensures ParseInt(IntToString(n)) == Some(n)
  {
    var s := IntToString(n);
    assert TrimStart(s) == s;
    assert TrimEnd(s) == s;
    if n < 0 {
      assert s[1..] == NatToDigits(-n);
    }
  }
}
