/** The three JavaScript string built-ins the file dropzone relies on:
    `String.prototype.split` with a one-character separator, `toLowerCase`
    (restricted to ASCII) and the decimal rendering of an integer inside a
    template literal. */
module Text {

  /** Concatenates `parts`, putting `sep` between neighbours; the inverse of Split. */
  function Join(parts: seq<string>, sep: char): string
    requires |parts| >= 1
    decreases |parts|
  {
    if |parts| == 1 then parts[0] else parts[0] + [sep] + Join(parts[1..], sep)
  }

  /** `s.split(sep)`: the pieces between separators, never an empty list
      (the empty string splits into one empty piece). */
  function Split(s: string, sep: char): (parts: seq<string>)
    ensures |parts| >= 1
    decreases |s|
  {
    if s == [] then [""]
    else
      var rest := Split(s[1..], sep);
      if s[0] == sep then [""] + rest
      else [[s[0]] + rest[0]] + rest[1..]
  }

  /** No piece of a split holds the separator, and joining the pieces gives
      back the string. */
  lemma {:induction false} SplitInverse(s: string, sep: char)
    ensures forall i :: 0 <= i < |Split(s, sep)| ==> sep !in Split(s, sep)[i]
    ensures Join(Split(s, sep), sep) == s
    decreases |s|
  {
    if s != [] {
      var rest := Split(s[1..], sep);
      SplitInverse(s[1..], sep);
      var parts := Split(s, sep);
      if s[0] == sep {
        assert parts[1..] == rest;
      } else {
        assert parts[1..] == rest[1..];
        assert |rest| > 1 ==> Join(rest, sep) == rest[0] + [sep] + Join(rest[1..], sep);
        assert s == [s[0]] + s[1..];
      }
    }
  }

  /** Split unfolded on a string of the form `[c] + t`. */
  lemma SplitCons(c: char, t: string, sep: char)
    ensures Split([c] + t, sep) ==
      if c == sep then [""] + Split(t, sep)
      else [[c] + Split(t, sep)[0]] + Split(t, sep)[1..]
  {
    assert ([c] + t)[1..] == t;
  }

  /** The last piece of `s.split(sep)`, i.e. `s.split(sep).pop()`. */
  function LastPiece(s: string, sep: char): string
  {
    var parts := Split(s, sep);
    parts[|parts| - 1]
  }

  /** A string splits into one piece exactly when it holds no separator. */
  lemma SplitSingleton(s: string, sep: char)
    ensures |Split(s, sep)| == 1 <==> sep !in s
  {
    SplitInverse(s, sep);
    var parts := Split(s, sep);
    if |parts| > 1 {
      assert s == parts[0] + [sep] + Join(parts[1..], sep);
      assert s[|parts[0]|] == sep;
    }
  }

  /** The last piece of `[c] + t`: the whole string when it holds no
      separator, the last piece of `t` otherwise. */
  lemma LastPieceCons(c: char, t: string, sep: char)
    ensures LastPiece([c] + t, sep) ==
      if c != sep && sep !in t then [c] + t else LastPiece(t, sep)
  {
    SplitCons(c, t, sep);
    SplitSingleton(t, sep);
    var rest, parts := Split(t, sep), Split([c] + t, sep);
    if c == sep {
      assert parts == [""] + rest;
      assert parts[|parts| - 1] == rest[|rest| - 1];
    } else if |rest| == 1 {
      SplitWithoutSeparator(t, sep);
      assert parts == [[c] + t];
    } else {
      assert parts == [[c] + rest[0]] + rest[1..];
      assert parts[|parts| - 1] == rest[|rest| - 1];
    }
  }

  /** The last piece is the longest suffix of `s` free of `sep`: it is a
      suffix, holds no `sep`, and is either all of `s` or preceded by `sep`. */
  lemma {:induction false} LastPieceIsMaximalSuffix(s: string, sep: char)
    ensures var l := LastPiece(s, sep);
      |l| <= |s| && l == s[|s| - |l|..] && sep !in l &&
      (|l| < |s| ==> s[|s| - |l| - 1] == sep)
  {
    if s != [] {
      var c, t := s[0], s[1..];
      assert s == [c] + t;
      LastPieceIsMaximalSuffix(t, sep);
      LastPieceCons(c, t, sep);
      if !(c != sep && sep !in t) {
        var l := LastPiece(t, sep);
        assert |l| == |t| ==> l == t;
        MaximalSuffixCons(c, t, l, sep);
      }
    }
  }

  /** A maximal separator-free suffix of `t` stays one of `[c] + t` when it
      is shorter than `t` or `c` is the separator. */
  lemma MaximalSuffixCons(c: char, t: string, l: string, sep: char)
    requires |l| <= |t| && l == t[|t| - |l|..] && sep !in l
    requires |l| < |t| ==> t[|t| - |l| - 1] == sep
    requires c == sep || |l| < |t|
    ensures var s := [c] + t;
      |l| <= |s| && l == s[|s| - |l|..] && (|l| < |s| ==> s[|s| - |l| - 1] == sep)
  {
    var s := [c] + t;
    assert s[|s| - |l|..] == t[|t| - |l|..];
    if |l| < |t| {
      assert s[|s| - |l| - 1] == t[|t| - |l| - 1];
    }
  }

  /** With no separator in `s`, split yields `s` alone. */
  lemma {:induction false} SplitWithoutSeparator(s: string, sep: char)
    requires sep !in s
    ensures Split(s, sep) == [s]
  {
    if s != [] {
      SplitWithoutSeparator(s[1..], sep);
      assert s == [s[0]] + s[1..];
    }
  }

  /** The last piece of `stem + sep + tail`, when `tail` holds no `sep`, is `tail`. */
  lemma LastPieceAfterSeparator(stem: string, sep: char, tail: string)
    requires sep !in tail
    ensures LastPiece(stem + [sep] + tail, sep) == tail
  {
    var s := stem + [sep] + tail;
    LastPieceIsMaximalSuffix(s, sep);
    var l := LastPiece(s, sep);
    assert s[|stem|] == sep;
    assert forall j :: |s| - |l| <= j < |s| ==> s[j] == l[j - (|s| - |l|)];
    assert forall j :: |stem| < j < |s| ==> s[j] == tail[j - |stem| - 1];
    assert s[|s| - |tail|..] == tail;
  }

  /** ASCII `toLowerCase` of one character. */
  function LowerChar(c: char): char
  {
    if 'A' <= c <= 'Z' then (c as int + 32) as char else c
  }

  predicate IsUpper(c: char)
  {
    'A' <= c <= 'Z'
  }

  /** ASCII `toLowerCase`, one character at a time. */
  function Lower(s: string): (r: string)
    ensures |r| == |s|
  {
    if s == [] then [] else [LowerChar(s[0])] + Lower(s[1..])
  }

  /** Lowering keeps the length and lowers each character in place. */
  lemma {:induction false} LowerAt(s: string)
    ensures forall i :: 0 <= i < |s| ==> Lower(s)[i] == LowerChar(s[i])
  {
    if s != [] {
      LowerAt(s[1..]);
    }
  }

  /** Lowering distributes over concatenation. */
  lemma LowerAppend(a: string, b: string)
    ensures Lower(a + b) == Lower(a) + Lower(b)
  {
    LowerAt(a + b);
    LowerAt(a);
    LowerAt(b);
  }

  /** Lowering leaves no upper-case letter and is idempotent. */
  lemma LowerResult(s: string)
    ensures forall i :: 0 <= i < |s| ==> !IsUpper(Lower(s)[i])
    ensures Lower(Lower(s)) == Lower(s)
  {
    LowerAt(s);
    LowerAt(Lower(s));
  }

  function DigitChar(d: nat): char
    requires d < 10
  {
    ('0' as int + d) as char
  }

  predicate IsDigit(c: char)
  {
    '0' <= c <= '9'
  }

  /** The decimal rendering of a natural number, as `${n}` produces it below 1e21. */
  function NatToDecimal(n: nat): (r: string)
    ensures |r| >= 1
    ensures forall i :: 0 <= i < |r| ==> IsDigit(r[i])
    ensures |r| > 1 ==> r[0] != '0'
  {
    if n < 10 then [DigitChar(n)] else NatToDecimal(n / 10) + [DigitChar(n % 10)]
  }

  /** The decimal rendering of an integer, with a leading '-' when negative. */
  function IntToDecimal(i: int): (r: string)
    ensures |r| >= 1
    ensures (r[0] == '-') <==> i < 0
  {
    if i < 0 then "-" + NatToDecimal(-i) else NatToDecimal(i)
  }

  function DigitValue(c: char): (d: nat)
    requires IsDigit(c)
    ensures d < 10 && DigitChar(d) == c
  {
    c as int - '0' as int
  }

  /** The value a string of decimal digits denotes. */
  function DecimalValue(s: string): nat
    requires forall i :: 0 <= i < |s| ==> IsDigit(s[i])
  {
    if s == [] then 0
    else DecimalValue(s[..|s| - 1]) * 10 + DigitValue(s[|s| - 1])
  }

  /** Reading back a rendered natural number gives the number. */
  lemma {:induction false} DecimalRoundTrip(n: nat)
    ensures DecimalValue(NatToDecimal(n)) == n
  {
    var r := NatToDecimal(n);
    if n >= 10 {
      DecimalRoundTrip(n / 10);
      assert r[..|r| - 1] == NatToDecimal(n / 10);
    }
  }

  /** Distinct natural numbers render differently. */
  lemma DecimalInjective(m: nat, n: nat)
    requires NatToDecimal(m) == NatToDecimal(n)
    ensures m == n
  {
    DecimalRoundTrip(m);
    DecimalRoundTrip(n);
  }
}
