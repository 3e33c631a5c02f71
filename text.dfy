/** The string operations the adapters apply to exchange-native symbols:
    JavaScript's one-character `split`, `join`, first-occurrence `replace`,
    ASCII `toUpperCase`, and decimal `parseInt` on digit strings. */
module Text {
  import opened Outcomes

  /** Number of occurrences of `c` in `s`. */
  function Occurrences(s: string, c: char): nat
  {
    if |s| == 0 then 0 else (if s[0] == c then 1 else 0) + Occurrences(s[1..], c)
  }

  /** `s.split(c)`: the maximal pieces of `s` between occurrences of `c`.
      There is always at least one piece, and no piece contains `c`. */
  function Split(s: string, c: char): (r: seq<string>)
    ensures |r| == Occurrences(s, c) + 1
    ensures forall i :: 0 <= i < |r| ==> c !in r[i]
  {
    if |s| == 0 then [""]
    else
      var rest := Split(s[1..], c);
      if s[0] == c then [""] + rest
      else [[s[0]] + rest[0]] + rest[1..]
  }

  lemma {:induction false} OccurrencesConcat(a: string, b: string, c: char)
    ensures Occurrences(a + b, c) == Occurrences(a, c) + Occurrences(b, c)
  {
    if |a| > 0 {
      assert (a + b)[1..] == a[1..] + b;
      OccurrencesConcat(a[1..], b, c);
    } else {
      assert a + b == b;
    }
  }

  lemma {:induction false} OccurrencesAbsent(a: string, c: char)
    ensures c !in a ==> Occurrences(a, c) == 0
  {
    if |a| > 0 && c !in a {
      OccurrencesAbsent(a[1..], c);
    }
  }

  /** `parts.join(c)`: joining `n` pieces free of `c` places exactly `n - 1` separators. */
  function Join(parts: seq<string>, c: char): (r: string)
    ensures |parts| > 0 && (forall i :: 0 <= i < |parts| ==> c !in parts[i]) ==>
      Occurrences(r, c) == |parts| - 1
  {
    if |parts| == 0 then ""
    else
      OccurrencesAbsent(parts[0], c);
      if |parts| == 1 then parts[0]
      else
        var rest := Join(parts[1..], c);
        OccurrencesConcat(parts[0] + [c], rest, c);
        OccurrencesConcat(parts[0], [c], c);
        parts[0] + [c] + rest
  }

  /** The first piece of a split is the longest prefix free of the separator: it is a prefix of
      the string, and the separator follows it unless it is the whole string. */
  lemma {:induction false} SplitFirstIsPrefix(s: string, c: char)
    ensures var first := Split(s, c)[0];
      && |first| <= |s| && first == s[..|first|]
      && (|first| < |s| ==> s[|first|] == c)
  {
    if |s| > 0 && s[0] != c {
      SplitFirstIsPrefix(s[1..], c);
      var rest := Split(s[1..], c);
      assert Split(s, c)[0] == [s[0]] + rest[0];
      assert [s[0]] + s[1..][..|rest[0]|] == s[..|rest[0]| + 1];
    }
  }

  /** `s.split(c)[0]`: the longest prefix of `s` free of `c`. */
  function FirstPiece(s: string, c: char): (r: string)
    ensures c !in r
    ensures |r| <= |s| && r == s[..|r|]
    ensures |r| < |s| ==> s[|r|] == c
  {
    SplitFirstIsPrefix(s, c);
    Split(s, c)[0]
  }

  /** Joining the pieces of a split with the same separator gives back the string. */
  lemma {:induction false} JoinSplit(s: string, c: char)
    ensures Join(Split(s, c), c) == s
  {
    if |s| > 0 {
      var rest := Split(s[1..], c);
      JoinSplit(s[1..], c);
      if s[0] == c {
        assert ([""] + rest)[1..] == rest;
        assert s == [c] + s[1..];
      } else if |rest| == 1 {
        assert s == [s[0]] + s[1..];
      } else {
        var r := Split(s, c);
        assert r[1..] == rest[1..];
        assert Join(rest, c) == rest[0] + [c] + Join(rest[1..], c);
        assert s == [s[0]] + s[1..];
      }
    }
  }

  /** A string without the separator splits into itself alone. */
  lemma {:induction false} SplitWithoutSeparator(a: string, c: char)
    requires c !in a
    ensures Split(a, c) == [a]
  {
    if |a| > 0 {
      SplitWithoutSeparator(a[1..], c);
      assert [a[0]] + a[1..] == a;
    }
  }

  /** Splitting `a + c + b`, where `a` has no separator, gives `a` and then the pieces of `b`. */
  lemma {:induction false} SplitAfterPiece(a: string, b: string, c: char)
    requires c !in a
    ensures Split(a + [c] + b, c) == [a] + Split(b, c)
  {
    if |a| == 0 {
      assert a + [c] + b == [c] + b;
      assert ([c] + b)[1..] == b;
    } else {
      var s := a + [c] + b;
      assert s[0] == a[0] && s[1..] == a[1..] + [c] + b;
      SplitAfterPiece(a[1..], b, c);
      assert [a[0]] + a[1..] == a;
    }
  }

  /** Splitting a join of separator-free pieces gives back the pieces. */
  lemma {:induction false} SplitJoin(parts: seq<string>, c: char)
    requires |parts| >= 1
    requires forall i :: 0 <= i < |parts| ==> c !in parts[i]
    ensures Split(Join(parts, c), c) == parts
  {
    if |parts| == 1 {
      SplitWithoutSeparator(parts[0], c);
    } else {
      SplitJoin(parts[1..], c);
      SplitAfterPiece(parts[0], Join(parts[1..], c), c);
      assert [parts[0]] + parts[1..] == parts;
    }
  }

  /** `s.replace(c, d)` with a one-character string pattern: only the FIRST occurrence of `c` is replaced. */
  function ReplaceFirst(s: string, c: char, d: char): (r: string)
    ensures |r| == |s|
  {
    if |s| == 0 then s
    else if s[0] == c then [d] + s[1..]
    else [s[0]] + ReplaceFirst(s[1..], c, d)
  }

  lemma {:induction false} ReplaceFirstAbsent(s: string, c: char, d: char)
    ensures c !in s ==> ReplaceFirst(s, c, d) == s
  {
    if |s| > 0 && c !in s {
      ReplaceFirstAbsent(s[1..], c, d);
      assert [s[0]] + s[1..] == s;
    }
  }

  lemma {:induction false} ReplaceFirstAfterPiece(a: string, b: string, c: char, d: char)
    requires c !in a
    ensures ReplaceFirst(a + [c] + b, c, d) == a + [d] + b
  {
    var s := a + [c] + b;
    if |a| == 0 {
      assert s == [c] + b && s[1..] == b;
    } else {
      assert s[0] == a[0] && s[1..] == a[1..] + [c] + b;
      ReplaceFirstAfterPiece(a[1..], b, c, d);
      assert [a[0]] + (a[1..] + [d] + b) == a + [d] + b;
    }
  }

  /** Replacing the first separator is the same as joining the first piece to the rest with `d`,
      the remaining separators untouched; a string without the separator is unchanged. */
  lemma ReplaceFirstBySplit(s: string, c: char, d: char)
    ensures var p := Split(s, c);
      ReplaceFirst(s, c, d) == if |p| == 1 then s else p[0] + [d] + Join(p[1..], c)
  {
    var p := Split(s, c);
    JoinSplit(s, c);
    if |p| == 1 {
      ReplaceFirstAbsent(s, c, d);
    } else {
      assert s == p[0] + [c] + Join(p[1..], c);
      ReplaceFirstAfterPiece(p[0], Join(p[1..], c), c, d);
    }
  }

  predicate IsLower(ch: char) { 'a' <= ch <= 'z' }

  /** ASCII `toUpperCase` of one character. */
  function UpperChar(ch: char): (u: char)
    ensures !IsLower(u)
    ensures IsLower(ch) ==> u as int == ch as int - 32
    ensures !IsLower(ch) ==> u == ch
  {
    if IsLower(ch) then (ch as int - 32) as char else ch
  }

  /** `s.toUpperCase()` restricted to ASCII letters. */
  function ToUpper(s: string): (r: string)
    ensures |r| == |s|
    ensures forall i :: 0 <= i < |r| ==> r[i] == UpperChar(s[i])
  {
    seq(|s|, i requires 0 <= i < |s| => UpperChar(s[i]))
  }

  /** Upper-casing leaves no lower-case letter and changes nothing a second time. */
  lemma ToUpperProperties(s: string)
    ensures forall i :: 0 <= i < |ToUpper(s)| ==> !IsLower(ToUpper(s)[i])
    ensures ToUpper(ToUpper(s)) == ToUpper(s)
  {
  }

  predicate IsDigit(ch: char) { '0' <= ch <= '9' }

  /** A non-empty string of decimal digits, the inputs on which `parseInt(s, 10)` reads all of `s`. */
  predicate IsDigits(s: string)
  {
    |s| > 0 && forall i :: 0 <= i < |s| ==> IsDigit(s[i])
  }

  function DigitValue(ch: char): nat
    requires IsDigit(ch)
  {
    ch as int - '0' as int
  }

  function DigitChar(n: nat): (ch: char)
    requires n < 10
    ensures IsDigit(ch) && DigitValue(ch) == n
  {
    ('0' as int + n) as char
  }

  /** The value of a (possibly empty) string of decimal digits, most significant first. */
  function DecimalValue(s: string): nat
    requires forall i :: 0 <= i < |s| ==> IsDigit(s[i])
  {
    if |s| == 0 then 0 else 10 * DecimalValue(s[..|s| - 1]) + DigitValue(s[|s| - 1])
  }

  /** `parseInt(s, 10)` on a digit string; anything else is reported as absent. */
  function ParseNat(s: string): (r: Option<nat>)
    ensures r.Some? <==> IsDigits(s)
  {
    if IsDigits(s) then Some(DecimalValue(s)) else None
  }

  /** The shortest decimal text of `n`: the partner of `ParseNat`. */
  function DecimalText(n: nat): (s: string)
    ensures IsDigits(s)
  {
    if n < 10 then [DigitChar(n)] else DecimalText(n / 10) + [DigitChar(n % 10)]
  }

  /** Parsing the decimal text of a number gives the number back. */
  lemma {:induction false} ParseDecimalText(n: nat)
    ensures ParseNat(DecimalText(n)) == Some(n)
  {
    var s := DecimalText(n);
    if n < 10 {
      assert s[..0] == [] && DecimalValue(s[..0]) == 0;
    } else {
      ParseDecimalText(n / 10);
      assert s[..|s| - 1] == DecimalText(n / 10);
    }
  }
}
