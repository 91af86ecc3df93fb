/** The string primitives the service leans on: `%d` rendering of a
    non-negative integer, `strings.Join`, `strings.Split` on one character and
    `strings.HasPrefix`. Each comes with the inverse or reference definition
    that pins down what it computes. */
module Text {

  predicate IsDigit(c: char) {
    '0' <= c <= '9'
  }

  predicate AllDigits(s: string) {
    forall i :: 0 <= i < |s| ==> IsDigit(s[i])
  }

  function DigitValue(c: char): (d: nat)
    requires IsDigit(c)
    ensures d < 10
  {
    c as int - '0' as int
  }

  function DigitChar(d: nat): (c: char)
    requires d < 10
    ensures IsDigit(c) && DigitValue(c) == d
  {
    ('0' as int + d) as char
  }

  /** Decimal rendering without sign or leading zeros, as `fmt.Sprintf("%d", n)`
      prints a non-negative integer. */
  function NatToString(n: nat): (s: string)
    ensures |s| > 0
    ensures AllDigits(s)
    ensures n > 0 ==> s[0] != '0'
    decreases n
  {
    if n < 10 then [DigitChar(n)] else NatToString(n / 10) + [DigitChar(n % 10)]
  }

  /** The value of a string of decimal digits (the inverse of `NatToString`). */
  function ParseDigits(s: string): nat
    requires AllDigits(s)
  {
    if |s| == 0 then 0 else 10 * ParseDigits(s[..|s| - 1]) + DigitValue(s[|s| - 1])
  }

  lemma {:induction false} ParseNatToString(n: nat)
    ensures ParseDigits(NatToString(n)) == n
    decreases n
  {
    if n >= 10 {
      var s := NatToString(n);
      assert s[..|s| - 1] == NatToString(n / 10);
      ParseNatToString(n / 10);
    }
  }

  /** Number of leading decimal digits of `s`. */
  function LeadingDigits(s: string): (n: nat)
    ensures n <= |s|
    ensures AllDigits(s[..n])
    ensures n < |s| ==> !IsDigit(s[n])
  {
    if |s| == 0 || !IsDigit(s[0]) then 0
    else
      var k := LeadingDigits(s[1..]);
      assert s[..k + 1] == [s[0]] + s[1..][..k];
      k + 1
  }

  /** A run of digits followed by a non-digit (or nothing) is scanned exactly. */
  lemma {:induction false} LeadingDigitsOfNumeral(d: string, t: string)
    requires AllDigits(d)
    requires |t| == 0 || !IsDigit(t[0])
    ensures LeadingDigits(d + t) == |d|
    decreases |d|
  {
    if |d| > 0 {
      assert (d + t)[1..] == d[1..] + t;
      LeadingDigitsOfNumeral(d[1..], t);
    } else {
      assert d + t == t;
    }
  }

  predicate StartsWith(s: string, prefix: string) {
    |prefix| <= |s| && s[..|prefix|] == prefix
  }

  /** `strings.Join(parts, sep)`: the parts with `sep` between neighbours. */
  function Join(parts: seq<string>, sep: string): string
    decreases |parts|
  {
    if |parts| == 0 then ""
    else if |parts| == 1 then parts[0]
    else parts[0] + sep + Join(parts[1..], sep)
  }

  /** Joining grows at the end the way the clause lists are built: appending
      a part appends `sep` and the part. */
  lemma {:induction false} JoinSnoc(parts: seq<string>, p: string, sep: string)
    ensures Join(parts + [p], sep) == if |parts| == 0 then p else Join(parts, sep) + sep + p
    decreases |parts|
  {
    if |parts| > 1 {
      assert (parts + [p])[1..] == parts[1..] + [p];
      JoinSnoc(parts[1..], p, sep);
    } else if |parts| == 1 {
      assert (parts + [p])[1..] == [p];
    }
  }

  /** `strings.Split(s, [c])`: the pieces of `s` between occurrences of `c`.
      There is always one more piece than there are separators, so a string
      without `c` splits into itself alone. */
  function Split(s: string, c: char): (r: seq<string>)
    ensures |r| > 0
    ensures forall i :: 0 <= i < |r| ==> c !in r[i]
    ensures (|r| == 1) == (c !in s)
    decreases |s|
  {
    if |s| == 0 then [""]
    else
      var rest := Split(s[1..], c);
      assert s == [s[0]] + s[1..];
      if s[0] == c then [""] + rest
      else [[s[0]] + rest[0]] + rest[1..]
  }

  lemma JoinConsHead(x: string, y: string, t: seq<string>, sep: string)
    ensures Join([x + y] + t, sep) == x + Join([y] + t, sep)
  {
    if |t| > 0 {
      assert ([x + y] + t)[1..] == t;
      assert ([y] + t)[1..] == t;
    }
  }

  /** Joining the pieces back with the separator restores the string. */
  lemma {:induction false} SplitJoin(s: string, c: char)
    ensures Join(Split(s, c), [c]) == s
    decreases |s|
  {
    if |s| > 0 {
      var rest := Split(s[1..], c);
      SplitJoin(s[1..], c);
      if s[0] == c {
        JoinEmptyHead(rest, [c]);
      } else {
        JoinConsHead([s[0]], rest[0], rest[1..], [c]);
        assert [rest[0]] + rest[1..] == rest;
      }
      assert s == [s[0]] + s[1..];
    }
  }

  /** An empty first part leaves just the separator in front. */
  lemma JoinEmptyHead(parts: seq<string>, sep: string)
    requires |parts| > 0
    ensures Join([""] + parts, sep) == sep + Join(parts, sep)
  {
    assert ([""] + parts)[1..] == parts;
  }

  /** The text before the first `c` (all of `s` when `c` does not occur). */
  function TakeUntil(s: string, c: char): (r: string)
    ensures c !in r
    ensures StartsWith(s, r)
    decreases |s|
  {
    if |s| == 0 || s[0] == c then "" else [s[0]] + TakeUntil(s[1..], c)
  }

  /** A word free of `c` is taken whole, whatever follows its first `c`. */
  lemma {:induction false} TakeUntilWord(word: string, rest: string, c: char)
    requires c !in word
    ensures TakeUntil(word, c) == word
    ensures TakeUntil(word + [c] + rest, c) == word
    decreases |word|
  {
    if |word| > 0 {
      TakeUntilWord(word[1..], rest, c);
      assert (word + [c] + rest)[1..] == word[1..] + [c] + rest;
      assert word == [word[0]] + word[1..];
    } else {
      assert (word + [c] + rest)[0] == c;
    }
  }

  /** The text after the first `c`. */
  function DropThrough(s: string, c: char): string
    requires c in s
    decreases |s|
  {
    if s[0] == c then s[1..] else DropThrough(s[1..], c)
  }

  /** The first piece of a split is the text up to the first separator, and
      the remaining pieces are the split of what follows it. */
  lemma {:induction false} SplitFront(s: string, c: char)
    ensures Split(s, c)[0] == TakeUntil(s, c)
    ensures c in s ==> Split(s, c)[1..] == Split(DropThrough(s, c), c)
    decreases |s|
  {
    if |s| > 0 {
      assert s == [s[0]] + s[1..];
      if s[0] != c {
        SplitFront(s[1..], c);
      }
    }
  }

  /** The second piece of a split is the text between the first and the second
      separator (or the end). */
  lemma SecondPiece(s: string, c: char)
    requires c in s
    ensures |Split(s, c)| >= 2
    ensures Split(s, c)[1] == TakeUntil(DropThrough(s, c), c)
  {
    SplitFront(s, c);
    SplitFront(DropThrough(s, c), c);
    assert Split(s, c)[1] == Split(s, c)[1..][0];
  }
}
