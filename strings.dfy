/** The .NET string operations the core relies on, over `seq<char>`:
    `Split(char)`, `string.Join("", ...)`, ordinal and ASCII case-folded
    `StartsWith`, and decimal formatting of integers in interpolated strings. */
module Strings {

  /** Number of occurrences of `c` in `s`. */
  function Occurrences(s: string, c: char): nat
  {
    if s == [] then 0 else (if s[0] == c then 1 else 0) + Occurrences(s[1..], c)
  }

  /** `s` with every `c` deleted. */
  function Without(s: string, c: char): string
  {
    if s == [] then [] else (if s[0] == c then [] else [s[0]]) + Without(s[1..], c)
  }

  /** `String.Split(sep)`: the maximal `sep`-free pieces between separators,
      empty pieces included, so there is always at least one. */
  function Split(s: string, sep: char): (parts: seq<string>)
    ensures |parts| >= 1
  {
    if s == [] then [""]
    else
      var rest := Split(s[1..], sep);
      if s[0] == sep then [""] + rest else [[s[0]] + rest[0]] + rest[1..]
  }

  /** `string.Join(sep, parts)`. */
  function Join(parts: seq<string>, sep: char): string
    requires |parts| >= 1
  {
    if |parts| == 1 then parts[0] else parts[0] + [sep] + Join(parts[1..], sep)
  }

  /** `string.Join("", parts)`. */
  function Concat(parts: seq<string>): string
  {
    if parts == [] then [] else parts[0] + Concat(parts[1..])
  }

  /** Splitting and joining again with the same separator gives back the string. */
  lemma {:induction false} JoinSplit(s: string, sep: char)
    ensures Join(Split(s, sep), sep) == s
  {
    if s != [] {
      JoinSplit(s[1..], sep);
      var rest := Split(s[1..], sep);
      if s[0] != sep {
        JoinExtendFirst(s[0], rest, sep);
      } else {
        assert Split(s, sep)[1..] == rest;
      }
      assert s == [s[0]] + s[1..];
    }
  }

  /** Prefixing a character to the first piece prefixes it to the join. */
  lemma JoinExtendFirst(c: char, parts: seq<string>, sep: char)
    requires |parts| >= 1
    ensures Join([[c] + parts[0]] + parts[1..], sep) == [c] + Join(parts, sep)
  {
    var q := [[c] + parts[0]] + parts[1..];
    if |parts| > 1 {
      assert q[1..] == parts[1..];
    }
  }

  /** No piece contains the separator, and there is one piece more than
      there are separators. */
  lemma {:induction false} SplitPieces(s: string, sep: char)
    ensures |Split(s, sep)| == Occurrences(s, sep) + 1
    ensures forall k :: 0 <= k < |Split(s, sep)| ==> sep !in Split(s, sep)[k]
  {
    if s != [] {
      SplitPieces(s[1..], sep);
      var rest := Split(s[1..], sep);
      if s[0] != sep {
        assert forall k :: 1 <= k < |Split(s, sep)| ==> Split(s, sep)[k] == rest[k];
      }
    }
  }

  lemma {:induction false} ConcatAppend(a: seq<string>, b: seq<string>)
    ensures Concat(a + b) == Concat(a) + Concat(b)
  {
    if a != [] {
      ConcatAppend(a[1..], b);
      assert (a + b)[0] == a[0] && (a + b)[1..] == a[1..] + b;
    } else {
      assert a + b == b;
    }
  }

  /** Concatenating all the pieces deletes the separators. */
  lemma {:induction false} ConcatSplit(s: string, sep: char)
    ensures Concat(Split(s, sep)) == Without(s, sep)
  {
    if s != [] {
      ConcatSplit(s[1..], sep);
      var rest := Split(s[1..], sep);
      if s[0] != sep {
        assert Concat(Split(s, sep)) == [s[0]] + rest[0] + Concat(rest[1..]);
        assert rest == [rest[0]] + rest[1..];
      } else {
        assert Concat(Split(s, sep)) == "" + Concat(rest);
      }
    }
  }

  lemma {:induction false} WithoutHasNone(s: string, c: char)
    ensures c !in Without(s, c)
  {
    if s != [] { WithoutHasNone(s[1..], c); }
  }

  /** Pieces that contain no separator concatenate to a separator-free string. */
  lemma {:induction false} ConcatFree(parts: seq<string>, c: char)
    requires forall k :: 0 <= k < |parts| ==> c !in parts[k]
    ensures c !in Concat(parts)
  {
    if parts != [] { ConcatFree(parts[1..], c); }
  }

  /** The first piece is a separator-free prefix of `s` that is followed by
      the separator unless it is all of `s`. */
  lemma {:induction false} FirstPiece(s: string, sep: char)
    ensures sep !in Split(s, sep)[0]
    ensures Split(s, sep)[0] <= s
    ensures |Split(s, sep)[0]| < |s| ==> s[|Split(s, sep)[0]|] == sep
  {
    SplitPieces(s, sep);
    if s != [] && s[0] != sep {
      FirstPiece(s[1..], sep);
      assert Split(s, sep)[0] == [s[0]] + Split(s[1..], sep)[0];
    }
  }

  lemma {:induction false} NoOccurrences(s: string, c: char)
    ensures Occurrences(s, c) == 0 <==> c !in s
  {
    if s != [] { NoOccurrences(s[1..], c); }
  }

  /** A separator-free piece followed by the separator splits off as the first part. */
  lemma {:induction false} SplitSeparated(a: string, sep: char, b: string)
    requires sep !in a
    ensures Split(a + [sep] + b, sep) == [a] + Split(b, sep)
  {
    if a == [] {
      assert a + [sep] + b == [sep] + b;
      assert ([sep] + b)[1..] == b;
    } else {
      SplitSeparated(a[1..], sep, b);
      assert (a + [sep] + b)[1..] == a[1..] + [sep] + b;
      assert a == [a[0]] + a[1..];
    }
  }

  /** A separator-free piece that ends the string or is followed by the
      separator is the first part. */
  lemma {:induction false} SplitLeading(v: string, sep: char, rest: string)
    requires sep !in v
    requires rest == [] || rest[0] == sep
    ensures Split(v + rest, sep)[0] == v
  {
    if v == [] {
      assert v + rest == rest;
    } else {
      SplitLeading(v[1..], sep, rest);
      assert (v + rest)[1..] == v[1..] + rest;
      assert v == [v[0]] + v[1..];
    }
  }

  /** Upper-case mapping for ASCII letters; every other character maps to itself. */
  function UpperAscii(ch: char): char
  {
    if 'a' <= ch <= 'z' then (ch as int - 32) as char else ch
  }

  /** `s.StartsWith(prefix, StringComparison.OrdinalIgnoreCase)`, with case
      folding restricted to ASCII. */
  predicate StartsWithIgnoreCase(s: string, prefix: string)
    ensures StartsWithIgnoreCase(s, prefix) <==>
      |prefix| <= |s| && forall k :: 0 <= k < |prefix| ==> UpperAscii(s[k]) == UpperAscii(prefix[k])
  {
    if prefix == [] then true
    else s != [] && UpperAscii(s[0]) == UpperAscii(prefix[0]) && StartsWithIgnoreCase(s[1..], prefix[1..])
  }

  /** An ordinal (exact) prefix also passes the case-insensitive test. */
  lemma ExactPrefixIgnoresCase(s: string, prefix: string)
    requires prefix <= s
    ensures StartsWithIgnoreCase(s, prefix)
  {
    assert forall k :: 0 <= k < |prefix| ==> s[k] == prefix[k];
  }

  /** The case-insensitive test ignores the case of ASCII letters on both sides. */
  lemma {:induction false} IgnoreCaseOfPrefix(s: string, prefix: string, other: string)
    requires |other| == |prefix|
    requires forall k :: 0 <= k < |prefix| ==> UpperAscii(other[k]) == UpperAscii(prefix[k])
    ensures StartsWithIgnoreCase(s, prefix) <==> StartsWithIgnoreCase(s, other)
  {
  }

  function DigitChar(d: nat): char
    requires d < 10
  {
    ('0' as int + d) as char
  }

  predicate IsDigit(ch: char) { '0' <= ch <= '9' }

  /** Decimal text of `n`, as `$"{n}"` formats a non-negative `int`. */
  function NatToString(n: nat): (s: string)
    ensures |s| >= 1
    ensures forall k :: 0 <= k < |s| ==> IsDigit(s[k])
  {
    if n < 10 then [DigitChar(n)] else NatToString(n / 10) + [DigitChar(n % 10)]
  }

  /** Reads decimal digits back into a number. */
  function DigitsValue(s: string): nat
    requires forall k :: 0 <= k < |s| ==> IsDigit(s[k])
  {
    if s == [] then 0
    else
      var last := s[|s| - 1];
      assert IsDigit(last);
      DigitsValue(s[..|s| - 1]) * 10 + (last as int - '0' as int)
  }

  /** Formatting loses nothing: the digits read back as the number. */
  lemma {:induction false} NatToStringRoundTrip(n: nat)
    ensures DigitsValue(NatToString(n)) == n
  {
    if n >= 10 {
      NatToStringRoundTrip(n / 10);
      var s := NatToString(n);
      assert s[..|s| - 1] == NatToString(n / 10);
    }
  }

  lemma NatToStringInjective(m: nat, n: nat)
    requires NatToString(m) == NatToString(n)
    ensures m == n
  {
    NatToStringRoundTrip(m);
    NatToStringRoundTrip(n);
  }
}
