/**
 * The JavaScript string operations the input parser relies on:
 * `String.prototype.trim`, `split` on a one-character separator, `Number`
 * applied to a token, and `parseInt` without a radix. Each is modelled on
 * `seq<char>` with the ECMAScript definitions of white space and digits.
 */
module Text {
  import opened Wrappers

  /**
   * ECMAScript WhiteSpace and LineTerminator code points: what `trim`
   * removes and what `Number` and `parseInt` skip.
   */
  predicate IsSpace(c: char)
  {
    c in Spaces
  }

  /** The ECMAScript white space and line terminator code points. */
  const Spaces: set<char> :=
    {'\t', '\n', '\U{000B}', '\U{000C}', '\r', ' ', '\U{00A0}', '\U{1680}', '\U{2000}', '\U{2001}',
     '\U{2002}', '\U{2003}', '\U{2004}', '\U{2005}', '\U{2006}', '\U{2007}', '\U{2008}', '\U{2009}',
     '\U{200A}', '\U{2028}', '\U{2029}', '\U{202F}', '\U{205F}', '\U{3000}', '\U{FEFF}'}

  /** The index of the first character at or after `i` that is not white space (or `|s|`). */
  function SkipSpaces(s: string, i: nat): (j: nat)
    requires i <= |s|
    ensures i <= j <= |s|
    decreases |s| - i
  {
    if i < |s| && IsSpace(s[i]) then SkipSpaces(s, i + 1) else i
  }

  /** The end of `s[..j]` once the white space before `j` is dropped. */
  function SkipSpacesBack(s: string, j: nat): (i: nat)
    requires j <= |s|
    ensures i <= j
  {
    if j > 0 && IsSpace(s[j - 1]) then SkipSpacesBack(s, j - 1) else j
  }

  /** `SkipSpaces` passes over white space only, and stops at the first other character. */
  lemma {:induction false} SkipSpacesFacts(s: string, i: nat)
    requires i <= |s|
    ensures forall k :: i <= k < SkipSpaces(s, i) ==> IsSpace(s[k])
    ensures SkipSpaces(s, i) < |s| ==> !IsSpace(s[SkipSpaces(s, i)])
    decreases |s| - i
  {
    if i < |s| && IsSpace(s[i]) {
      SkipSpacesFacts(s, i + 1);
    }
  }

  /** `SkipSpacesBack` passes over white space only, and stops after the last other character. */
  lemma {:induction false} SkipSpacesBackFacts(s: string, j: nat)
    requires j <= |s|
    ensures forall k :: SkipSpacesBack(s, j) <= k < j ==> IsSpace(s[k])
    ensures SkipSpacesBack(s, j) > 0 ==> !IsSpace(s[SkipSpacesBack(s, j) - 1])
  {
    if j > 0 && IsSpace(s[j - 1]) {
      SkipSpacesBackFacts(s, j - 1);
    }
  }

  /** `s.trimStart()`: `s` with its leading white space removed. */
  function TrimStart(s: string): string
  {
    s[SkipSpaces(s, 0)..]
  }

  /** `s.trimEnd()`: `s` with its trailing white space removed. */
  function TrimEnd(s: string): string
  {
    s[..SkipSpacesBack(s, |s|)]
  }

  /** `s.trim()`: white space removed at both ends. */
  function Trim(s: string): string
  {
    TrimEnd(TrimStart(s))
  }

  /**
   * What `trim` keeps is one slice `s[i..j]` of `s`: everything before it
   * and everything after it is white space, and the slice neither starts
   * nor ends with white space.
   */
  lemma TrimSlice(s: string)
    ensures var i := SkipSpaces(s, 0);
            var j := i + |Trim(s)|;
            && j <= |s| && Trim(s) == s[i..j]
            && (forall k :: 0 <= k < i ==> IsSpace(s[k]))
            && (forall k :: j <= k < |s| ==> IsSpace(s[k]))
            && (Trim(s) != [] ==> !IsSpace(s[i]) && !IsSpace(s[j - 1]))
  {
    var i := SkipSpaces(s, 0);
    var t := s[i..];
    SkipSpacesFacts(s, 0);
    SkipSpacesBackFacts(t, |t|);
    var j := i + SkipSpacesBack(t, |t|);
    assert Trim(s) == t[..j - i];
    forall k | j <= k < |s|
      ensures IsSpace(s[k])
    {
      assert s[k] == t[k - i];
    }
  }

  /** Trimming a string that neither starts nor ends with white space changes nothing. */
  lemma TrimNoSpace(s: string)
    requires s != [] ==> !IsSpace(s[0]) && !IsSpace(s[|s| - 1])
    ensures Trim(s) == s
  {
    assert SkipSpaces(s, 0) == 0;
    assert TrimStart(s) == s;
  }

  /**
   * `s.split(c)` for a one-character separator `c`: the pieces between
   * consecutive occurrences of `c`, one more than there are occurrences
   * (so `"".split(c)` is `[""]`).
   */
  function Split(s: string, c: char): (r: seq<string>)
    ensures |r| > 0
  {
    if s == [] then [[]]
    else
      var rest := Split(s[1..], c);
      if s[0] == c then [[]] + rest
      else [[s[0]] + rest[0]] + rest[1..]
  }

  /** There is one more piece than there are separators, and no piece holds one. */
  lemma {:induction false} SplitPieces(s: string, c: char)
    ensures |Split(s, c)| == multiset(s)[c] + 1
    ensures forall k :: 0 <= k < |Split(s, c)| ==> c !in Split(s, c)[k]
  {
    if s != [] {
      SplitPieces(s[1..], c);
      assert s == [s[0]] + s[1..];
      var rest := Split(s[1..], c);
      if s[0] != c {
        assert forall k :: 1 <= k < |Split(s, c)| ==> Split(s, c)[k] == rest[k];
      }
    }
  }

  /** `ps.join(c)`: the pieces with one `c` between neighbours. */
  function Join(ps: seq<string>, c: char): string
  {
    if ps == [] then []
    else if |ps| == 1 then ps[0]
    else ps[0] + [c] + Join(ps[1..], c)
  }

  /** Joining the pieces of a split gives the string back. */
  lemma {:induction false} SplitJoin(s: string, c: char)
    ensures Join(Split(s, c), c) == s
  {
    if s != [] {
      var rest := Split(s[1..], c);
      SplitJoin(s[1..], c);
      if s[0] == c {
        assert ([[]] + rest)[1..] == rest;
      } else {
        var r := [[s[0]] + rest[0]] + rest[1..];
        if |rest| == 1 {
          assert r == [[s[0]] + rest[0]];
        } else {
          assert r[1..] == rest[1..];
          assert Join(rest, c) == rest[0] + [c] + Join(rest[1..], c);
        }
      }
    }
  }

  /** Splitting pieces that do not contain the separator, once joined, gives the pieces back. */
  lemma {:induction false} JoinSplit(ps: seq<string>, c: char)
    requires |ps| > 0
    requires forall k :: 0 <= k < |ps| ==> c !in ps[k]
    ensures Split(Join(ps, c), c) == ps
  {
    if |ps| == 1 {
      SplitPlain(ps[0], [], c);
      assert ps[0] + [] == ps[0];
    } else {
      var q := Join(ps[1..], c);
      JoinSplit(ps[1..], c);
      SplitSeparator(q, c);
      SplitPlain(ps[0], [c] + q, c);
      assert ps[0] + [c] + q == ps[0] + ([c] + q);
      assert ps[0] + [] == ps[0];
      assert ps == [ps[0]] + ps[1..];
    }
  }

  /** A leading separator splits off an empty first piece. */
  lemma SplitSeparator(q: string, c: char)
    ensures Split([c] + q, c) == [[]] + Split(q, c)
  {
    assert ([c] + q)[1..] == q;
  }

  /** A piece without the separator in front of `t` extends the first piece of `t`'s split. */
  lemma {:induction false} SplitPlain(p: string, t: string, c: char)
    requires c !in p
    ensures Split(p + t, c) == [p + Split(t, c)[0]] + Split(t, c)[1..]
  {
    if p != [] {
      var r := Split(t, c);
      SplitPlain(p[1..], t, c);
      assert (p + t)[1..] == p[1..] + t;
      var rest := Split(p[1..] + t, c);
      assert rest[0] == p[1..] + r[0] && rest[1..] == r[1..];
      assert [p[0]] + (p[1..] + r[0]) == p + r[0];
    } else {
      var r := Split(t, c);
      assert p + t == t && p + r[0] == r[0];
      assert r == [r[0]] + r[1..];
    }
  }

  /**
   * The value of a digit in any radix up to 16 (`0`-`9`, `a`-`f`, `A`-`F`);
   * 16 for a character that is no digit.
   */
  function DigitValue(c: char): (v: nat)
    ensures v <= 16
    ensures v < 10 <==> '0' <= c <= '9'
  {
    if '0' <= c <= '9' then (c as int) - ('0' as int)
    else if 'a' <= c <= 'f' then (c as int) - ('a' as int) + 10
    else if 'A' <= c <= 'F' then (c as int) - ('A' as int) + 10
    else 16
  }

  /** Every character of `ds` is a digit of radix `b`. */
  predicate AllDigits(ds: string, b: nat)
  {
    forall k :: 0 <= k < |ds| ==> DigitValue(ds[k]) < b
  }

  /** The value of the digit string `ds` in radix `b`, most significant digit first. */
  function DigitsValue(ds: string, b: nat): nat
    requires AllDigits(ds, b)
  {
    if ds == [] then 0
    else DigitsValue(ds[..|ds| - 1], b) * b + DigitValue(ds[|ds| - 1])
  }

  /** The longest prefix of `s` made of digits of radix `b`. */
  function DigitPrefix(s: string, b: nat): (r: string)
    ensures |r| <= |s| && r == s[..|r|]
    ensures AllDigits(r, b)
    ensures |r| < |s| ==> DigitValue(s[|r|]) >= b
  {
    if s != [] && DigitValue(s[0]) < b then [s[0]] + DigitPrefix(s[1..], b) else []
  }

  /** The decimal numeral of `n`, without leading zeros. */
  function NatString(n: nat): (r: string)
    ensures r != [] && AllDigits(r, 10)
    ensures |r| > 1 ==> r[0] != '0'
  {
    if n < 10 then ['0' + (n as char)]
    else NatString(n / 10) + ['0' + ((n % 10) as char)]
  }

  /** The decimal numeral of `n`, with a `-` in front when it is negative. */
  function IntString(n: int): string
  {
    if n < 0 then ['-'] + NatString(-n) else NatString(n)
  }

  /** Reading a numeral gives back the number. */
  lemma {:induction false} NatStringValue(n: nat)
    ensures DigitsValue(NatString(n), 10) == n
  {
    if n >= 10 {
      NatStringValue(n / 10);
      var s := NatString(n);
      assert s[..|s| - 1] == NatString(n / 10);
    }
  }

  /**
   * `Number(tok)` when the result is an integer written in decimal: after
   * trimming, the empty string is 0, and an optional sign followed by at
   * least one decimal digit is its value. Any other token is `None`: those
   * are `NaN` or, for the decimal-point, exponent, hexadecimal, octal,
   * binary and `Infinity` forms, values the parser treats as malformed.
   */
  function NumberValue(tok: string): Option<int>
  {
    var t := Trim(tok);
    if t == [] then Some(0)
    else if t[0] == '-' || t[0] == '+' then
      if |t| > 1 && AllDigits(t[1..], 10) then
        var v: int := DigitsValue(t[1..], 10);
        Some(if t[0] == '-' then -v else v)
      else None
    else if AllDigits(t, 10) then Some(DigitsValue(t, 10))
    else None
  }

  /** `Number` reads back every decimal numeral. */
  lemma NumberOfIntString(n: int)
    ensures NumberValue(IntString(n)) == Some(n)
  {
    var m: nat := if n < 0 then -n else n;
    var ds := NatString(m);
    NatStringValue(m);
    if n < 0 {
      NumberOfNegative(ds);
      assert IntString(n) == ['-'] + ds;
    } else {
      NumberOfDigits(ds);
      assert IntString(n) == ds;
    }
  }

  /** A digit is not white space. */
  lemma DigitNotSpace(c: char)
    requires DigitValue(c) < 10
    ensures !IsSpace(c)
  {
    assert '0' <= c <= '9';
  }

  /** `Number` of a run of decimal digits is its value. */
  lemma NumberOfDigits(ds: string)
    requires ds != [] && AllDigits(ds, 10)
    ensures NumberValue(ds) == Some(DigitsValue(ds, 10))
  {
    DigitNotSpace(ds[0]);
    DigitNotSpace(ds[|ds| - 1]);
    TrimNoSpace(ds);
    assert ds[0] != '-' && ds[0] != '+' by {
      assert DigitValue(ds[0]) < 10;
    }
  }

  /** `Number` of a `-` followed by a run of decimal digits is minus its value. */
  lemma NumberOfNegative(ds: string)
    requires ds != [] && AllDigits(ds, 10)
    ensures NumberValue(['-'] + ds) == Some(-(DigitsValue(ds, 10) as int))
  {
    var t := ['-'] + ds;
    DigitNotSpace(ds[|ds| - 1]);
    assert t[|t| - 1] == ds[|ds| - 1];
    TrimNoSpace(t);
    assert t[1..] == ds;
  }

  /**
   * `parseInt(tok)` without a radix: leading white space is skipped, then
   * an optional sign; after `0x` or `0X` the longest run of hexadecimal
   * digits is read, otherwise the longest run of decimal digits. With no
   * digit to read the result is `NaN`, here `None`.
   */
  function ParseIntPrefix(tok: string): Option<int>
  {
    var t := TrimStart(tok);
    if t != [] && (t[0] == '-' || t[0] == '+') then
      match UnsignedPrefix(t[1..])
      case None => None
      case Some(v) => var w: int := v; Some(if t[0] == '-' then -w else w)
    else
      match UnsignedPrefix(t)
      case None => None
      case Some(v) => Some(v)
  }

  /** The unsigned part of `parseInt`: a hexadecimal run after `0x`/`0X`, a decimal run otherwise. */
  function UnsignedPrefix(u: string): Option<nat>
  {
    if |u| >= 2 && u[0] == '0' && (u[1] == 'x' || u[1] == 'X') then ReadDigits(DigitPrefix(u[2..], 16), 16)
    else ReadDigits(DigitPrefix(u, 10), 10)
  }

  /** The value of a non-empty digit run; `None` (`NaN`) for an empty one. */
  function ReadDigits(ds: string, b: nat): Option<nat>
    requires AllDigits(ds, b)
  {
    if ds == [] then None else Some(DigitsValue(ds, b))
  }

  /**
   * `parseInt` reads the numeral at the front of a token and ignores what
   * follows it, as long as that does not continue the numeral.
   */
  lemma ParseIntOfIntString(n: int, rest: string)
    requires rest != [] ==> DigitValue(rest[0]) >= 10 && rest[0] != 'x' && rest[0] != 'X'
    ensures ParseIntPrefix(IntString(n) + rest) == Some(n)
  {
    var m := if n < 0 then -n else n;
    UnsignedOfNatString(m, rest);
    if n < 0 {
      ParseIntNegative(NatString(m), rest, m);
    } else {
      assert (NatString(m) + rest)[0] == NatString(m)[0];
      ParseIntUnsigned(NatString(m) + rest, m);
    }
  }

  /** `parseInt` of a `-` followed by an unsigned numeral. */
  lemma ParseIntNegative(ds: string, rest: string, m: nat)
    requires UnsignedPrefix(ds + rest) == Some(m)
    ensures ParseIntPrefix(['-'] + ds + rest) == Some(-(m as int))
  {
    var tok := ['-'] + ds + rest;
    TrimStartNoSpace(tok);
    assert tok[1..] == ds + rest;
  }

  /** `parseInt` of a token starting with a decimal digit. */
  lemma ParseIntUnsigned(tok: string, m: nat)
    requires tok != [] && DigitValue(tok[0]) < 10
    requires UnsignedPrefix(tok) == Some(m)
    ensures ParseIntPrefix(tok) == Some(m)
  {
    TrimStartNoSpace(tok);
    var t := TrimStart(tok);
    assert t == tok;
    assert !(t != [] && (t[0] == '-' || t[0] == '+'));
    assert ParseIntPrefix(tok) == match UnsignedPrefix(t) case None => None case Some(v) => Some(v);
  }

  /** The unsigned part of `parseInt` reads a numeral followed by a non-digit. */
  lemma UnsignedOfNatString(m: nat, rest: string)
    requires rest != [] ==> DigitValue(rest[0]) >= 10 && rest[0] != 'x' && rest[0] != 'X'
    ensures UnsignedPrefix(NatString(m) + rest) == Some(m)
  {
    var ds := NatString(m);
    var u := ds + rest;
    NatStringValue(m);
    DigitPrefixOf(ds, rest);
    assert u[0] == ds[0];
    assert !(|u| >= 2 && u[0] == '0' && (u[1] == 'x' || u[1] == 'X')) by {
      if |ds| == 1 && |u| >= 2 {
        assert u[1] == rest[0];
      }
    }
  }

  /** A string that does not start with white space is its own `TrimStart`. */
  lemma TrimStartNoSpace(s: string)
    requires s != [] && (s[0] == '-' || DigitValue(s[0]) < 10)
    ensures TrimStart(s) == s
  {
  }

  /** The digit prefix of a numeral followed by a non-digit is the numeral. */
  lemma {:induction false} DigitPrefixOf(ds: string, rest: string)
    requires AllDigits(ds, 10)
    requires rest != [] ==> DigitValue(rest[0]) >= 10
    ensures DigitPrefix(ds + rest, 10) == ds
  {
    if ds != [] {
      DigitPrefixOf(ds[1..], rest);
      assert (ds + rest)[1..] == ds[1..] + rest;
      assert ds == [ds[0]] + ds[1..];
    } else {
      assert ds + rest == rest;
    }
  }
}
