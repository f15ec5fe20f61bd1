/** Text helpers over `string` (= `seq<char>`): the JavaScript string methods
    the source uses (`trim`, `toLowerCase`, `split`, `join`, `startsWith`),
    SQLite's binary string order, and decimal rendering of integers.
    Only ASCII letters and ASCII whitespace are modelled. */
module Text {

  // ---------------------------------------------------------------------------
  // Character classes

  /** ASCII whitespace removed by `String.prototype.trim`. */
  predicate IsSpace(c: char) {
    c == ' ' || c == '\t' || c == '\n' || c == '\r' || c == '\U{B}' || c == '\U{C}'
  }

  predicate IsDigit(c: char) {
    '0' <= c <= '9'
  }

  predicate IsLowerAlnum(c: char) {
    ('a' <= c <= 'z') || IsDigit(c)
  }

  /** The regular expression `^[a-z0-9]+$`. */
  predicate IsAlnumWord(s: string) {
    |s| > 0 && forall i :: 0 <= i < |s| ==> IsLowerAlnum(s[i])
  }

  /** A character outside `[a-z0-9]` does not occur in a word. */
  lemma WordLacks(s: string, c: char)
    requires IsAlnumWord(s) && !IsLowerAlnum(c)
    ensures c !in s
  {
  }

  /** Every character is a decimal digit (the regular expression `\d` repeated). */
  predicate AllDigits(s: string) {
    forall i :: 0 <= i < |s| ==> IsDigit(s[i])
  }

  // ---------------------------------------------------------------------------
  // Trimming

  function TrimStart(s: string): (r: string)
    ensures |r| <= |s| && r == s[|s| - |r|..]
    ensures forall k :: 0 <= k < |s| - |r| ==> IsSpace(s[k])
    ensures r == [] || !IsSpace(r[0])
  {
    if |s| > 0 && IsSpace(s[0]) then TrimStart(s[1..]) else s
  }

  function TrimEnd(s: string): (r: string)
    ensures |r| <= |s| && r == s[..|r|]
    ensures forall k :: |r| <= k < |s| ==> IsSpace(s[k])
    ensures r == [] || !IsSpace(r[|r| - 1])
  {
    if |s| > 0 && IsSpace(s[|s| - 1]) then TrimEnd(s[..|s| - 1]) else s
  }

  /** No whitespace at either end. */
  predicate Unpadded(s: string) {
    s == [] || (!IsSpace(s[0]) && !IsSpace(s[|s| - 1]))
  }

  /** `String.prototype.trim`: drop leading and trailing whitespace. */
  function Trim(s: string): (r: string)
    ensures Unpadded(r)
    ensures |r| <= |s|
    ensures r == [] <==> forall k :: 0 <= k < |s| ==> IsSpace(s[k])
  {
    var t := TrimStart(s);
    SuffixSpaces(s, t);
    TrimEnd(t)
  }

  /** A suffix made of whitespace only leaves the whole string whitespace
      when the part before it is. */
  lemma SuffixSpaces(s: string, t: string)
    requires |t| <= |s| && t == s[|s| - |t|..]
    ensures (forall k :: 0 <= k < |s| - |t| ==> IsSpace(s[k])) && (forall k :: 0 <= k < |t| ==> IsSpace(t[k])) ==>
      forall k :: 0 <= k < |s| ==> IsSpace(s[k])
  {
    forall k | |s| - |t| <= k < |s| ensures s[k] == t[k - (|s| - |t|)] {
    }
  }

  /** A string with no surrounding whitespace is its own trim. */
  lemma TrimOfTrimmed(s: string)
    requires Unpadded(s)
    ensures Trim(s) == s
  {
  }

  lemma TrimIdempotent(s: string)
    ensures Trim(Trim(s)) == Trim(s)
  {
    TrimOfTrimmed(Trim(s));
  }

  /** A string of lower-case alphanumerics has nothing to trim. */
  lemma TrimOfWord(s: string)
    requires IsAlnumWord(s)
    ensures Trim(s) == s
  {
    TrimOfTrimmed(s);
  }

  // ---------------------------------------------------------------------------
  // ASCII lower-casing

  function LowerChar(c: char): (r: char)
    ensures 'A' <= c <= 'Z' ==> 'a' <= r <= 'z'
    ensures !('A' <= c <= 'Z') ==> r == c
  {
    if 'A' <= c <= 'Z' then (c as int - 'A' as int + 'a' as int) as char else c
  }

  /** `String.prototype.toLowerCase` restricted to ASCII. */
  function Lower(s: string): (r: string)
    ensures |r| == |s|
    ensures forall i :: 0 <= i < |s| ==> r[i] == LowerChar(s[i])
  {
    if s == [] then [] else [LowerChar(s[0])] + Lower(s[1..])
  }

  lemma LowerIdempotent(s: string)
    ensures Lower(Lower(s)) == Lower(s)
  {
  }

  /** Lower-casing leaves a lower-case alphanumeric word unchanged. */
  lemma LowerOfWord(s: string)
    requires IsAlnumWord(s)
    ensures Lower(s) == s
  {
  }

  /** Lower-casing never turns whitespace into something else or vice versa. */
  lemma LowerKeepsSpace(c: char)
    ensures IsSpace(LowerChar(c)) <==> IsSpace(c)
  {
  }

  // ---------------------------------------------------------------------------
  // Split and join

  /** `parts.join(sep)`. */
  function Join(parts: seq<string>, sep: string): (r: string)
    ensures |parts| == 1 ==> r == parts[0]
  {
    if |parts| == 0 then []
    else if |parts| == 1 then parts[0]
    else parts[0] + sep + Join(parts[1..], sep)
  }

  /** `s.split(sep)` for a one-character separator: always at least one
      segment, none containing the separator, and joining them back gives `s`. */
  function Split(s: string, sep: char): (r: seq<string>)
    ensures |r| >= 1
    ensures forall i :: 0 <= i < |r| ==> sep !in r[i]
    ensures Join(r, [sep]) == s
  {
    if s == [] then [[]]
    else if s[0] == sep then
      var rest := Split(s[1..], sep);
      assert [s[0]] + s[1..] == s;
      [[]] + rest
    else
      var rest := Split(s[1..], sep);
      var r := [[s[0]] + rest[0]] + rest[1..];
      assert r[1..] == rest[1..];
      assert [s[0]] + s[1..] == s;
      r
  }

  /** Splitting a string without the separator gives it back whole. */
  lemma {:induction false} SplitNoSep(s: string, sep: char)
    requires sep !in s
    ensures Split(s, sep) == [s]
  {
    if s != [] {
      SplitNoSep(s[1..], sep);
    }
  }

  /** Splitting `p + [sep] + t` where `p` has no separator peels `p` off. */
  lemma {:induction false} SplitCons(p: string, t: string, sep: char)
    requires sep !in p
    ensures Split(p + [sep] + t, sep) == [p] + Split(t, sep)
  {
    if p == [] {
      assert p + [sep] + t == [sep] + t;
      assert ([sep] + t)[1..] == t;
    } else {
      var s := p + [sep] + t;
      assert s[1..] == p[1..] + [sep] + t;
      SplitCons(p[1..], t, sep);
      assert [p[0]] + p[1..] == p;
    }
  }

  /** Split inverts Join when no part contains the separator. */
  lemma {:induction false} SplitJoin(parts: seq<string>, sep: char)
    requires |parts| >= 1
    requires forall i :: 0 <= i < |parts| ==> sep !in parts[i]
    ensures Split(Join(parts, [sep]), sep) == parts
  {
    if |parts| == 1 {
      SplitNoSep(parts[0], sep);
    } else {
      SplitJoin(parts[1..], sep);
      SplitCons(parts[0], Join(parts[1..], [sep]), sep);
      assert [parts[0]] + parts[1..] == parts;
    }
  }

  /** Splitting at one separator splits each side on its own. */
  lemma {:induction false} SplitAppend(a: string, b: string, sep: char)
    ensures Split(a + [sep] + b, sep) == Split(a, sep) + Split(b, sep)
    decreases |a|, 1
  {
    var s := a + [sep] + b;
    if a == [] {
      assert s == [sep] + b;
      assert s[1..] == b;
    } else if a[0] == sep {
      assert s[1..] == a[1..] + [sep] + b;
      SplitAppend(a[1..], b, sep);
    } else {
      SplitAppendChar(a, b, sep);
    }
  }

  /** The case of `SplitAppend` where `a` starts with another character,
      which joins the first part of the rest. */
  lemma {:induction false} SplitAppendChar(a: string, b: string, sep: char)
    requires a != [] && a[0] != sep
    ensures Split(a + [sep] + b, sep) == Split(a, sep) + Split(b, sep)
    decreases |a|, 0
  {
    var s := a + [sep] + b;
    assert s[1..] == a[1..] + [sep] + b;
    SplitAppend(a[1..], b, sep);
    SplitUnfold(a, sep);
    SplitUnfold(s, sep);
    ConsAppend([a[0]] + Split(a[1..], sep)[0], Split(a[1..], sep), Split(b, sep));
  }

  /** One step of `Split` on a string starting with another character. */
  lemma SplitUnfold(s: string, sep: char)
    requires s != [] && s[0] != sep
    ensures Split(s, sep) == [[s[0]] + Split(s[1..], sep)[0]] + Split(s[1..], sep)[1..]
  {
  }

  /** Replacing the head of `x + y` when `x` is not empty. */
  lemma ConsAppend<T>(h: T, x: seq<T>, y: seq<T>)
    requires x != []
    ensures [h] + (x + y)[1..] == ([h] + x[1..]) + y
  {
    assert (x + y)[1..] == x[1..] + y;
  }

  /** `s.split(sep)[0]`: the longest prefix of `s` without the separator. */
  function FirstSegment(s: string, sep: char): (r: string)
    ensures sep !in r && StartsWith(s, r)
    ensures r == s || (|r| < |s| && s[|r|] == sep)
  {
    SplitHead(s, sep);
    Split(s, sep)[0]
  }

  lemma {:induction false} SplitHead(s: string, sep: char)
    ensures var r := Split(s, sep)[0];
      StartsWith(s, r) && (r == s || (|r| < |s| && s[|r|] == sep))
  {
    if s != [] && s[0] != sep {
      SplitHead(s[1..], sep);
      var r := Split(s[1..], sep)[0];
      assert Split(s, sep)[0] == [s[0]] + r;
      assert [s[0]] + s[1..] == s;
    }
  }

  /** The first segment is the only separator-free prefix that ends at a
      separator or at the end of the string. */
  lemma FirstSegmentUnique(s: string, sep: char, r: string)
    requires sep !in r && StartsWith(s, r)
    requires r == s || (|r| < |s| && s[|r|] == sep)
    ensures FirstSegment(s, sep) == r
  {
    var f := FirstSegment(s, sep);
    if |f| != |r| {
      assert false;
    }
    assert f == s[..|f|];
  }

  /** The number of lines produced by Join is the number of parts. */
  lemma JoinLines(parts: seq<string>)
    requires |parts| >= 1
    requires forall i :: 0 <= i < |parts| ==> '\n' !in parts[i]
    ensures |Split(Join(parts, "\n"), '\n')| == |parts|
  {
    SplitJoin(parts, '\n');
  }

  /** A character occurs in a join only if it occurs in a part or the separator. */
  lemma {:induction false} JoinChars(parts: seq<string>, sep: string, c: char)
    requires c !in sep
    requires forall i :: 0 <= i < |parts| ==> c !in parts[i]
    ensures c !in Join(parts, sep)
  {
    if |parts| > 1 {
      JoinChars(parts[1..], sep, c);
    }
  }

  lemma JoinAppend(parts: seq<string>, last: string, sep: string)
    requires |parts| >= 1
    ensures Join(parts + [last], sep) == Join(parts, sep) + sep + last
  {
    if |parts| == 1 {
      assert (parts + [last])[1..] == [last];
    } else {
      assert (parts + [last])[1..] == parts[1..] + [last];
      JoinAppend(parts[1..], last, sep);
    }
  }

  /** Joining two non-empty lists of parts in one go is joining each and
      putting the separator between. */
  lemma {:induction false} JoinConcat(a: seq<string>, b: seq<string>, sep: string)
    requires |a| >= 1 && |b| >= 1
    ensures Join(a + b, sep) == Join(a, sep) + sep + Join(b, sep)
    decreases |a|
  {
    if |a| == 1 {
      assert (a + b)[1..] == b;
    } else {
      assert (a + b)[1..] == a[1..] + b;
      JoinConcat(a[1..], b, sep);
    }
  }

  // ---------------------------------------------------------------------------
  // Prefixes

  predicate StartsWith(s: string, prefix: string) {
    |prefix| <= |s| && s[..|prefix|] == prefix
  }

  // ---------------------------------------------------------------------------
  // Binary (code point) string order, as SQLite compares TEXT values

  /** Strict lexicographic order on strings. */
  predicate LexLt(a: string, b: string)
  {
    if |a| == 0 then |b| > 0
    else if |b| == 0 then false
    else a[0] < b[0] || (a[0] == b[0] && LexLt(a[1..], b[1..]))
  }

  predicate LexLe(a: string, b: string) {
    a == b || LexLt(a, b)
  }

  lemma {:induction false} LexIrreflexive(a: string)
    ensures !LexLt(a, a)
  {
    if |a| > 0 {
      LexIrreflexive(a[1..]);
    }
  }

  lemma {:induction false} LexAsymmetric(a: string, b: string)
    ensures LexLt(a, b) ==> !LexLt(b, a)
  {
    if |a| > 0 && |b| > 0 && a[0] == b[0] {
      LexAsymmetric(a[1..], b[1..]);
    }
  }

  lemma {:induction false} LexTransitive(a: string, b: string, c: string)
    requires LexLt(a, b) && LexLt(b, c)
    ensures LexLt(a, c)
  {
    if |a| > 0 && a[0] == b[0] && b[0] == c[0] {
      LexTransitive(a[1..], b[1..], c[1..]);
    }
  }

  lemma {:induction false} LexTotal(a: string, b: string)
    ensures a == b || LexLt(a, b) || LexLt(b, a)
  {
    if |a| > 0 && |b| > 0 && a[0] == b[0] {
      LexTotal(a[1..], b[1..]);
      if a[1..] == b[1..] {
        assert a == [a[0]] + a[1..] && b == [b[0]] + b[1..];
      }
    }
  }

  /** `String.prototype.localeCompare` restricted to the binary order: -1, 0 or 1. */
  function LexCompare(a: string, b: string): (r: int)
    ensures r == 0 <==> a == b
    ensures r < 0 <==> LexLt(a, b)
    ensures r > 0 <==> LexLt(b, a)
  {
    LexIrreflexive(a);
    LexAsymmetric(a, b);
    LexTotal(a, b);
    if a == b then 0 else if LexLt(a, b) then -1 else 1
  }

  // ---------------------------------------------------------------------------
  // Decimal rendering of integers (template-string interpolation of a number)

  function DigitChar(d: nat): (c: char)
    requires d < 10
    ensures IsDigit(c)
  {
    ('0' as int + d) as char
  }

  function DigitValue(c: char): (d: nat)
    requires IsDigit(c)
    ensures d < 10
  {
    c as int - '0' as int
  }

  function NatToString(n: nat): (r: string)
    ensures |r| >= 1 && AllDigits(r)
  {
    if n < 10 then [DigitChar(n)] else NatToString(n / 10) + [DigitChar(n % 10)]
  }

  /** Reads back a string of decimal digits. */
  function ParseDigits(s: string): (n: nat)
    requires AllDigits(s)
  {
    if s == [] then 0 else 10 * ParseDigits(s[..|s| - 1]) + DigitValue(s[|s| - 1])
  }

  /** Decimal rendering round-trips, so it is injective. */
  lemma {:induction false} ParseNatToString(n: nat)
    ensures ParseDigits(NatToString(n)) == n
  {
    if n >= 10 {
      var s := NatToString(n);
      assert s[..|s| - 1] == NatToString(n / 10);
      ParseNatToString(n / 10);
    }
  }

  function IntToString(i: int): (r: string)
    ensures |r| >= 1
    ensures forall k :: 0 <= k < |r| ==> IsDigit(r[k]) || (k == 0 && r[k] == '-')
  {
    if i < 0 then "-" + NatToString(-i) else NatToString(i)
  }

  /** Only negative numbers render with a leading minus sign. */
  lemma IntToStringSign(i: int)
    ensures IntToString(i)[0] == '-' <==> i < 0
  {
    if i >= 0 {
      assert IsDigit(NatToString(i)[0]);
    }
  }

  lemma IntToStringInjective(a: int, b: int)
    requires IntToString(a) == IntToString(b)
    ensures a == b
  {
    IntToStringSign(a);
    IntToStringSign(b);
    if a < 0 {
      NegativeToStringInjective(a, b);
    } else {
      NatToStringInjective(a, b);
    }
  }

  lemma NatToStringInjective(m: nat, n: nat)
    requires NatToString(m) == NatToString(n)
    ensures m == n
  {
    ParseNatToString(m);
    ParseNatToString(n);
  }

  lemma NegativeToStringInjective(a: int, b: int)
    requires a < 0 && b < 0 && IntToString(a) == IntToString(b)
    ensures a == b
  {
    assert NatToString(-a) == IntToString(a)[1..];
    assert NatToString(-b) == IntToString(b)[1..];
    NatToStringInjective(-a, -b);
  }
}
