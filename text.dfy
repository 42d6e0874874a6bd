/** The handful of Python string operations the deployment tool relies on:
    startswith, split on one separator character, strip with a character set,
    and str() of an integer, each with an independent characterisation. */
module Text {
  import opened Wrappers

  /** Concatenation is associative, at any element type. */
  lemma Associative<T>(a: seq<T>, b: seq<T>, c: seq<T>)
    ensures a + b + c == a + (b + c)
  {
  }

  /** A prefix of a prefix is a prefix. */
  lemma PrefixOfPrefix<T>(s: seq<T>, p: nat, n: nat)
    requires p <= n <= |s|
    ensures s[..n][..p] == s[..p] && (p < n ==> s[..n][p] == s[p])
  {
  }

  /** The prefix as long as the sequence is the sequence. */
  lemma PrefixAll<T>(s: seq<T>)
    ensures s[..|s|] == s
  {
  }

  /** Cutting at 0 leaves nothing before and everything after. */
  lemma SliceZero<T>(s: seq<T>)
    ensures s[..0] == [] && s[0..] == s
  {
  }

  predicate HasPrefix(s: string, p: string) {
    |p| <= |s| && s[..|p|] == p
  }

  /** Position of the first occurrence of `c` in `s`. */
  function IndexOf(s: string, c: char): (r: nat)
    requires c in s
    ensures r < |s| && s[r] == c && c !in s[..r]
  {
    if s[0] == c then 0 else 1 + IndexOf(s[1..], c)
  }

  lemma {:induction false} IndexOfUnique(s: string, c: char, i: nat)
    requires i < |s| && s[i] == c && c !in s[..i]
    ensures IndexOf(s, c) == i
    decreases i
  {
    if i > 0 {
      assert s[0] == s[..i][0];
      assert s[1..][..i - 1] == s[..i][1..];
      IndexOfUnique(s[1..], c, i - 1);
    }
  }

  /** Python's `s.split(sep)` for a one-character separator: the pieces
      between separators, empty pieces included. */
  function Split(s: string, sep: char): (r: seq<string>)
    ensures |r| >= 1
    decreases |s|
  {
    if sep !in s then [s]
    else
      var i := IndexOf(s, sep);
      [s[..i]] + Split(s[i + 1..], sep)
  }

  /** No piece holds the separator. */
  lemma {:induction false} SplitPieces(s: string, sep: char)
    ensures forall k :: 0 <= k < |Split(s, sep)| ==> sep !in Split(s, sep)[k]
    decreases |s|
  {
    if sep in s {
      var i := IndexOf(s, sep);
      SplitPieces(s[i + 1..], sep);
    }
  }

  /** The slices of a sequence around one position. */
  lemma Around<T>(s: seq<T>, i: nat)
    requires i < |s|
    ensures s == s[..i] + [s[i]] + s[i + 1..]
  {
  }

  /** The slices of `x + m + y` at a position inside `x`. */
  lemma InsideLeft<T>(x: seq<T>, m: seq<T>, y: seq<T>, i: nat)
    requires i < |x|
    ensures (x + m + y)[..i] == x[..i] && (x + m + y)[i] == x[i]
    ensures (x + m + y)[i + 1..] == x[i + 1..] + m + y
  {
  }

  /** The slices of `x + [c] + y` at the inserted element. */
  lemma AtInserted<T>(x: seq<T>, c: T, y: seq<T>)
    ensures (x + [c] + y)[..|x|] == x && (x + [c] + y)[|x|] == c
    ensures (x + [c] + y)[|x| + 1..] == y
  {
  }

  /** A string without the separator is its own single piece. */
  lemma SplitWhole(s: string, sep: char)
    requires sep !in s
    ensures Split(s, sep) == [s]
  {
  }

  /** Python's `sep.join(parts)`, the inverse of Split. */
  function Join(parts: seq<string>, sep: char): string
    requires |parts| >= 1
  {
    if |parts| == 1 then parts[0] else parts[0] + [sep] + Join(parts[1..], sep)
  }

  lemma {:induction false} JoinSplit(s: string, sep: char)
    ensures Join(Split(s, sep), sep) == s
    decreases |s|
  {
    if sep in s {
      var i := IndexOf(s, sep);
      JoinSplit(s[i + 1..], sep);
      Around(s, i);
    }
  }

  /** Where the first separator sits, Split cuts. */
  lemma SplitAt(s: string, sep: char, i: nat)
    requires i < |s| && s[i] == sep && sep !in s[..i]
    ensures Split(s, sep) == [s[..i]] + Split(s[i + 1..], sep)
  {
    IndexOfUnique(s, sep, i);
  }

  /** Splitting at a separator placed between two strings splits each side. */
  lemma {:induction false} SplitConcat(x: string, sep: char, y: string)
    ensures Split(x + [sep] + y, sep) == Split(x, sep) + Split(y, sep)
    decreases |x|
  {
    if sep !in x {
      SplitAtInserted(x, sep, y);
      SplitWhole(x, sep);
    } else {
      SplitConcat(x[IndexOf(x, sep) + 1..], sep, y);
      SplitConcatStep(x, sep, y);
    }
  }

  /** The inductive step of SplitConcat: the claim for what follows the
      first separator of `x` gives it for `x`. */
  lemma SplitConcatStep(x: string, sep: char, y: string)
    requires sep in x
    requires var rest := x[IndexOf(x, sep) + 1..];
      Split(rest + [sep] + y, sep) == Split(rest, sep) + Split(y, sep)
    ensures Split(x + [sep] + y, sep) == Split(x, sep) + Split(y, sep)
  {
    var i := IndexOf(x, sep);
    var rest := x[i + 1..];
    SplitAtFirst(x, sep, y);
    SplitAt(x, sep, i);
    Associative([x[..i]], Split(rest, sep), Split(y, sep));
  }

  /** With no separator in `x`, the first piece of `x + [sep] + y` is `x`. */
  lemma SplitAtInserted(x: string, sep: char, y: string)
    requires sep !in x
    ensures Split(x + [sep] + y, sep) == [x] + Split(y, sep)
  {
    AtInserted(x, sep, y);
    SplitAt(x + [sep] + y, sep, |x|);
  }

  /** Otherwise the first piece ends at the first separator of `x`. */
  lemma SplitAtFirst(x: string, sep: char, y: string)
    requires sep in x
    ensures var i := IndexOf(x, sep);
      Split(x + [sep] + y, sep) == [x[..i]] + Split(x[i + 1..] + [sep] + y, sep)
  {
    var i := IndexOf(x, sep);
    InsideLeft(x, [sep], y, i);
    SplitAt(x + [sep] + y, sep, i);
  }

  /** `s.split(',')[0]`: everything before the first comma. */
  function BeforeComma(s: string): (r: string)
    ensures ',' !in r
    ensures HasPrefix(s, r)
    ensures |r| == |s| || s[|r|] == ','
  {
    if ',' in s then s[..IndexOf(s, ',')] else s
  }

  // ---------------------------------------------------------------------
  // str.strip(chars): removes every leading and trailing character that is
  // in the set `cs` (a character set, not a prefix).

  function LStrip(s: string, cs: set<char>): (r: string)
    ensures |r| <= |s| && r == s[|s| - |r|..]
    ensures forall k :: 0 <= k < |s| - |r| ==> s[k] in cs
    ensures r == [] || r[0] !in cs
  {
    if |s| > 0 && s[0] in cs then LStrip(s[1..], cs) else s
  }

  function RStrip(s: string, cs: set<char>): (r: string)
    ensures |r| <= |s| && r == s[..|r|]
    ensures forall k :: |r| <= k < |s| ==> s[k] in cs
    ensures r == [] || r[|r| - 1] !in cs
  {
    if |s| > 0 && s[|s| - 1] in cs then RStrip(s[..|s| - 1], cs) else s
  }

  function Strip(s: string, cs: set<char>): (r: string)
    ensures exists i, j :: 0 <= i <= j <= |s| && r == s[i..j]
                           && (forall k :: 0 <= k < i ==> s[k] in cs)
                           && (forall k :: j <= k < |s| ==> s[k] in cs)
    ensures r == [] || (r[0] !in cs && r[|r| - 1] !in cs)
  {
    var l := LStrip(s, cs);
    var r := RStrip(l, cs);
    assert r == s[|s| - |l|..|s| - |l| + |r|];
    r
  }

  /** Stripping a prefix made only of stripped characters gives the same
      result as stripping the rest. */
  lemma {:induction false} LStripPrefix(p: string, s: string, cs: set<char>)
    requires forall k :: 0 <= k < |p| ==> p[k] in cs
    ensures LStrip(p + s, cs) == LStrip(s, cs)
    decreases |p|
  {
    if |p| > 0 {
      assert (p + s)[1..] == p[1..] + s;
      LStripPrefix(p[1..], s, cs);
    } else {
      assert p + s == s;
    }
  }

  /** `("bridge=" + b).strip("bridge=")` gives `b` back whenever `b` neither
      starts nor ends with one of the characters b, r, i, d, g, e, =. */
  lemma StripBridgeSetting(b: string)
    requires |b| > 0 && b[0] !in BridgeChars && b[|b| - 1] !in BridgeChars
    ensures Strip("bridge=" + b, BridgeChars) == b
  {
    LStripPrefix("bridge=", b, BridgeChars);
  }

  const BridgeChars: set<char> := {'b', 'r', 'i', 'd', 'g', 'e', '='}

  // ---------------------------------------------------------------------
  // str() of an integer, and a decimal parser that undoes it.

  predicate IsDigit(c: char) {
    '0' <= c <= '9'
  }

  function DigitChar(d: nat): (c: char)
    requires d < 10
    ensures IsDigit(c) && c as int - '0' as int == d
  {
    ('0' as int + d) as char
  }

  /** `str(n)` for a natural number: decimal digits, no leading zero. */
  function NatToString(n: nat): (r: string)
    ensures |r| >= 1
    ensures forall k :: 0 <= k < |r| ==> IsDigit(r[k])
    ensures n > 0 ==> r[0] != '0'
    decreases n
  {
    if n < 10 then [DigitChar(n)] else NatToString(n / 10) + [DigitChar(n % 10)]
  }

  /** `str(i)` for any integer: a minus sign before the digits of a negative number. */
  function IntToString(i: int): string {
    if i < 0 then "-" + NatToString(-i) else NatToString(i)
  }

  function ParseDigits(s: string): (r: Option<nat>)
    ensures r.Some? <==> |s| >= 1 && forall k :: 0 <= k < |s| ==> IsDigit(s[k])
    decreases |s|
  {
    if |s| == 0 || !IsDigit(s[|s| - 1]) then None
    else if |s| == 1 then Some(s[0] as int - '0' as int)
    else match ParseDigits(s[..|s| - 1])
      case None => None
      case Some(h) => Some(h * 10 + (s[|s| - 1] as int - '0' as int))
  }

  /** `int(s)` restricted to an optional minus sign and decimal digits. */
  function ParseInt(s: string): Option<int> {
    if |s| >= 1 && s[0] == '-' then
      match ParseDigits(s[1..])
      case None => None
      case Some(n) => Some(-(n as int))
    else
      match ParseDigits(s)
      case None => None
      case Some(n) => Some(n)
  }

  lemma {:induction false} ParseNatToString(n: nat)
    ensures ParseDigits(NatToString(n)) == Some(n)
    decreases n
  {
    if n >= 10 {
      var s := NatToString(n);
      ParseNatToString(n / 10);
      assert s[..|s| - 1] == NatToString(n / 10);
    }
  }

  lemma ParseIntToString(i: int)
    ensures ParseInt(IntToString(i)) == Some(i)
  {
    if i < 0 {
      ParseNegative(-i);
    } else {
      ParseNonNegative(i);
    }
  }

  lemma ParseNegative(n: nat)
    ensures ParseInt("-" + NatToString(n)) == Some(-(n as int))
  {
    var s := "-" + NatToString(n);
    ParseNatToString(n);
    assert s[1..] == NatToString(n);
  }

  lemma ParseNonNegative(n: nat)
    ensures ParseInt(NatToString(n)) == Some(n)
  {
    var s := NatToString(n);
    ParseNatToString(n);
    assert IsDigit(s[0]);
  }

  /** Two integers with the same decimal text are equal. */
  lemma IntToStringInjective(a: int, b: int)
    requires IntToString(a) == IntToString(b)
    ensures a == b
  {
    ParseIntToString(a);
    ParseIntToString(b);
  }

  lemma NatToStringInjective(a: nat, b: nat)
    requires NatToString(a) == NatToString(b)
    ensures a == b
  {
    ParseNatToString(a);
    ParseNatToString(b);
  }
}
