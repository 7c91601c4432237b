/**
 * The string primitives the pipeline leans on: JavaScript's
 * `String.prototype.indexOf`, `String.prototype.replace` with a string
 * pattern (first occurrence only), the decimal rendering of an integer
 * (`String(n)`, as used by `+` and `util.format("%s")`), and
 * `Array.prototype.join`, each paired with an inverse or reference
 * definition.
 */
module Text {

  /** `pat` occurs in `s` starting at index `i`. */
  predicate OccursAt(s: string, pat: string, i: int) {
    0 <= i && i + |pat| <= |s| && s[i..i + |pat|] == pat
  }

  /** `pat` occurs somewhere in `s`. */
  ghost predicate Contains(s: string, pat: string) {
    exists i :: OccursAt(s, pat, i)
  }

  lemma OccursShift(s: string, pat: string, i: int)
    requires |s| > 0 && 0 <= i
    ensures OccursAt(s[1..], pat, i) <==> OccursAt(s, pat, i + 1)
  {
    if 0 <= i && i + 1 + |pat| <= |s| {
      assert s[1..][i..i + |pat|] == s[i + 1..i + 1 + |pat|];
    }
  }

  /**
   * `s.indexOf(pat)`: the first index at which `pat` occurs, or -1 when it
   * occurs nowhere.
   */
  function IndexOf(s: string, pat: string): (r: int)
    ensures -1 <= r <= |s|
    ensures r == -1 <==> !Contains(s, pat)
    ensures r >= 0 ==> OccursAt(s, pat, r)
    ensures forall i :: 0 <= i < r ==> !OccursAt(s, pat, i)
    decreases |s|
  {
    if |pat| > |s| then
      assert forall i :: !OccursAt(s, pat, i);
      -1
    else if s[..|pat|] == pat then
      assert OccursAt(s, pat, 0);
      0
    else
      var k := IndexOf(s[1..], pat);
      IndexOfShift(s, pat, k);
      if k == -1 then -1 else k + 1
  }

  /**
   * Searching `s` when `pat` does not start at its first character: the
   * search of the rest, `k`, moves one position to the right.
   */
  lemma IndexOfShift(s: string, pat: string, k: int)
    requires |s| > 0 && !OccursAt(s, pat, 0)
    requires k == -1 <==> !Contains(s[1..], pat)
    requires k >= 0 ==> OccursAt(s[1..], pat, k)
    requires forall i :: 0 <= i < k ==> !OccursAt(s[1..], pat, i)
    ensures k == -1 ==> !Contains(s, pat)
    ensures k >= 0 ==> OccursAt(s, pat, k + 1)
    ensures forall i :: 0 <= i < k + 1 ==> !OccursAt(s, pat, i)
  {
    forall i | 0 <= i ensures OccursAt(s[1..], pat, i) <==> OccursAt(s, pat, i + 1) {
      OccursShift(s, pat, i);
    }
    forall i | 1 <= i ensures OccursAt(s, pat, i) ==> OccursAt(s[1..], pat, i - 1) {
      OccursShift(s, pat, i - 1);
    }
  }

  /** A pattern whose first character is absent from `a` cannot start inside `a`. */
  lemma NoOccurrenceInside(a: string, pat: string, b: string)
    requires |pat| > 0 && pat[0] !in a
    ensures forall i :: 0 <= i < |a| ==> !OccursAt(a + pat + b, pat, i)
  {
    var s := a + pat + b;
    forall i | 0 <= i < |a| ensures !OccursAt(s, pat, i) {
      assert a[i] in a;
      assert s[i..i + |pat|][0] == a[i] != pat[0];
    }
  }

  /** The index of the first occurrence, when the text before it cannot hold one. */
  lemma IndexOfSplit(a: string, pat: string, b: string)
    requires |pat| > 0 && pat[0] !in a
    ensures IndexOf(a + pat + b, pat) == |a|
  {
    var s := a + pat + b;
    NoOccurrenceInside(a, pat, b);
    assert s[|a|..|a| + |pat|] == pat;
    assert OccursAt(s, pat, |a|);
  }

  /** A pattern whose first character is absent from `s` does not occur in `s`. */
  lemma IndexOfAbsent(s: string, pat: string)
    requires |pat| > 0 && pat[0] !in s
    ensures IndexOf(s, pat) == -1
  {
    forall i | 0 <= i && i + |pat| <= |s| ensures !OccursAt(s, pat, i) {
      assert s[i] in s;
      assert s[i..i + |pat|][0] == s[i] != pat[0];
    }
  }

  /** `i` is the first index at which `pat` occurs in `s`. */
  ghost predicate FirstAt(s: string, pat: string, i: int) {
    OccursAt(s, pat, i) && forall j :: 0 <= j < i ==> !OccursAt(s, pat, j)
  }

  lemma FirstAtIsIndexOf(s: string, pat: string, i: int)
    requires FirstAt(s, pat, i)
    ensures IndexOf(s, pat) == i
  {
    var k := IndexOf(s, pat);
    assert k != -1;
    assert !(k < i) && !(i < k);
  }

  /**
   * `s.replace(pat, rep)` with a string pattern: only the first occurrence
   * of `pat` is replaced (see `ReplaceFirstAt` and `ReplaceFirstAbsent`).
   * JavaScript expands `$&`, `$$`, `` $` `` and `$'` in the replacement
   * text; a replacement without `$` is inserted literally, and that is the
   * only kind modelled.
   */
  function ReplaceFirst(s: string, pat: string, rep: string): string
    requires '$' !in rep
  {
    var i := IndexOf(s, pat);
    if i == -1 then s else s[..i] + rep + s[i + |pat|..]
  }

  /** Exactly the first occurrence of the pattern is replaced; the text around it is kept. */
  lemma ReplaceFirstAt(s: string, pat: string, rep: string, i: int)
    requires '$' !in rep
    requires FirstAt(s, pat, i)
    ensures ReplaceFirst(s, pat, rep) == s[..i] + rep + s[i + |pat|..]
  {
    FirstAtIsIndexOf(s, pat, i);
  }

  /** Without an occurrence of the pattern the string comes back unchanged. */
  lemma ReplaceFirstAbsent(s: string, pat: string, rep: string)
    requires '$' !in rep
    requires !Contains(s, pat)
    ensures ReplaceFirst(s, pat, rep) == s
  {
    assert IndexOf(s, pat) == -1;
  }

  /**
   * Replacing the first occurrence when the text before the pattern cannot
   * contain it: exactly that occurrence changes, and nothing around it.
   */
  lemma ReplaceFirstSplit(a: string, pat: string, b: string, rep: string)
    requires '$' !in rep
    requires |pat| > 0 && pat[0] !in a
    ensures ReplaceFirst(a + pat + b, pat, rep) == a + rep + b
  {
    var s := a + pat + b;
    IndexOfSplit(a, pat, b);
    NoOccurrenceInside(a, pat, b);
    assert s[|a|..|a| + |pat|] == pat;
    assert FirstAt(s, pat, |a|);
    ReplaceFirstAt(s, pat, rep, |a|);
    assert s[..|a|] == a;
    assert s[|a| + |pat|..] == b;
  }

  // ---------------------------------------------------------------------
  // Decimal rendering of integers

  predicate IsDigit(c: char) {
    '0' <= c <= '9'
  }

  function DigitChar(d: nat): (c: char)
    requires d < 10
    ensures IsDigit(c)
  {
    ('0' as int + d) as char
  }

  function DigitValue(c: char): nat {
    if IsDigit(c) then c as int - '0' as int else 0
  }

  /** The decimal digits of `n`, most significant first, without leading zeros. */
  function NatToString(n: nat): (r: string)
    ensures |r| >= 1
    ensures forall i :: 0 <= i < |r| ==> IsDigit(r[i])
    ensures |r| > 1 ==> r[0] != '0'
  {
    if n < 10 then [DigitChar(n)] else NatToString(n / 10) + [DigitChar(n % 10)]
  }

  /** `String(n)` for an integer `n`: a minus sign, then the digits of `|n|`. */
  function IntToString(n: int): (r: string)
    ensures |r| >= 1
    ensures forall i :: 0 <= i < |r| ==> IsDigit(r[i]) || (i == 0 && r[i] == '-')
    ensures r[0] == '-' <==> n < 0
  {
    if n < 0 then "-" + NatToString(-n) else NatToString(n)
  }

  /** The value of a string of decimal digits. */
  function ParseNat(s: string): nat
    decreases |s|
  {
    if |s| == 0 then 0 else ParseNat(s[..|s| - 1]) * 10 + DigitValue(s[|s| - 1])
  }

  /** The value of an optionally signed decimal string. */
  function ParseInt(s: string): int {
    if |s| > 0 && s[0] == '-' then -(ParseNat(s[1..]) as int) else ParseNat(s)
  }

  lemma {:induction false} ParseNatToString(n: nat)
    ensures ParseNat(NatToString(n)) == n
  {
    if n >= 10 {
      var s := NatToString(n);
      assert s[..|s| - 1] == NatToString(n / 10);
      ParseNatToString(n / 10);
    }
  }

  /** Decimal rendering round-trips: parsing `String(n)` gives back `n`. */
  lemma ParseIntToString(n: int)
    ensures ParseInt(IntToString(n)) == n
  {
    if n < 0 {
      assert IntToString(n)[1..] == NatToString(-n);
      ParseNatToString(-n);
    } else {
      ParseNatToString(n);
    }
  }

  /** Distinct integers render to distinct strings. */
  lemma IntToStringInjective(a: int, b: int)
    ensures IntToString(a) == IntToString(b) <==> a == b
  {
    if IntToString(a) == IntToString(b) {
      ParseIntToString(a);
      ParseIntToString(b);
    }
  }

  /** A rendered integer holds no character other than digits and '-'. */
  lemma IntToStringCharset(n: int, c: char)
    requires c != '-' && !IsDigit(c)
    ensures c !in IntToString(n)
  {
    var s := IntToString(n);
    assert forall i :: 0 <= i < |s| ==> s[i] != c;
  }

  // ---------------------------------------------------------------------
  // Joining with a separator

  /** `parts.join(sep)`. */
  function Join(parts: seq<string>, sep: char): string
    decreases |parts|
  {
    if |parts| == 0 then ""
    else if |parts| == 1 then parts[0]
    else parts[0] + [sep] + Join(parts[1..], sep)
  }

  /** `s.split(sep)`: the pieces between consecutive separators. */
  function Split(s: string, sep: char): (r: seq<string>)
    ensures |r| >= 1
    decreases |s|
  {
    var i := IndexOf(s, [sep]);
    if i == -1 then [s] else [s[..i]] + Split(s[i + 1..], sep)
  }

  /** Splitting text free of the separator gives it back whole. */
  lemma SplitNone(p: string, sep: char)
    requires sep !in p
    ensures Split(p, sep) == [p]
  {
    IndexOfAbsent(p, [sep]);
  }

  /** Splitting cuts at the first separator when the text before it holds none. */
  lemma SplitFirst(p: string, sep: char, rest: string)
    requires sep !in p
    ensures Split(p + [sep] + rest, sep) == [p] + Split(rest, sep)
  {
    var s := p + [sep] + rest;
    IndexOfSplit(p, [sep], rest);
    assert s[..|p|] == p;
    assert s[|p| + 1..] == rest;
  }

  /** Joining parts free of the separator can be undone by splitting. */
  lemma {:induction false} SplitJoin(parts: seq<string>, sep: char)
    requires |parts| >= 1
    requires forall k :: 0 <= k < |parts| ==> sep !in parts[k]
    ensures Split(Join(parts, sep), sep) == parts
  {
    if |parts| == 1 {
      SplitNone(parts[0], sep);
    } else {
      SplitFirst(parts[0], sep, Join(parts[1..], sep));
      SplitJoin(parts[1..], sep);
      assert parts == [parts[0]] + parts[1..];
    }
  }
}
