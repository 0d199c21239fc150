/**
  The handful of PHP string builtins the harvester relies on, stated over
  `seq<char>`: `trim`, `str_replace` with an empty replacement, a one-character
  `str_replace`, `explode`/`implode`, `substr` with a negative start, and the
  decimal rendering PHP uses when an `int` is concatenated to a string.
 */
module PhpStrings {
  import opened Wrappers

  /** The characters PHP's `trim` strips by default: " \t\n\r\0\x0B". */
  predicate IsTrimChar(c: char) {
    c == ' ' || c == '\t' || c == '\n' || c == '\r' || c == '\0' || c == '\U{B}'
  }

  predicate AllTrimChars(s: string) {
    forall i :: 0 <= i < |s| ==> IsTrimChar(s[i])
  }

  /** Neither end of `s` is a trim character. */
  predicate Trimmed(s: string) {
    s == [] || (!IsTrimChar(s[0]) && !IsTrimChar(s[|s| - 1]))
  }

  /** The end of the run of trim characters that starts at `i`. */
  function LeadEnd(s: string, i: nat): (k: nat)
    requires i <= |s|
    ensures i <= k <= |s|
    ensures forall j :: i <= j < k ==> IsTrimChar(s[j])
    ensures k < |s| ==> !IsTrimChar(s[k])
    decreases |s| - i
  {
    if i < |s| && IsTrimChar(s[i]) then LeadEnd(s, i + 1) else i
  }

  /** The start of the run of trim characters that ends at `e`, not going below `lo`. */
  function TailStart(s: string, lo: nat, e: nat): (k: nat)
    requires lo <= e <= |s|
    ensures lo <= k <= e
    ensures forall j :: k <= j < e ==> IsTrimChar(s[j])
    ensures k > lo ==> !IsTrimChar(s[k - 1])
    decreases e
  {
    if e > lo && IsTrimChar(s[e - 1]) then TailStart(s, lo, e - 1) else e
  }

  /** How many trim characters `trim` removes from the front of `s`. */
  function TrimStart(s: string): (k: nat)
    ensures k <= |s|
    ensures forall j :: 0 <= j < k ==> IsTrimChar(s[j])
    ensures k < |s| ==> !IsTrimChar(s[k])
  {
    LeadEnd(s, 0)
  }

  /**
    PHP `trim($s)`: the result is a slice of `s`, with nothing but trim
    characters before and after it, and neither of its ends is one.
   */
  function Trim(s: string): (r: string)
    ensures Trimmed(r)
    ensures TrimStart(s) + |r| <= |s|
    ensures r == s[TrimStart(s)..TrimStart(s) + |r|]
    ensures forall j :: TrimStart(s) + |r| <= j < |s| ==> IsTrimChar(s[j])
  {
    var a := TrimStart(s);
    var b := TailStart(s, a, |s|);
    assert a < b ==> s[a..b][0] == s[a] && s[a..b][b - a - 1] == s[b - 1];
    s[a..b]
  }

  /** The leading run is determined by where the first non-trim character sits. */
  lemma LeadEndAt(s: string, k: nat)
    requires k <= |s|
    requires forall j :: 0 <= j < k ==> IsTrimChar(s[j])
    requires k < |s| ==> !IsTrimChar(s[k])
    ensures TrimStart(s) == k
  {
  }

  /** The trailing run is determined by where the last non-trim character sits. */
  lemma TailStartAt(s: string, lo: nat, k: nat)
    requires lo <= k <= |s|
    requires forall j :: k <= j < |s| ==> IsTrimChar(s[j])
    requires k > lo ==> !IsTrimChar(s[k - 1])
    ensures TailStart(s, lo, |s|) == k
  {
  }

  /** Trimming ignores any padding made of trim characters around an already trimmed text. */
  lemma TrimPadded(left: string, m: string, right: string)
    requires AllTrimChars(left) && AllTrimChars(right) && Trimmed(m)
    ensures Trim(left + m + right) == m
  {
    var t := left + m + right;
    var a, e := |left|, |left| + |m|;
    assert forall j :: 0 <= j < a ==> t[j] == left[j];
    assert forall j :: e <= j < |t| ==> t[j] == right[j - e];
    if m == [] {
      LeadEndAt(t, |t|);
      TailStartAt(t, |t|, |t|);
    } else {
      assert t[a] == m[0] && t[e - 1] == m[|m| - 1];
      LeadEndAt(t, a);
      TailStartAt(t, a, e);
      assert t[a..e] == m;
    }
  }

  /** `trim` is idempotent. */
  lemma TrimIdempotent(s: string)
    ensures Trim(Trim(s)) == Trim(s)
  {
    TrimPadded([], Trim(s), []);
    assert [] + Trim(s) + [] == Trim(s);
  }

  predicate StartsWith(s: string, prefix: string) {
    |prefix| <= |s| && s[..|prefix|] == prefix
  }

  predicate EndsWith(s: string, suffix: string) {
    |suffix| <= |s| && s[|s| - |suffix|..] == suffix
  }

  /** PHP `substr($s, -n)` for n > 0: the last n characters, or all of `s` when it is shorter. */
  function SubstrTail(s: string, n: nat): (r: string)
    ensures |r| == if |s| >= n then n else |s|
    ensures r == s[|s| - |r|..]
  {
    if |s| >= n then s[|s| - n..] else s
  }

  /** Comparing `substr($s, -|suffix|)` with `suffix` is exactly a suffix test. */
  lemma SubstrTailIsEndsWith(s: string, suffix: string)
    ensures SubstrTail(s, |suffix|) == suffix <==> EndsWith(s, suffix)
  {
  }

  /** `p` occurs in `s` starting at index `i`. */
  predicate OccursAt(s: string, p: string, i: nat) {
    i + |p| <= |s| && s[i..i + |p|] == p
  }

  predicate Occurs(s: string, p: string) {
    exists i: nat :: i <= |s| && OccursAt(s, p, i)
  }

  /**
    PHP `str_replace($p, '', $s)`: every non-overlapping occurrence of `p`,
    found left to right, is deleted; the output is not rescanned. An empty
    search string leaves the subject as it is.
   */
  function RemoveAll(s: string, p: string): (r: string)
    ensures |r| <= |s|
    ensures multiset(r) <= multiset(s)
    ensures p == [] ==> r == s
    ensures !Occurs(s, p) ==> r == s
    decreases |s|
  {
    if p == [] || |s| < |p| then s
    else if s[..|p|] == p then
      assert OccursAt(s, p, 0);
      assert s == s[..|p|] + s[|p|..];
      RemoveAll(s[|p|..], p)
    else
      assert s == [s[0]] + s[1..];
      assert forall i: nat :: i <= |s[1..]| && OccursAt(s[1..], p, i) ==> OccursAt(s, p, i + 1) by {
        forall i: nat | i <= |s[1..]| && OccursAt(s[1..], p, i) ensures OccursAt(s, p, i + 1) {
          assert s[1..][i..i + |p|] == s[i + 1..i + 1 + |p|];
        }
      }
      [s[0]] + RemoveAll(s[1..], p)
  }

  /** A search string at the very start is deleted, and the scan resumes right after it. */
  lemma RemoveAllHead(p: string, y: string)
    requires p != []
    ensures RemoveAll(p + y, p) == RemoveAll(y, p)
  {
    var s := p + y;
    assert s[..|p|] == p;
    assert s[|p|..] == y;
  }

  /** A character at which no occurrence starts is kept, and the scan moves on by one. */
  lemma RemoveAllStep(s: string, p: string)
    requires p != [] && s != [] && !OccursAt(s, p, 0)
    ensures RemoveAll(s, p) == [s[0]] + RemoveAll(s[1..], p)
  {
    if |s| < |p| {
      assert RemoveAll(s[1..], p) == s[1..];
      assert s == [s[0]] + s[1..];
    } else {
      assert s[0..0 + |p|] == s[..|p|];
    }
  }

  lemma CleanTail(s: string, p: string, n: nat)
    requires 0 < n <= |s|
    requires forall i :: 0 <= i < n ==> !OccursAt(s, p, i)
    ensures forall i :: 0 <= i < n - 1 ==> !OccursAt(s[1..], p, i)
  {
    forall i | 0 <= i < n - 1 ensures !OccursAt(s[1..], p, i) {
      assert !OccursAt(s, p, i + 1);
      if i + |p| <= |s[1..]| {
        assert s[1..][i..i + |p|] == s[i + 1..i + 1 + |p|];
      }
    }
  }

  /** Taking `n` characters is taking the first and then `n - 1` of the rest. */
  lemma TakeCons(s: string, n: nat)
    requires 0 < n <= |s|
    ensures s[..n] == [s[0]] + s[1..][..n - 1]
    ensures s[1..][n - 1..] == s[n..]
  {
  }

  /** One step of `RemoveAllClean`: a kept first character joins the kept prefix. */
  lemma RemoveAllCleanStep(s: string, p: string, n: nat)
    requires p != [] && 0 < n <= |s| && !OccursAt(s, p, 0)
    requires RemoveAll(s[1..], p) == s[1..][..n - 1] + RemoveAll(s[1..][n - 1..], p)
    ensures RemoveAll(s, p) == s[..n] + RemoveAll(s[n..], p)
  {
    RemoveAllStep(s, p);
    TakeCons(s, n);
    ConsAssoc(s[0], s[1..][..n - 1], RemoveAll(s[n..], p));
  }

  lemma ConsAssoc<T>(x: T, a: seq<T>, b: seq<T>)
    ensures [x] + (a + b) == ([x] + a) + b
  {
  }

  /** The first `n` characters, at none of which an occurrence starts, are kept, and the scan goes on after them. */
  lemma {:induction false} RemoveAllClean(s: string, p: string, n: nat)
    requires p != [] && n <= |s|
    requires forall i :: 0 <= i < n ==> !OccursAt(s, p, i)
    ensures RemoveAll(s, p) == s[..n] + RemoveAll(s[n..], p)
    decreases n
  {
    if n == 0 {
      assert s[..0] + s[0..] == s[0..];
    } else {
      CleanTail(s, p, n);
      RemoveAllClean(s[1..], p, n - 1);
      RemoveAllCleanStep(s, p, n);
    }
  }

  /**
    The leftmost occurrence of a search string of any length is deleted: when
    `p` does not occur in `a` or straddle the end of `a`, everything before
    the occurrence is kept and the scan goes on after it.
   */
  lemma RemoveAllLeftmost(a: string, p: string, b: string)
    requires p != [] && !Occurs(a + p[..|p| - 1], p)
    ensures RemoveAll(a + p + b, p) == a + RemoveAll(b, p)
  {
    var s := a + (p + b);
    assert a + p + b == s;
    forall i | 0 <= i < |a| ensures !OccursAt(s, p, i) {
      if OccursAt(s, p, i) {
        var t := a + p[..|p| - 1];
        assert s[i..i + |p|] == t[i..i + |p|];
        assert OccursAt(t, p, i);
      }
    }
    RemoveAllClean(s, p, |a|);
    assert s[..|a|] == a && s[|a|..] == p + b;
    RemoveAllHead(p, b);
  }

  /** `s` with every copy of `c` left out, order kept. */
  function Without(s: string, c: char): (r: string)
    ensures c !in r
    ensures |r| + multiset(s)[c] == |s|
  {
    if s == [] then []
    else
      assert s == [s[0]] + s[1..];
      (if s[0] == c then [] else [s[0]]) + Without(s[1..], c)
  }

  lemma {:induction false} WithoutConcat(x: string, y: string, c: char)
    ensures Without(x + y, c) == Without(x, c) + Without(y, c)
    decreases |x|
  {
    if x == [] {
      assert x + y == y;
    } else {
      assert (x + y)[1..] == x[1..] + y;
      assert (x + y)[0] == x[0];
      WithoutConcat(x[1..], y, c);
    }
  }

  lemma {:induction false} WithoutAbsent(s: string, c: char)
    ensures c !in s ==> Without(s, c) == s
    decreases |s|
  {
    if s != [] && c !in s {
      WithoutAbsent(s[1..], c);
    }
  }

  /** Deleting a one-character search string is the same as filtering that character out. */
  lemma {:induction false} RemoveAllChar(s: string, c: char)
    ensures RemoveAll(s, [c]) == Without(s, c)
    decreases |s|
  {
    if |s| != 0 {
      RemoveAllChar(s[1..], c);
      assert s[..1] == [s[0]];
      if s[0] == c {
        assert RemoveAll(s, [c]) == RemoveAll(s[|[c]|..], [c]);
      } else {
        assert s[..|[c]|] != [c];
        assert RemoveAll(s, [c]) == [s[0]] + RemoveAll(s[1..], [c]);
      }
    }
  }

  /** PHP `str_replace([$a], $b, $s)` for single characters `a` and `b`. */
  function ReplaceChar(s: string, a: char, b: char): (r: string)
    ensures |r| == |s|
    ensures forall i :: 0 <= i < |r| && s[i] != a ==> r[i] == s[i]
    ensures forall i :: 0 <= i < |r| && s[i] == a ==> r[i] == b
    ensures a != b ==> a !in r
  {
    if s == [] then []
    else [if s[0] == a then b else s[0]] + ReplaceChar(s[1..], a, b)
  }

  /** Replacing `a` by a fresh character `b` loses nothing: replacing back restores the input. */
  lemma {:induction false} ReplaceCharInvertible(s: string, a: char, b: char)
    requires b !in s
    ensures ReplaceChar(ReplaceChar(s, a, b), b, a) == s
    decreases |s|
  {
    if s != [] {
      ReplaceCharInvertible(s[1..], a, b);
      assert ReplaceChar(s, a, b)[1..] == ReplaceChar(s[1..], a, b);
    }
  }

  /** Two equations between strings, chained. */
  lemma SameText(a: string, b: string, c: string)
    requires a == b && b == c
    ensures a == c
  {
  }

  /** PHP `implode('', $parts)`: the strings run together. */
  function Concat(cs: seq<string>): string {
    if |cs| == 0 then "" else cs[0] + Concat(cs[1..])
  }

  /** PHP `implode($sep, $parts)`. */
  function Join(parts: seq<string>, sep: string): string {
    if |parts| == 0 then ""
    else if |parts| == 1 then parts[0]
    else parts[0] + sep + Join(parts[1..], sep)
  }

  /** Index of the first `c` in `s`. */
  function IndexOf(s: string, c: char): (i: nat)
    requires c in s
    ensures i < |s| && s[i] == c && c !in s[..i]
  {
    if s[0] == c then 0 else 1 + IndexOf(s[1..], c)
  }

  /** PHP `explode($sep, $s)` for a one-character separator. */
  function Split(s: string, sep: char): (parts: seq<string>)
    ensures |parts| >= 1
    ensures forall i :: 0 <= i < |parts| ==> sep !in parts[i]
    ensures Join(parts, [sep]) == s
    decreases |s|
  {
    if sep !in s then [s]
    else
      var i := IndexOf(s, sep);
      var rest := Split(s[i + 1..], sep);
      var parts := [s[..i]] + rest;
      assert parts[1..] == rest;
      assert s == s[..i] + [sep] + s[i + 1..];
      parts
  }

  lemma {:induction false} IndexOfAfter(a: string, sep: char, b: string)
    requires sep !in a
    ensures sep in a + [sep] + b
    ensures IndexOf(a + [sep] + b, sep) == |a|
    decreases |a|
  {
    var s := a + [sep] + b;
    assert s[|a|] == sep;
    if a != [] {
      assert s[1..] == a[1..] + [sep] + b;
      IndexOfAfter(a[1..], sep, b);
    }
  }

  /** `explode` undoes `implode` when no part contains the separator. */
  lemma {:induction false} SplitJoin(parts: seq<string>, sep: char)
    requires |parts| >= 1
    requires forall i :: 0 <= i < |parts| ==> sep !in parts[i]
    ensures Split(Join(parts, [sep]), sep) == parts
    decreases |parts|
  {
    if |parts| > 1 {
      var tail := Join(parts[1..], [sep]);
      var s := parts[0] + [sep] + tail;
      assert Join(parts, [sep]) == s;
      IndexOfAfter(parts[0], sep, tail);
      assert s[..|parts[0]|] == parts[0];
      assert s[|parts[0]| + 1..] == tail;
      assert Split(s, sep) == [parts[0]] + Split(tail, sep);
      SplitJoin(parts[1..], sep);
      assert parts == [parts[0]] + parts[1..];
    }
  }

  function DigitChar(d: nat): (c: char)
    requires d < 10
    ensures '0' <= c <= '9'
  {
    ('0' as int + d) as char
  }

  function DigitValue(c: char): (d: nat)
    requires '0' <= c <= '9'
    ensures d < 10 && DigitChar(d) == c
  {
    c as int - '0' as int
  }

  predicate IsDigits(s: string) {
    forall i :: 0 <= i < |s| ==> '0' <= s[i] <= '9'
  }

  /** Decimal digits of a natural number, most significant first. */
  function NatToDecimal(n: nat): (r: string)
    ensures |r| >= 1 && IsDigits(r)
    ensures |r| > 1 ==> r[0] != '0'
  {
    if n < 10 then [DigitChar(n)] else NatToDecimal(n / 10) + [DigitChar(n % 10)]
  }

  /** The number a string of decimal digits denotes. */
  function DecimalValue(s: string): nat
    requires IsDigits(s)
  {
    if s == [] then 0 else 10 * DecimalValue(s[..|s| - 1]) + DigitValue(s[|s| - 1])
  }

  lemma {:induction false} DecimalRoundTrip(n: nat)
    ensures DecimalValue(NatToDecimal(n)) == n
  {
    var r := NatToDecimal(n);
    if n >= 10 {
      var q, d := n / 10, n % 10;
      DecimalRoundTrip(q);
      assert r == NatToDecimal(q) + [DigitChar(d)];
      assert r[..|r| - 1] == NatToDecimal(q);
      assert DigitValue(r[|r| - 1]) == d;
      assert DecimalValue(r) == 10 * q + d;
    } else {
      assert r[..0] == [];
      assert DigitValue(r[0]) == n;
    }
  }

  /** How PHP renders an `int` inside a string: an optional minus sign and decimal digits. */
  function IntToDecimal(n: int): (r: string)
    ensures |r| >= 1
    ensures n < 0 <==> r[0] == '-'
  {
    if n < 0 then "-" + NatToDecimal(-n) else NatToDecimal(n)
  }

  /** The inverse of `IntToDecimal` on the strings it produces. */
  function ParseInt(s: string): Option<int> {
    if |s| >= 2 && s[0] == '-' && IsDigits(s[1..]) then Some(-(DecimalValue(s[1..]) as int))
    else if |s| >= 1 && IsDigits(s) then Some(DecimalValue(s) as int)
    else None
  }

  lemma IntDecimalRoundTrip(n: int)
    ensures ParseInt(IntToDecimal(n)) == Some(n)
  {
    var s := IntToDecimal(n);
    if n < 0 {
      var m: nat := -n;
      DecimalRoundTrip(m);
      assert s[1..] == NatToDecimal(m);
      assert s[0] == '-' && IsDigits(s[1..]);
    } else {
      DecimalRoundTrip(n);
      assert s == NatToDecimal(n);
      assert '0' <= s[0] <= '9';
    }
  }
}
