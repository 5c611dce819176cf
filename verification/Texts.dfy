/** Strings as the catalogue builds them: decimal ids, joined lists, trimming and text order. */
module Texts {

  // ---------------------------------------------------------------- decimals

  function Digit(d: nat): (c: char)
    requires d < 10
    ensures '0' <= c <= '9'
  {
    ('0' as int + d) as char
  }

  ghost predicate IsDigits(s: string) { forall i :: 0 <= i < |s| ==> '0' <= s[i] <= '9' }

  /** `String(n)` of a non-negative integer. */
  function Dec(n: nat): (s: string)
    ensures |s| > 0
    ensures IsDigits(s)
  {
    if n < 10 then [Digit(n)] else Dec(n / 10) + [Digit(n % 10)]
  }

  lemma {:induction false} DecInjective(m: nat, n: nat)
    requires Dec(m) == Dec(n)
    ensures m == n
  {
    var s, t := Dec(m), Dec(n);
    assert s[|s| - 1] == Digit(m % 10) && t[|t| - 1] == Digit(n % 10);
    if m >= 10 && n >= 10 {
      assert s[..|s| - 1] == Dec(m / 10) && t[..|t| - 1] == Dec(n / 10);
      DecInjective(m / 10, n / 10);
    }
  }

  // ------------------------------------------------------------ counting, join

  function Count(c: char, s: string): nat {
    if s == [] then 0 else (if s[0] == c then 1 else 0) + Count(c, s[1..])
  }

  lemma {:induction false} CountConcat(c: char, a: string, b: string)
    ensures Count(c, a + b) == Count(c, a) + Count(c, b)
  {
    if a == [] {
      assert a + b == b;
    } else {
      CountConcat(c, a[1..], b);
      assert (a + b)[1..] == a[1..] + b;
    }
  }

  lemma {:induction false} CountZero(c: char, s: string)
    ensures Count(c, s) == 0 <==> c !in s
  {
    if s != [] { CountZero(c, s[1..]); }
  }

  /** `parts.join(sep)`. */
  function Join(parts: seq<string>, sep: char): string {
    if parts == [] then ""
    else if |parts| == 1 then parts[0]
    else parts[0] + [sep] + Join(parts[1..], sep)
  }

  ghost predicate FreeOf(c: char, parts: seq<string>) { forall i :: 0 <= i < |parts| ==> c !in parts[i] }

  lemma {:induction false} JoinCount(parts: seq<string>, sep: char)
    requires parts != []
    ensures Count(sep, Join(parts, sep)) >= |parts| - 1
    ensures Count(sep, Join(parts, sep)) == |parts| - 1 <==> FreeOf(sep, parts)
  {
    CountZero(sep, parts[0]);
    if |parts| > 1 {
      JoinCount(parts[1..], sep);
      CountConcat(sep, parts[0], [sep] + Join(parts[1..], sep));
      assert parts[0] + [sep] + Join(parts[1..], sep) == parts[0] + ([sep] + Join(parts[1..], sep));
      CountConcat(sep, [sep], Join(parts[1..], sep));
      assert forall i :: 0 < i < |parts| ==> parts[i] == parts[1..][i - 1];
    } else {
      assert parts == [parts[0]];
    }
  }

  lemma {:induction false} ShorterHead(a: string, x: string, b: string, y: string, sep: char)
    requires a + [sep] + x == b + [sep] + y && |a| < |b|
    ensures sep in b
  {
    assert (a + [sep] + x)[|a|] == sep && (b + [sep] + y)[|a|] == b[|a|];
  }

  /** Two heads without `sep`, each followed by `sep`, agree when the whole texts do. */
  lemma {:induction false} SplitAtFirst(a: string, x: string, b: string, y: string, sep: char)
    requires sep !in a && sep !in b
    requires a + [sep] + x == b + [sep] + y
    ensures a == b && x == y
  {
    if |a| < |b| { ShorterHead(a, x, b, y, sep); }
    if |b| < |a| { ShorterHead(b, y, a, x, sep); }
    var s := a + [sep] + x;
    assert a == s[..|a|] && b == s[..|b|];
    assert x == s[|a| + 1..] && y == s[|b| + 1..];
  }

  /**
   * A joined key determines its parts, provided one of the two lists of the same
   * length is free of the separator.
   */
  lemma {:induction false} JoinInjective(a: seq<string>, b: seq<string>, sep: char)
    requires |a| == |b| && FreeOf(sep, a) && Join(a, sep) == Join(b, sep)
    ensures a == b
  {
    if |a| > 0 {
      JoinCount(a, sep);
      JoinCount(b, sep);
      if |a| > 1 {
        SplitAtFirst(a[0], Join(a[1..], sep), b[0], Join(b[1..], sep), sep);
        JoinInjective(a[1..], b[1..], sep);
        assert a == [a[0]] + a[1..] && b == [b[0]] + b[1..];
      }
    }
  }

  // ------------------------------------------------------------------- order

  /** Code unit order, the order `Array.prototype.sort` uses on strings. */
  predicate TextLeq(a: string, b: string) {
    if a == [] then true
    else if b == [] then false
    else a[0] < b[0] || (a[0] == b[0] && TextLeq(a[1..], b[1..]))
  }

  /** The order of texts: a beginning comes first, otherwise the first difference decides. */
  lemma {:induction false} TextLeqExact(a: string, b: string)
    ensures TextLeq(a, b) <==> a <= b || exists k: nat :: DifferAt(a, b, k) && a[k] < b[k]
  {
    if a != [] && b != [] {
      TextLeqExact(a[1..], b[1..]);
      if a[0] == b[0] {
        assert a <= b <==> a[1..] <= b[1..];
        forall k: nat | DifferAt(a[1..], b[1..], k) ensures DifferAt(a, b, k + 1) { assert a[..k + 1] == b[..k + 1]; }
        forall k: nat | DifferAt(a, b, k) ensures DifferAt(a[1..], b[1..], k - 1) {
          assert a[1..][..k - 1] == a[1..k] && b[1..][..k - 1] == b[1..k];
        }
      } else {
        assert DifferAt(a, b, 0);
      }
    }
  }

  ghost predicate DifferAt(a: string, b: string, k: nat) { k < |a| && k < |b| && a[k] != b[k] && a[..k] == b[..k] }

  lemma {:induction false} TextLeqTotal(a: string, b: string)
    ensures TextLeq(a, b) || TextLeq(b, a)
  {
    if a != [] && b != [] { TextLeqTotal(a[1..], b[1..]); }
  }

  lemma {:induction false} TextLeqAntisymmetric(a: string, b: string)
    requires TextLeq(a, b) && TextLeq(b, a)
    ensures a == b
  {
    if a != [] && b != [] {
      TextLeqAntisymmetric(a[1..], b[1..]);
      assert a == [a[0]] + a[1..] && b == [b[0]] + b[1..];
    }
  }

  lemma {:induction false} TextLeqTransitive(a: string, b: string, c: string)
    requires TextLeq(a, b) && TextLeq(b, c)
    ensures TextLeq(a, c)
  {
    if a != [] && b != [] && c != [] && a[0] == b[0] && b[0] == c[0] {
      TextLeqTransitive(a[1..], b[1..], c[1..]);
    }
  }

  // ---------------------------------------------------------------- trimming

  /**
   * The white space `String.prototype.trim` removes, within the ASCII and Latin-1 range plus the common wide spaces.
   */
  predicate IsSpace(c: char) {
    c in {' ', '\t', '\n', '\r', '\U{000B}', '\U{000C}', '\U{00A0}', '\U{1680}', '\U{2028}', '\U{2029}', '\U{202F}',
          '\U{205F}', '\U{3000}', '\U{FEFF}'}
    || '\U{2000}' <= c <= '\U{200A}'
  }

  function TrimStart(s: string): (r: string)
    ensures r == [] || !IsSpace(r[0])
    ensures |r| <= |s| && r == s[|s| - |r|..]
    ensures forall i :: 0 <= i < |s| - |r| ==> IsSpace(s[i])
  {
    if s != [] && IsSpace(s[0]) then TrimStart(s[1..]) else s
  }

  function TrimEnd(s: string): (r: string)
    ensures r == [] || !IsSpace(r[|r| - 1])
    ensures |r| <= |s| && r == s[..|r|]
    ensures forall i :: |r| <= i < |s| ==> IsSpace(s[i])
  {
    if s != [] && IsSpace(s[|s| - 1]) then TrimEnd(s[..|s| - 1]) else s
  }

  function Trim(s: string): (r: string)
    ensures r == [] || (!IsSpace(r[0]) && !IsSpace(r[|r| - 1]))
  {
    TrimEnd(TrimStart(s))
  }

  lemma {:induction false} TrimIdempotent(s: string)
    ensures Trim(Trim(s)) == Trim(s)
  {
  }

  lemma {:induction false} PartOfRest(s: string, from: nat, n: nat)
    requires from + n <= |s|
    ensures s[from..][..n] == s[from..from + n]
  {
  }

  lemma {:induction false} CutTwice(s: string, t: string, kept: string)
    requires |t| <= |s| && t == s[|s| - |t|..] && |kept| <= |t| && kept == t[..|kept|]
    requires forall i :: |kept| <= i < |t| ==> IsSpace(t[i])
    ensures kept == s[|s| - |t|..|s| - |t| + |kept|]
    ensures forall i :: |s| - |t| + |kept| <= i < |s| ==> IsSpace(s[i])
  {
    var from := |s| - |t|;
    PartOfRest(s, from, |kept|);
    forall i | from + |kept| <= i < |s| ensures IsSpace(s[i]) { assert s[i] == t[i - from]; }
  }

  /** Trimming takes white space off both ends and nothing else. */
  lemma {:induction false} TrimExact(s: string) returns (from: nat, to: nat)
    ensures from <= to <= |s| && Trim(s) == s[from..to]
    ensures forall i :: 0 <= i < from || to <= i < |s| ==> IsSpace(s[i])
    ensures from < to ==> !IsSpace(Trim(s)[0]) && !IsSpace(Trim(s)[|Trim(s)| - 1])
  {
    var t := TrimStart(s);
    var kept := TrimEnd(t);
    from, to := |s| - |t|, |s| - |t| + |kept|;
    CutTwice(s, t, kept);
  }

  lemma {:induction false} TrimBlank(s: string)
    ensures Trim(s) == "" <==> forall i :: 0 <= i < |s| ==> IsSpace(s[i])
  {
    var t := TrimStart(s);
    forall i | 0 <= i < |s| && t == "" ensures IsSpace(s[i]) { }
    assert t != "" ==> t[0] == s[|s| - |t|];
  }
}
