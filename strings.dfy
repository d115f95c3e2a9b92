/** String helpers shared by the extraction pipeline: Python's notion of
    whitespace, case folding of file names, suffix and substring tests,
    `str.strip`, decimal rendering of integers and the path helpers the
    tender loop uses. */
module Strings {

  /** Python's `str.isspace`; the same set of characters is matched by `\s`
      in a regular expression over `str`. */
  predicate IsSpace(c: char)
  {
    ('\t' <= c <= '\r') || ('\U{1c}' <= c <= ' ') || c == '\U{85}' || c == '\U{a0}'
    || c == '\U{1680}' || ('\U{2000}' <= c <= '\U{200a}') || c == '\U{2028}' || c == '\U{2029}'
    || c == '\U{202f}' || c == '\U{205f}' || c == '\U{3000}'
  }

  /** `not s.strip()` in Python: nothing but whitespace. */
  predicate AllSpace(s: string)
  {
    forall i :: 0 <= i < |s| ==> IsSpace(s[i])
  }

  /** The non-whitespace characters of `s`, in order. */
  function NonSpace(s: string): string
  {
    if s == [] then [] else (if IsSpace(s[0]) then [] else [s[0]]) + NonSpace(s[1..])
  }

  lemma {:induction false} NonSpaceConcat(a: string, b: string)
    ensures NonSpace(a + b) == NonSpace(a) + NonSpace(b)
  {
    if a == [] {
      assert a + b == b;
    } else {
      ConsSplit(a, b);
      NonSpaceConcat(a[1..], b);
    }
  }

  lemma {:induction false} NonSpaceOfAllSpace(s: string)
    requires AllSpace(s)
    ensures NonSpace(s) == []
  {
    if s != [] {
      NonSpaceOfAllSpace(s[1..]);
    }
  }

  /** Lower-case mapping of one character, as `str.lower` does it for ASCII
      and Latin-1 capitals. */
  function LowerChar(c: char): (d: char)
    ensures d == c || ('A' <= c <= 'Z' && d as int == c as int + 32)
                   || ('\U{c0}' <= c <= '\U{de}' && d as int == c as int + 32)
    ensures 'a' <= d <= 'z' ==> d == c || ('A' <= c <= 'Z' && d as int == c as int + 32)
    ensures d == '.' <==> c == '.'
  {
    if 'A' <= c <= 'Z' || ('\U{c0}' <= c <= '\U{de}' && c != '\U{d7}') then (c as int + 32) as char else c
  }

  function Lower(s: string): (r: string)
    ensures |r| == |s|
    ensures forall i :: 0 <= i < |s| ==> r[i] == LowerChar(s[i])
  {
    seq(|s|, i requires 0 <= i < |s| => LowerChar(s[i]))
  }

  /** The capitals `LowerChar` maps: ASCII `A`-`Z` and the Latin-1 capitals
      U+00C0..U+00DE other than the multiplication sign U+00D7. */
  predicate IsCapital(c: char)
  {
    'A' <= c <= 'Z' || ('\U{c0}' <= c <= '\U{de}' && c != '\U{d7}')
  }

  /** After lower-casing no capital is left; every capital becomes the small
      letter 32 code points above it, and every other character is kept. */
  lemma LowerSpec(s: string)
    ensures |Lower(s)| == |s|
    ensures forall i :: 0 <= i < |s| ==> !IsCapital(Lower(s)[i])
    ensures forall i :: 0 <= i < |s| && !IsCapital(s[i]) ==> Lower(s)[i] == s[i]
    ensures forall i :: 0 <= i < |s| && IsCapital(s[i]) ==> Lower(s)[i] as int == s[i] as int + 32
  {
  }

  /** Lower-casing twice is lower-casing once. */
  lemma LowerIdempotent(s: string)
    ensures Lower(Lower(s)) == Lower(s)
  {
    LowerSpec(s);
    LowerSpec(Lower(s));
  }

  /** `s.endswith(suffix)`. */
  predicate EndsWith(s: string, suffix: string)
  {
    |suffix| <= |s| && s[|s| - |suffix|..] == suffix
  }

  lemma EndsWithAt(s: string, suffix: string, k: nat)
    requires EndsWith(s, suffix) && k < |suffix|
    ensures s[|s| - |suffix| + k] == suffix[k]
  {
    assert s[|s| - |suffix|..][k] == suffix[k];
  }

  /** A suffix made of characters that lower-casing leaves alone survives
      lower-casing of the whole string. */
  lemma LowerKeepsSuffix(s: string, suffix: string)
    requires EndsWith(s, suffix)
    requires forall k :: 0 <= k < |suffix| ==> LowerChar(suffix[k]) == suffix[k]
    ensures EndsWith(Lower(s), suffix)
  {
    var l := Lower(s);
    forall k | 0 <= k < |suffix|
      ensures l[|l| - |suffix|..][k] == suffix[k]
    {
      EndsWithAt(s, suffix, k);
    }
  }

  /** `w in s`: `w` occurs in `s` as a substring. */
  predicate Contains(s: string, w: string)
  {
    (|w| <= |s| && s[..|w|] == w) || (s != [] && Contains(s[1..], w))
  }

  /** `w` occurs in `s` starting at index `i`. */
  predicate OccursAt(s: string, w: string, i: nat)
  {
    i + |w| <= |s| && s[i..i + |w|] == w
  }

  /** `Contains` is the substring test: it holds exactly when `w` occurs
      somewhere in `s`. */
  lemma ContainsIff(s: string, w: string)
    ensures Contains(s, w) <==> exists i: nat :: OccursAt(s, w, i)
  {
    if Contains(s, w) {
      var i := ContainsWitness(s, w);
    }
    if exists i: nat :: OccursAt(s, w, i) {
      var i: nat :| OccursAt(s, w, i);
      OccursContains(s, w, i);
    }
  }

  lemma {:induction false} ContainsWitness(s: string, w: string) returns (i: nat)
    requires Contains(s, w)
    ensures OccursAt(s, w, i)
  {
    if |w| <= |s| && s[..|w|] == w {
      i := 0;
    } else {
      var j := ContainsWitness(s[1..], w);
      assert s[1..][j..j + |w|] == s[j + 1..j + 1 + |w|];
      i := j + 1;
    }
  }

  lemma {:induction false} OccursContains(s: string, w: string, i: nat)
    requires OccursAt(s, w, i)
    ensures Contains(s, w)
  {
    if i > 0 {
      assert s[1..][i - 1..i - 1 + |w|] == s[i..i + |w|];
      OccursContains(s[1..], w, i - 1);
    }
  }

  /** Number of whitespace characters at the start of `s`. */
  function LeadingSpace(s: string): (n: nat)
    ensures n <= |s|
  {
    if s != [] && IsSpace(s[0]) then 1 + LeadingSpace(s[1..]) else 0
  }

  lemma {:induction false} LeadingSpaceSpec(s: string)
    ensures AllSpace(s[..LeadingSpace(s)])
    ensures LeadingSpace(s) < |s| ==> !IsSpace(s[LeadingSpace(s)])
  {
    if s != [] && IsSpace(s[0]) {
      LeadingSpaceSpec(s[1..]);
      var n := LeadingSpace(s);
      assert s[..n] == [s[0]] + s[1..][..n - 1];
    }
  }

  /** Number of whitespace characters at the end of `s`. */
  function TrailingSpace(s: string): (n: nat)
    ensures n <= |s|
  {
    if s != [] && IsSpace(s[|s| - 1]) then 1 + TrailingSpace(s[..|s| - 1]) else 0
  }

  lemma {:induction false} TrailingSpaceSpec(s: string)
    ensures AllSpace(s[|s| - TrailingSpace(s)..])
    ensures TrailingSpace(s) < |s| ==> !IsSpace(s[|s| - TrailingSpace(s) - 1])
  {
    if s != [] && IsSpace(s[|s| - 1]) {
      var t := s[..|s| - 1];
      TrailingSpaceSpec(t);
      var n := TrailingSpace(s);
      var u := s[|s| - n..];
      var v := t[|t| - (n - 1)..];
      assert forall k :: 0 <= k < n - 1 ==> u[k] == v[k];
      assert u[n - 1] == s[|s| - 1];
    }
  }

  /** `s.strip()`: drops leading and trailing whitespace, nothing else. */
  function Strip(s: string): string
  {
    var t := s[LeadingSpace(s)..];
    t[..|t| - TrailingSpace(t)]
  }

  /** The result of `Strip` starts and ends with a non-whitespace character
      (or is empty), keeps every non-whitespace character, is empty exactly
      for an all-whitespace input, leaves an already stripped input alone,
      and is a slice of the input starting after its leading whitespace. */
  lemma StripSpec(s: string)
    ensures Strip(s) == [] || (!IsSpace(Strip(s)[0]) && !IsSpace(Strip(s)[|Strip(s)| - 1]))
    ensures NonSpace(Strip(s)) == NonSpace(s)
    ensures Strip(s) == [] <==> AllSpace(s)
    ensures (s == [] || (!IsSpace(s[0]) && !IsSpace(s[|s| - 1]))) ==> Strip(s) == s
    ensures LeadingSpace(s) + |Strip(s)| <= |s| && Strip(s) == s[LeadingSpace(s)..LeadingSpace(s) + |Strip(s)|]
  {
    StripShapeOf(s);
    StripNonSpace(s);
    StripBlank(s);
  }

  lemma StripShapeOf(s: string)
    ensures Strip(s) == [] || (!IsSpace(Strip(s)[0]) && !IsSpace(Strip(s)[|Strip(s)| - 1]))
    ensures (s == [] || (!IsSpace(s[0]) && !IsSpace(s[|s| - 1]))) ==> Strip(s) == s
    ensures LeadingSpace(s) + |Strip(s)| <= |s| && Strip(s) == s[LeadingSpace(s)..LeadingSpace(s) + |Strip(s)|]
  {
    var a := LeadingSpace(s);
    var t := s[a..];
    LeadingSpaceSpec(s);
    TrailingSpaceSpec(t);
    var m := |t| - TrailingSpace(t);
    DropTake(s, a, m);
    assert Strip(s) == s[a..a + m];
    if m > 0 {
      assert Strip(s)[0] == t[0] && Strip(s)[m - 1] == t[m - 1];
    }
  }

  /** The stripped text starts and ends with a non-whitespace character. */
  lemma StripEnds(s: string)
    ensures Strip(s) == [] || (!IsSpace(Strip(s)[0]) && !IsSpace(Strip(s)[|Strip(s)| - 1]))
  {
    StripShapeOf(s);
  }

  lemma DropTake<T>(s: seq<T>, a: nat, m: nat)
    requires a + m <= |s|
    ensures s[a..][..m] == s[a..a + m]
  {
  }

  lemma StripNonSpace(s: string)
    ensures NonSpace(Strip(s)) == NonSpace(s)
  {
    var a := LeadingSpace(s);
    var t := s[a..];
    LeadingSpaceSpec(s);
    TrailingSpaceSpec(t);
    NonSpaceDropFront(s, a);
    NonSpaceDropBack(t, |t| - TrailingSpace(t));
  }

  lemma StripBlank(s: string)
    ensures Strip(s) == [] <==> AllSpace(s)
  {
    var a := LeadingSpace(s);
    var t := s[a..];
    LeadingSpaceSpec(s);
    TrailingSpaceSpec(t);
    if Strip(s) == [] {
      assert t[|t| - TrailingSpace(t)..] == t;
      AllSpaceCover(s, a);
    }
  }

  /** Dropping leading or trailing whitespace keeps every non-whitespace character. */
  lemma NonSpaceDropFront(s: string, a: nat)
    requires a <= |s| && AllSpace(s[..a])
    ensures NonSpace(s[a..]) == NonSpace(s)
  {
    TakeDrop(s, a);
    NonSpaceConcat(s[..a], s[a..]);
    NonSpaceOfAllSpace(s[..a]);
  }

  lemma NonSpaceDropBack(t: string, b: nat)
    requires b <= |t| && AllSpace(t[b..])
    ensures NonSpace(t[..b]) == NonSpace(t)
  {
    TakeDrop(t, b);
    NonSpaceConcat(t[..b], t[b..]);
    NonSpaceOfAllSpace(t[b..]);
  }

  lemma AllSpaceCover(s: string, a: nat)
    requires a <= |s| && AllSpace(s[..a]) && AllSpace(s[a..])
    ensures AllSpace(s)
  {
    forall i | 0 <= i < |s| ensures IsSpace(s[i]) {
      if i < a {
        assert s[i] == s[..a][i];
      } else {
        assert s[i] == s[a..][i - a];
      }
    }
  }

  /** A text without non-whitespace characters is all whitespace: the
      converse of `NonSpaceOfAllSpace`. */
  lemma {:induction false} AllSpaceOfNonSpace(s: string)
    requires NonSpace(s) == []
    ensures AllSpace(s)
  {
    if s != [] {
      assert IsSpace(s[0]);
      AllSpaceOfNonSpace(s[1..]);
      assert forall i :: 0 < i < |s| ==> s[i] == s[1..][i - 1];
    }
  }

  lemma {:induction false} LeadingSpaceConcat(p: string, w: string)
    requires p != [] && !IsSpace(p[|p| - 1])
    ensures LeadingSpace(p + w) == LeadingSpace(p) < |p|
  {
    if IsSpace(p[0]) {
      ConsSplit(p, w);
      LeadingSpaceConcat(p[1..], w);
    }
  }

  lemma {:induction false} TrailingSpaceConcat(w: string, q: string)
    requires q != [] && !IsSpace(q[0])
    ensures TrailingSpace(w + q) == TrailingSpace(q) < |q|
  {
    var s := w + q;
    if IsSpace(q[|q| - 1]) {
      assert s[..|s| - 1] == w + q[..|q| - 1];
      TrailingSpaceConcat(w, q[..|q| - 1]);
    }
  }

  /** Stripping a text whose middle part `g` sits between a non-whitespace
      character on its left and one on its right strips the two outer parts
      and keeps `g` whole. */
  lemma StripSplit(p: string, g: string, q: string)
    requires p != [] && !IsSpace(p[|p| - 1])
    requires q != [] && !IsSpace(q[0])
    ensures Strip(p + g + q) == Strip(p) + g + Strip(q)
  {
    var s := p + g + q;
    var a := LeadingSpace(p);
    LeadingSpaceConcat(p, g + q);
    assert s == p + (g + q);
    var t := s[a..];
    assert t == p[a..] + g + q;
    TrailingSpaceConcat(p[a..] + g, q);
    var z := TrailingSpace(q);
    assert Strip(s) == p[a..] + g + q[..|q| - z];
    assert LeadingSpace(q) == 0;
    assert q[LeadingSpace(q)..] == q;
    assert Strip(q) == q[..|q| - z];
    var u := p[a..];
    assert u != [] && u[|u| - 1] == p[|p| - 1];
    assert TrailingSpace(u) == 0;
    assert Strip(p) == u;
  }

  /** Concatenation of a sequence of strings, in order. */
  function Join(parts: seq<string>): string
  {
    if parts == [] then "" else parts[0] + Join(parts[1..])
  }

  lemma {:induction false} JoinAppend(a: seq<string>, b: seq<string>)
    ensures Join(a + b) == Join(a) + Join(b)
  {
    if a == [] {
      assert a + b == b;
    } else {
      ConsSplit(a, b);
      JoinAppend(a[1..], b);
    }
  }

  /** `sep.join(parts)`: the parts in order with `sep` between neighbours. */
  function JoinWith(sep: string, parts: seq<string>): string
  {
    if parts == [] then ""
    else if |parts| == 1 then parts[0]
    else parts[0] + sep + JoinWith(sep, parts[1..])
  }

  lemma ConcatAssoc<T>(a: seq<T>, b: seq<T>, c: seq<T>)
    ensures a + (b + c) == (a + b) + c
  {
  }

  /** Regrouping a concatenation of five parts whose middle three were
      joined first. */
  lemma Regroup<T>(a: seq<T>, p: seq<T>, q: seq<T>, w: seq<T>, b: seq<T>)
    ensures a + (p + q + w) + b == a + p + q + w + b
  {
    ConcatAssoc(a, p + q, w);
    ConcatAssoc(a, p, q);
  }

  lemma ConsSplit<T>(a: seq<T>, b: seq<T>)
    requires a != []
    ensures (a + b)[0] == a[0] && (a + b)[1..] == a[1..] + b
  {
  }

  lemma DropAppend<T>(x: seq<T>, y: seq<T>, n: nat)
    requires n <= |x|
    ensures (x + y)[n..] == x[n..] + y
  {
  }

  lemma TakeCons<T>(s: seq<T>, i: nat)
    requires 0 < i <= |s|
    ensures s[..i] == [s[0]] + s[1..][..i - 1]
  {
  }

  lemma DropCons<T>(s: seq<T>, j: nat)
    requires j < |s|
    ensures s[1..][j..] == s[j + 1..]
  {
  }

  lemma TakeSnoc<T>(s: seq<T>, i: nat)
    requires i < |s|
    ensures s[..i + 1] == s[..i] + [s[i]]
  {
  }

  /** The position of the first occurrence of `c` in `s`. */
  function FirstIndex(s: string, c: char): (k: nat)
    requires c in s
    ensures k < |s| && s[k] == c
    ensures forall p :: 0 <= p < k ==> s[p] != c
  {
    if s[0] == c then 0
    else
      assert c in s[1..] by {
        var q :| 0 <= q < |s| && s[q] == c;
        assert s[1..][q - 1] == c;
      }
      1 + FirstIndex(s[1..], c)
  }

  /** The position of the last occurrence of `c` in `s`. */
  function LastIndex(s: string, c: char): (k: nat)
    requires c in s
    ensures k < |s| && s[k] == c
    ensures forall p :: k < p < |s| ==> s[p] != c
  {
    if s[|s| - 1] == c then |s| - 1
    else
      assert c in s[..|s| - 1] by {
        var q :| 0 <= q < |s| && s[q] == c;
        assert s[..|s| - 1][q] == c;
      }
      LastIndex(s[..|s| - 1], c)
  }

  lemma FirstBeforeLast(s: string, c: char)
    requires c in s
    ensures FirstIndex(s, c) <= LastIndex(s, c)
  {
    var j := LastIndex(s, c);
    assert s[j] == c;
  }

  lemma TakeDrop<T>(s: seq<T>, i: nat)
    requires i <= |s|
    ensures s[..i] + s[i..] == s
  {
  }

  /** The digits of a decimal number, most significant first. */
  function DigitChar(d: nat): char
    requires d < 10
  {
    "0123456789"[d]
  }

  /** `str(n)` for a natural number: its decimal notation. */
  function NatToString(n: nat): (r: string)
    ensures |r| > 0
    ensures forall i :: 0 <= i < |r| ==> '0' <= r[i] <= '9'
  {
    if n < 10 then [DigitChar(n)] else NatToString(n / 10) + [DigitChar(n % 10)]
  }

  /** The part of `s` after the last `sep`; all of `s` when it has none.
      With `sep == '/'` this is `os.path.basename`, with `sep == '.'` it is
      `s.split('.')[-1]`. */
  function AfterLast(s: string, sep: char): (r: string)
    ensures sep !in r
    ensures EndsWith(s, r)
    ensures r == s || s[|s| - |r| - 1] == sep
  {
    if s == [] then []
    else if s[|s| - 1] == sep then []
    else
      var p := s[..|s| - 1];
      var q := AfterLast(p, sep);
      var r := q + [s[|s| - 1]];
      TakeSnoc(s, |s| - 1);
      assert s[..|s|] == s;
      assert s[|s| - |r|..] == p[|p| - |q|..] + [s[|s| - 1]];
      assert q != p ==> s[|s| - |r| - 1] == p[|p| - |q| - 1];
      r
  }

  /** When `s` contains `sep`, the part after the last `sep` is preceded by it. */
  lemma AfterLastSplit(s: string, sep: char)
    requires sep in s
    ensures |AfterLast(s, sep)| < |s| && EndsWith(s, [sep] + AfterLast(s, sep))
  {
    var r := AfterLast(s, sep);
    assert r != s;
    assert s[|s| - |r| - 1..] == [s[|s| - |r| - 1]] + s[|s| - |r|..];
  }

  /** Lower-casing keeps a suffix a suffix. */
  lemma LowerEndsWith(s: string, t: string)
    requires EndsWith(s, t)
    ensures EndsWith(Lower(s), Lower(t))
  {
    forall k | 0 <= k < |t|
      ensures Lower(s)[|s| - |t|..][k] == Lower(t)[k]
    {
      EndsWithAt(s, t, k);
    }
  }

  lemma AfterLastOfSep(s: string, sep: char)
    requires sep !in s
    ensures AfterLast(s, sep) == s
  {
  }
}
