/** `clean_text` (scripts/main.py:31-38): NFKC normalisation followed by two
    regular-expression substitutions and `strip`. NFKC itself is a parameter:
    its tables are not modelled. The lemmas give the shape of every cleaned
    text, show that cleaning only ever rewrites whitespace, and say what
    becomes of each whitespace gap between two words. */
module Clean {
  import opened Strings

  /** `unicodedata.normalize("NFKC", ·)`, left abstract. */
  type Normalizer = string -> string

  /** The class `[ \t]` of the second substitution. */
  predicate IsBlank(c: char)
  {
    c == ' ' || c == '\t'
  }

  /** Length of the run of blanks that `s` starts with. */
  function BlankRun(s: string): (n: nat)
    ensures n <= |s|
    ensures forall i :: 0 <= i < n ==> IsBlank(s[i])
    ensures n < |s| ==> !IsBlank(s[n])
  {
    if s != [] && IsBlank(s[0]) then 1 + BlankRun(s[1..]) else 0
  }

  /** For the whitespace run that `t` starts with: the index just past its
      last newline, or 0 when the run holds no newline. */
  function NewlineRunEnd(t: string): (k: nat)
    ensures k <= |t|
    ensures k > 0 ==> t[k - 1] == '\n' && AllSpace(t[..k])
    ensures t != [] && t[0] == '\n' ==> k > 0
  {
    if t == [] || !IsSpace(t[0]) then 0
    else
      var k := NewlineRunEnd(t[1..]);
      if k > 0 then
        assert t[..k + 1] == [t[0]] + t[1..][..k];
        k + 1
      else if t[0] == '\n' then 1 else 0
  }

  /** What follows the last newline of the run holds no further newline of it. */
  lemma {:induction false} NewlineRunEndRest(t: string)
    requires NewlineRunEnd(t) > 0
    ensures NewlineRunEnd(t[NewlineRunEnd(t)..]) == 0
  {
    var k := NewlineRunEnd(t[1..]);
    if k > 0 {
      NewlineRunEndRest(t[1..]);
      assert t[1..][k..] == t[k + 1..];
    }
  }

  /** Dropping whitespace from the front of a run without newlines leaves a
      run without newlines. */
  lemma {:induction false} QuietDrop(s: string, j: nat)
    requires NewlineRunEnd(s) == 0 && j <= |s|
    requires forall i :: 0 <= i < j ==> IsSpace(s[i])
    ensures NewlineRunEnd(s[j..]) == 0
  {
    if j > 0 {
      QuietDrop(s[1..], j - 1);
      assert s[1..][j - 1..] == s[j..];
    }
  }

  /** A prefix of `t` cannot end its first whitespace run later than `t`. */
  lemma {:induction false} NewlineRunEndPrefix(t: string, m: nat)
    requires m <= |t|
    ensures NewlineRunEnd(t[..m]) <= NewlineRunEnd(t)
  {
    if m > 0 && IsSpace(t[0]) {
      assert t[..m][1..] == t[1..][..m - 1];
      NewlineRunEndPrefix(t[1..], m - 1);
    }
  }

  /** `re.sub(r'\n\s*\n+', '\n\n', s)`. A match can only start at a newline.
      From there `\s*` takes the rest of the whitespace run and gives
      characters back until `\n+` matches, so the match ends at the last
      newline of the run; `\n+` then takes just that one. When the run holds
      no second newline there is no match at this position and the scan
      moves on by one character. */
  function CollapseBlankLines(s: string): string
    decreases |s|
  {
    if s == [] then []
    else if s[0] == '\n' && NewlineRunEnd(s[1..]) > 0 then
      "\n\n" + CollapseBlankLines(s[1 + NewlineRunEnd(s[1..])..])
    else [s[0]] + CollapseBlankLines(s[1..])
  }

  /** `re.sub(r'[ \t]+', ' ', s)`: every maximal run of blanks becomes one space. */
  function CollapseBlanks(s: string): string
    decreases |s|
  {
    if s == [] then []
    else if IsBlank(s[0]) then " " + CollapseBlanks(s[BlankRun(s)..])
    else [s[0]] + CollapseBlanks(s[1..])
  }

  predicate NoTab(s: string)
  {
    '\t' !in s
  }

  predicate NoDoubleSpace(s: string)
  {
    forall i :: 0 <= i < |s| - 1 ==> !(s[i] == ' ' && s[i + 1] == ' ')
  }

  predicate NoTripleNewline(s: string)
  {
    forall i :: 0 <= i < |s| - 2 ==> !(s[i] == '\n' && s[i + 1] == '\n' && s[i + 2] == '\n')
  }

  /** Every whitespace run of `s` holds at most two newlines, and when it holds
      two they are adjacent: for each newline, the rest of its run has at most
      one more newline, right after it. */
  predicate TightNewlines(s: string)
    decreases |s|
  {
    s == [] || ((s[0] == '\n' ==> NewlineRunEnd(s[1..]) <= 1) && TightNewlines(s[1..]))
  }

  /** The shape shared by every cleaned text. */
  predicate CleanShape(r: string)
  {
    && (r == [] || (!IsSpace(r[0]) && !IsSpace(r[|r| - 1])))
    && NoTab(r)
    && NoDoubleSpace(r)
    && TightNewlines(r)
    && NoTripleNewline(r)
  }

  /** The two substitutions of `clean_text`, in order, followed by `strip`. */
  function Tidy(s: string): string
  {
    Strip(CollapseBlanks(CollapseBlankLines(s)))
  }

  /** `clean_text(text)`: the empty text stays empty; otherwise the NFKC form
      of the text goes through both substitutions and is stripped. */
  function CleanText(nfkc: Normalizer, text: string): string
  {
    if text == "" then "" else Tidy(nfkc(text))
  }

  /** Every cleaned text has the clean shape, the empty text cleans to the
      empty text, and cleaning keeps exactly the non-whitespace characters of
      the NFKC form, in order: only whitespace is rewritten. */
  lemma CleanTextShape(nfkc: Normalizer, text: string)
    ensures text == "" ==> CleanText(nfkc, text) == ""
    ensures CleanShape(CleanText(nfkc, text))
    ensures text != "" ==> NonSpace(CleanText(nfkc, text)) == NonSpace(nfkc(text))
  {
    if text != "" {
      var n := nfkc(text);
      var a := CollapseBlankLines(n);
      var b := CollapseBlanks(a);
      CollapseBlankLinesTight(n);
      CollapseBlankLinesKeepsNonSpace(n);
      CollapseBlanksShape(a);
      CollapseBlanksKeepsNonSpace(a);
      StripShape(b);
      StripSpec(b);
    }
  }

  // ---------------------------------------------------------------------
  // The first substitution

  /** A text whose first run has no newline starts its collapsed form with
      such a run too. */
  lemma {:induction false} CollapseBlankLinesQuiet(u: string)
    requires NewlineRunEnd(u) == 0
    ensures NewlineRunEnd(CollapseBlankLines(u)) == 0
    decreases |u|
  {
    if u != [] && IsSpace(u[0]) {
      QuietDrop(u, 1);
      CollapseBlankLinesQuiet(u[1..]);
      var r := CollapseBlankLines(u);
      assert r == [u[0]] + CollapseBlankLines(u[1..]);
      assert r[1..] == CollapseBlankLines(u[1..]);
    }
  }

  lemma {:induction false} CollapseBlankLinesTight(s: string)
    ensures TightNewlines(CollapseBlankLines(s))
    decreases |s|
  {
    if s != [] {
      var r := CollapseBlankLines(s);
      if s[0] == '\n' && NewlineRunEnd(s[1..]) > 0 {
        var k := NewlineRunEnd(s[1..]);
        var u := s[1 + k..];
        NewlineRunEndRest(s[1..]);
        assert s[1..][k..] == u;
        CollapseBlankLinesQuiet(u);
        CollapseBlankLinesTight(u);
        var x := CollapseBlankLines(u);
        assert r == "\n\n" + x;
        assert r[1..] == "\n" + x;
        assert r[1..][1..] == x;
        assert NewlineRunEnd(r[1..]) == 1;
        assert TightNewlines(r[1..]);
      } else {
        CollapseBlankLinesTight(s[1..]);
        assert r[1..] == CollapseBlankLines(s[1..]);
        if s[0] == '\n' {
          CollapseBlankLinesQuiet(s[1..]);
        }
      }
    }
  }

  lemma {:induction false} CollapseBlankLinesKeepsNonSpace(s: string)
    ensures NonSpace(CollapseBlankLines(s)) == NonSpace(s)
    decreases |s|
  {
    if s != [] {
      if s[0] == '\n' && NewlineRunEnd(s[1..]) > 0 {
        var k := NewlineRunEnd(s[1..]);
        var u := s[1 + k..];
        CollapseBlankLinesKeepsNonSpace(u);
        assert s == s[..1 + k] + u;
        assert s[..1 + k] == [s[0]] + s[1..][..k];
        assert AllSpace(s[..1 + k]);
        NonSpaceConcat(s[..1 + k], u);
        NonSpaceOfAllSpace(s[..1 + k]);
        NonSpaceConcat("\n\n", CollapseBlankLines(u));
        NonSpaceOfAllSpace("\n\n");
      } else {
        CollapseBlankLinesKeepsNonSpace(s[1..]);
        NonSpaceConcat([s[0]], CollapseBlankLines(s[1..]));
        NonSpaceConcat([s[0]], s[1..]);
        assert s == [s[0]] + s[1..];
      }
    }
  }

  /** A text already of tight shape is left as it is by the first substitution. */
  lemma {:induction false} CollapseBlankLinesFixed(s: string)
    requires TightNewlines(s)
    ensures CollapseBlankLines(s) == s
    decreases |s|
  {
    if s != [] {
      if s[0] == '\n' && NewlineRunEnd(s[1..]) > 0 {
        assert s[1] == '\n';
        assert TightNewlines(s[1..]);
        assert s[1..][1..] == s[2..];
        CollapseBlankLinesFixed(s[2..]);
        assert s == "\n\n" + s[2..];
      } else {
        CollapseBlankLinesFixed(s[1..]);
      }
    }
  }

  // ---------------------------------------------------------------------
  // The second substitution

  lemma {:induction false} CollapseBlanksHead(s: string)
    requires s != [] && !IsBlank(s[0])
    ensures CollapseBlanks(s) == [s[0]] + CollapseBlanks(s[1..])
  {
  }

  lemma {:induction false} CollapseBlanksQuiet(s: string)
    requires NewlineRunEnd(s) == 0
    ensures NewlineRunEnd(CollapseBlanks(s)) == 0
    decreases |s|
  {
    if s != [] && IsSpace(s[0]) {
      var r := CollapseBlanks(s);
      if IsBlank(s[0]) {
        var n := BlankRun(s);
        QuietDrop(s, n);
        CollapseBlanksQuiet(s[n..]);
        assert r[1..] == CollapseBlanks(s[n..]);
      } else {
        QuietDrop(s, 1);
        CollapseBlanksQuiet(s[1..]);
        assert r[1..] == CollapseBlanks(s[1..]);
      }
    }
  }

  lemma {:induction false} TightSuffix(s: string, j: nat)
    requires TightNewlines(s) && j <= |s|
    ensures TightNewlines(s[j..])
  {
    if j > 0 {
      TightSuffix(s[1..], j - 1);
      assert s[1..][j - 1..] == s[j..];
    }
  }

  lemma {:induction false} TightPrefix(s: string, m: nat)
    requires TightNewlines(s) && m <= |s|
    ensures TightNewlines(s[..m])
  {
    if m > 0 {
      assert s[..m][1..] == s[1..][..m - 1];
      NewlineRunEndPrefix(s[1..], m - 1);
      TightPrefix(s[1..], m - 1);
    }
  }

  lemma {:induction false} CollapseBlanksTight(s: string)
    requires TightNewlines(s)
    ensures TightNewlines(CollapseBlanks(s))
    decreases |s|
  {
    if s != [] {
      var r := CollapseBlanks(s);
      if IsBlank(s[0]) {
        var n := BlankRun(s);
        TightSuffix(s, n);
        CollapseBlanksTight(s[n..]);
        assert r[1..] == CollapseBlanks(s[n..]);
      } else {
        var t := s[1..];
        CollapseBlanksTight(t);
        assert r[1..] == CollapseBlanks(t);
        if s[0] == '\n' {
          if NewlineRunEnd(t) == 0 {
            CollapseBlanksQuiet(t);
          } else {
            assert t[0] == '\n' && NewlineRunEnd(t[1..]) == 0;
            CollapseBlanksQuiet(t[1..]);
            assert CollapseBlanks(t) == "\n" + CollapseBlanks(t[1..]);
            assert CollapseBlanks(t)[1..] == CollapseBlanks(t[1..]);
          }
        }
      }
    }
  }

  /** After the second substitution no tab is left, no two spaces touch, and
      the tight newline shape is kept. */
  lemma {:induction false} CollapseBlanksShape(s: string)
    requires TightNewlines(s)
    ensures NoTab(CollapseBlanks(s)) && NoDoubleSpace(CollapseBlanks(s))
    ensures TightNewlines(CollapseBlanks(s))
    decreases |s|
  {
    CollapseBlanksTight(s);
    CollapseBlanksPlain(s);
  }

  lemma {:induction false} CollapseBlanksPlain(s: string)
    ensures NoTab(CollapseBlanks(s)) && NoDoubleSpace(CollapseBlanks(s))
    decreases |s|
  {
    if s != [] {
      var r := CollapseBlanks(s);
      if IsBlank(s[0]) {
        var d := s[BlankRun(s)..];
        CollapseBlanksPlain(d);
        var x := CollapseBlanks(d);
        assert r == " " + x;
        if d != [] {
          CollapseBlanksHead(d);
          assert x[0] != ' ';
        }
        assert forall i :: 0 < i < |r| ==> r[i] == x[i - 1];
      } else {
        CollapseBlanksPlain(s[1..]);
        var x := CollapseBlanks(s[1..]);
        assert r == [s[0]] + x;
        assert forall i :: 0 < i < |r| ==> r[i] == x[i - 1];
      }
    }
  }

  lemma {:induction false} CollapseBlanksKeepsNonSpace(s: string)
    ensures NonSpace(CollapseBlanks(s)) == NonSpace(s)
    decreases |s|
  {
    if s != [] {
      if IsBlank(s[0]) {
        var n := BlankRun(s);
        CollapseBlanksKeepsNonSpace(s[n..]);
        assert s == s[..n] + s[n..];
        assert AllSpace(s[..n]);
        NonSpaceConcat(s[..n], s[n..]);
        NonSpaceOfAllSpace(s[..n]);
        NonSpaceConcat(" ", CollapseBlanks(s[n..]));
      } else {
        CollapseBlanksKeepsNonSpace(s[1..]);
        NonSpaceConcat([s[0]], CollapseBlanks(s[1..]));
        NonSpaceConcat([s[0]], s[1..]);
        assert s == [s[0]] + s[1..];
      }
    }
  }

  lemma {:induction false} CollapseBlanksFixed(s: string)
    requires NoTab(s) && NoDoubleSpace(s)
    ensures CollapseBlanks(s) == s
    decreases |s|
  {
    if s != [] {
      if IsBlank(s[0]) {
        assert s[0] == ' ';
        assert |s| > 1 ==> !IsBlank(s[1]);
        assert BlankRun(s) == 1;
      }
      CollapseBlanksFixed(s[1..]);
    }
  }

  // ---------------------------------------------------------------------
  // How the first substitution treats one whitespace run

  /** No two newlines in `w`. */
  predicate AtMostOneNewline(w: string)
  {
    forall p, q :: 0 <= p < q < |w| ==> !(w[p] == '\n' && w[q] == '\n')
  }

  /** The first whitespace run of `u + y` is that of `u` when `u` ends in a
      non-whitespace character. */
  lemma {:induction false} NewlineRunEndConcatL(u: string, y: string)
    requires u != [] && !IsSpace(u[|u| - 1])
    ensures NewlineRunEnd(u + y) == NewlineRunEnd(u)
  {
    ConsSplit(u, y);
    if IsSpace(u[0]) {
      NewlineRunEndConcatL(u[1..], y);
    }
  }

  /** The first whitespace run of `u + y` is that of `u` when `y` starts with
      a non-whitespace character. */
  lemma {:induction false} NewlineRunEndConcatR(u: string, y: string)
    requires y == [] || !IsSpace(y[0])
    ensures NewlineRunEnd(u + y) == NewlineRunEnd(u)
  {
    if u == [] {
      assert u + y == y;
    } else {
      ConsSplit(u, y);
      if IsSpace(u[0]) {
        NewlineRunEndConcatR(u[1..], y);
      }
    }
  }

  /** The first substitution at a match: the newline at the head of `s` up
      to the last newline of its whitespace run becomes `"\n\n"`. */
  lemma CollapseBlankLinesMatch(s: string)
    requires s != [] && s[0] == '\n' && NewlineRunEnd(s[1..]) > 0
    ensures CollapseBlankLines(s) == "\n\n" + CollapseBlankLines(s[1 + NewlineRunEnd(s[1..])..])
  {
  }

  /** The first substitution where no match starts: the head is kept. */
  lemma CollapseBlankLinesStep(s: string)
    requires s != [] && !(s[0] == '\n' && NewlineRunEnd(s[1..]) > 0)
    ensures CollapseBlankLines(s) == [s[0]] + CollapseBlankLines(s[1..])
  {
  }

  /** The first substitution works on the two sides of a non-whitespace
      character separately: here the character ends `x`. */
  lemma {:induction false} CollapseBlankLinesConcatL(x: string, y: string)
    requires x == [] || !IsSpace(x[|x| - 1])
    ensures CollapseBlankLines(x + y) == CollapseBlankLines(x) + CollapseBlankLines(y)
    decreases |x|, 1
  {
    if x == [] {
      assert x + y == y;
    } else {
      var t := x[1..];
      DropAppend(x, y, 1);
      assert (x + y)[0] == x[0];
      if x[0] == '\n' {
        NewlineRunEndConcatL(t, y);
      }
      if x[0] == '\n' && NewlineRunEnd(t) > 0 {
        CollapseBlankLinesSkipL(x, y, NewlineRunEnd(t));
      } else {
        CollapseBlankLinesStep(x + y);
        CollapseBlankLinesStep(x);
        CollapseBlankLinesConcatL(t, y);
        ConcatAssoc([x[0]], CollapseBlankLines(t), CollapseBlankLines(y));
      }
    }
  }

  lemma {:induction false} CollapseBlankLinesSkipL(x: string, y: string, k: nat)
    requires x != [] && !IsSpace(x[|x| - 1])
    requires x[0] == '\n' && k > 0 && NewlineRunEnd(x[1..]) == k && NewlineRunEnd((x + y)[1..]) == k
    ensures CollapseBlankLines(x + y) == CollapseBlankLines(x) + CollapseBlankLines(y)
    decreases |x|, 0
  {
    var rest := x[1 + k..];
    DropAppend(x, y, 1 + k);
    assert (x + y)[0] == '\n';
    CollapseBlankLinesMatch(x + y);
    CollapseBlankLinesMatch(x);
    assert rest != [] ==> rest[|rest| - 1] == x[|x| - 1];
    CollapseBlankLinesConcatL(rest, y);
    ConcatAssoc("\n\n", CollapseBlankLines(rest), CollapseBlankLines(y));
  }

  /** The first substitution works on the two sides of a non-whitespace
      character separately: here the character starts `y`. */
  lemma {:induction false} CollapseBlankLinesConcatR(x: string, y: string)
    requires y == [] || !IsSpace(y[0])
    ensures CollapseBlankLines(x + y) == CollapseBlankLines(x) + CollapseBlankLines(y)
    decreases |x|, 1
  {
    if x == [] {
      assert x + y == y;
    } else {
      var t := x[1..];
      DropAppend(x, y, 1);
      assert (x + y)[0] == x[0];
      NewlineRunEndConcatR(t, y);
      if x[0] == '\n' && NewlineRunEnd(t) > 0 {
        CollapseBlankLinesSkipR(x, y, NewlineRunEnd(t));
      } else {
        CollapseBlankLinesStep(x + y);
        CollapseBlankLinesStep(x);
        CollapseBlankLinesConcatR(t, y);
        ConcatAssoc([x[0]], CollapseBlankLines(t), CollapseBlankLines(y));
      }
    }
  }

  lemma {:induction false} CollapseBlankLinesSkipR(x: string, y: string, k: nat)
    requires y == [] || !IsSpace(y[0])
    requires x != [] && x[0] == '\n' && k > 0 && NewlineRunEnd(x[1..]) == k && NewlineRunEnd((x + y)[1..]) == k
    ensures CollapseBlankLines(x + y) == CollapseBlankLines(x) + CollapseBlankLines(y)
    decreases |x|, 0
  {
    var rest := x[1 + k..];
    DropAppend(x, y, 1 + k);
    assert (x + y)[0] == '\n';
    CollapseBlankLinesMatch(x + y);
    CollapseBlankLinesMatch(x);
    CollapseBlankLinesConcatR(rest, y);
    ConcatAssoc("\n\n", CollapseBlankLines(rest), CollapseBlankLines(y));
  }

  /** In an all-whitespace text whose last newline is at `j - 1`, the first
      whitespace run ends just past that newline. */
  lemma {:induction false} NewlineRunEndLast(w: string, j: nat)
    requires AllSpace(w) && 0 < j <= |w| && w[j - 1] == '\n' && '\n' !in w[j..]
    ensures NewlineRunEnd(w) == j
  {
    assert IsSpace(w[0]);
    if j > 1 {
      assert w[1..][j - 1..] == w[j..];
      NewlineRunEndLast(w[1..], j - 1);
    } else {
      assert w[1..] == w[j..];
    }
  }

  /** A text with at most one newline has no match of the first substitution. */
  lemma {:induction false} CollapseBlankLinesOneNewline(w: string)
    requires AtMostOneNewline(w)
    ensures CollapseBlankLines(w) == w
    decreases |w|
  {
    if w != [] {
      var t := w[1..];
      assert forall p, q :: 0 <= p < q < |t| ==> t[p] == w[p + 1] && t[q] == w[q + 1];
      if w[0] == '\n' {
        assert forall q :: 0 <= q < |t| ==> t[q] != '\n' by {
          forall q | 0 <= q < |t| ensures t[q] != '\n' {
            assert t[q] == w[q + 1];
          }
        }
        assert NewlineRunEnd(t) == 0;
      }
      CollapseBlankLinesOneNewline(t);
    }
  }

  /** An all-whitespace text whose first newline is at `i` and whose last is
      at `j > i` collapses to what precedes the first, `"\n\n"`, and what
      follows the last. */
  lemma {:induction false} CollapseBlankLinesManyNewlines(w: string, i: nat, j: nat)
    requires AllSpace(w) && i < j < |w| && w[i] == '\n' && w[j] == '\n'
    requires forall p :: 0 <= p < i ==> w[p] != '\n'
    requires forall p :: j < p < |w| ==> w[p] != '\n'
    ensures CollapseBlankLines(w) == w[..i] + "\n\n" + w[j + 1..]
    decreases i, 1
  {
    if i > 0 {
      CollapseBlankLinesManyStep(w, i, j);
    } else {
      CollapseBlankLinesManyHead(w, j);
    }
  }

  /** The case of `CollapseBlankLinesManyNewlines` where the run starts
      with its first newline. */
  lemma CollapseBlankLinesManyHead(w: string, j: nat)
    requires AllSpace(w) && 0 < j < |w| && w[0] == '\n' && w[j] == '\n'
    requires forall p :: j < p < |w| ==> w[p] != '\n'
    ensures CollapseBlankLines(w) == "\n\n" + w[j + 1..]
  {
    var t := w[1..];
    var rest := w[j + 1..];
    assert t[j..] == rest;
    assert AllSpace(t) by {
      forall p | 0 <= p < |t| ensures IsSpace(t[p]) {
        assert t[p] == w[p + 1];
      }
    }
    assert t[j - 1] == w[j];
    assert forall p :: 0 <= p < |rest| ==> rest[p] == w[j + 1 + p];
    NewlineRunEndLast(t, j);
    CollapseBlankLinesOneNewline(rest);
    CollapseBlankLinesMatch(w);
  }

  /** The case of `CollapseBlankLinesManyNewlines` where the run has a
      first character before its first newline. */
  lemma {:induction false} CollapseBlankLinesManyStep(w: string, i: nat, j: nat)
    requires AllSpace(w) && 0 < i < j < |w| && w[i] == '\n' && w[j] == '\n'
    requires forall p :: 0 <= p < i ==> w[p] != '\n'
    requires forall p :: j < p < |w| ==> w[p] != '\n'
    ensures CollapseBlankLines(w) == w[..i] + "\n\n" + w[j + 1..]
    decreases i, 0
  {
    var t := w[1..];
    var u := t[..i - 1];
    var v := t[j..];
    assert AllSpace(t) by {
      forall p | 0 <= p < |t| ensures IsSpace(t[p]) {
        assert t[p] == w[p + 1];
      }
    }
    assert t[j - 1] == w[j] && t[i - 1] == w[i];
    assert forall p :: 0 <= p < i - 1 ==> t[p] == w[p + 1];
    assert forall p :: j - 1 < p < |t| ==> t[p] == w[p + 1];
    CollapseBlankLinesManyNewlines(t, i - 1, j - 1);
    CollapseBlankLinesStep(w);
    TakeCons(w, i);
    DropCons(w, j);
    ConcatAssoc([w[0]], u + "\n\n", v);
    ConcatAssoc([w[0]], u, "\n\n");
  }

  /** The first substitution on a whitespace run `r` between two
      non-whitespace characters (or an end of the text) acts on `r` alone. */
  lemma CollapseBlankLinesGap(a: string, r: string, b: string)
    requires a == [] || !IsSpace(a[|a| - 1])
    requires b == [] || !IsSpace(b[0])
    ensures CollapseBlankLines(a + r + b)
         == CollapseBlankLines(a) + CollapseBlankLines(r) + CollapseBlankLines(b)
  {
    ConcatAssoc(a, r, b);
    CollapseBlankLinesConcatL(a, r + b);
    CollapseBlankLinesConcatR(r, b);
    ConcatAssoc(CollapseBlankLines(a), CollapseBlankLines(r), CollapseBlankLines(b));
  }

  /** A whitespace run whose first newline is at `i` and last at `j > i`
      becomes the run up to the first newline, `"\n\n"`, and the run after
      the last newline. */
  lemma CollapseBlankLinesRunMany(a: string, r: string, b: string, i: nat, j: nat)
    requires a == [] || !IsSpace(a[|a| - 1])
    requires b == [] || !IsSpace(b[0])
    requires AllSpace(r) && i < j < |r| && r[i] == '\n' && r[j] == '\n'
    requires forall p :: 0 <= p < i ==> r[p] != '\n'
    requires forall p :: j < p < |r| ==> r[p] != '\n'
    ensures CollapseBlankLines(a + r + b)
         == CollapseBlankLines(a) + r[..i] + "\n\n" + r[j + 1..] + CollapseBlankLines(b)
  {
    CollapseBlankLinesGap(a, r, b);
    CollapseBlankLinesManyNewlines(r, i, j);
    Regroup(CollapseBlankLines(a), r[..i], "\n\n", r[j + 1..], CollapseBlankLines(b));
  }

  /** A whitespace run with at most one newline is left as it is. */
  lemma CollapseBlankLinesRunFew(a: string, r: string, b: string)
    requires a == [] || !IsSpace(a[|a| - 1])
    requires b == [] || !IsSpace(b[0])
    requires AtMostOneNewline(r)
    ensures CollapseBlankLines(a + r + b) == CollapseBlankLines(a) + r + CollapseBlankLines(b)
  {
    CollapseBlankLinesGap(a, r, b);
    CollapseBlankLinesOneNewline(r);
  }

  // ---------------------------------------------------------------------
  // How the second substitution treats one run of blanks

  predicate AllBlank(r: string)
  {
    forall i :: 0 <= i < |r| ==> IsBlank(r[i])
  }

  lemma {:induction false} BlankRunConcatL(x: string, y: string)
    requires BlankRun(x) < |x|
    ensures BlankRun(x + y) == BlankRun(x)
  {
    ConsSplit(x, y);
    if IsBlank(x[0]) {
      BlankRunConcatL(x[1..], y);
    }
  }

  lemma {:induction false} BlankRunConcatR(x: string, y: string)
    requires y == [] || !IsBlank(y[0])
    ensures BlankRun(x + y) == BlankRun(x)
  {
    if x == [] {
      assert x + y == y;
    } else {
      ConsSplit(x, y);
      if IsBlank(x[0]) {
        BlankRunConcatR(x[1..], y);
      }
    }
  }

  lemma {:induction false} BlankRunAll(r: string)
    requires AllBlank(r)
    ensures BlankRun(r) == |r|
  {
    if r != [] {
      BlankRunAll(r[1..]);
    }
  }

  /** The second substitution at a run of blanks: the run becomes one space. */
  lemma CollapseBlanksAtRun(s: string)
    requires s != [] && IsBlank(s[0])
    ensures CollapseBlanks(s) == " " + CollapseBlanks(s[BlankRun(s)..])
  {
  }

  /** The second substitution works on the two sides of a non-blank
      character separately: here the character ends `x`. */
  lemma {:induction false} CollapseBlanksConcatL(x: string, y: string)
    requires x == [] || !IsBlank(x[|x| - 1])
    ensures CollapseBlanks(x + y) == CollapseBlanks(x) + CollapseBlanks(y)
    decreases |x|
  {
    if x == [] {
      assert x + y == y;
    } else if IsBlank(x[0]) {
      var n := BlankRun(x);
      BlankRunConcatL(x, y);
      var rest := x[n..];
      DropAppend(x, y, n);
      assert (x + y)[0] == x[0];
      CollapseBlanksAtRun(x + y);
      CollapseBlanksAtRun(x);
      assert rest != [] && rest[|rest| - 1] == x[|x| - 1];
      CollapseBlanksConcatL(rest, y);
      ConcatAssoc(" ", CollapseBlanks(rest), CollapseBlanks(y));
    } else {
      var t := x[1..];
      DropAppend(x, y, 1);
      assert (x + y)[0] == x[0];
      CollapseBlanksHead(x + y);
      CollapseBlanksHead(x);
      CollapseBlanksConcatL(t, y);
      ConcatAssoc([x[0]], CollapseBlanks(t), CollapseBlanks(y));
    }
  }

  /** The same, where the non-blank character starts `y`. */
  lemma {:induction false} CollapseBlanksConcatR(x: string, y: string)
    requires y == [] || !IsBlank(y[0])
    ensures CollapseBlanks(x + y) == CollapseBlanks(x) + CollapseBlanks(y)
    decreases |x|
  {
    if x == [] {
      assert x + y == y;
    } else if IsBlank(x[0]) {
      var n := BlankRun(x);
      BlankRunConcatR(x, y);
      var rest := x[n..];
      DropAppend(x, y, n);
      assert (x + y)[0] == x[0];
      CollapseBlanksAtRun(x + y);
      CollapseBlanksAtRun(x);
      CollapseBlanksConcatR(rest, y);
      ConcatAssoc(" ", CollapseBlanks(rest), CollapseBlanks(y));
    } else {
      var t := x[1..];
      DropAppend(x, y, 1);
      assert (x + y)[0] == x[0];
      CollapseBlanksHead(x + y);
      CollapseBlanksHead(x);
      CollapseBlanksConcatR(t, y);
      ConcatAssoc([x[0]], CollapseBlanks(t), CollapseBlanks(y));
    }
  }

  /** A non-empty run of spaces and tabs between two other characters (or an
      end of the text) becomes exactly one space. */
  lemma CollapseBlanksRun(a: string, r: string, b: string)
    requires a == [] || !IsBlank(a[|a| - 1])
    requires r != [] && AllBlank(r)
    requires b == [] || !IsBlank(b[0])
    ensures CollapseBlanks(a + r + b) == CollapseBlanks(a) + " " + CollapseBlanks(b)
  {
    ConcatAssoc(a, r, b);
    CollapseBlanksConcatL(a, r + b);
    BlankRunAll(r);
    BlankRunConcatR(r, b);
    DropAppend(r, b, |r|);
    assert (r + b)[0] == r[0];
    CollapseBlanksAtRun(r + b);
    ConcatAssoc(CollapseBlanks(a), " ", CollapseBlanks(b));
  }

  lemma {:induction false} CollapseBlanksNoNewline(z: string)
    requires '\n' !in z
    ensures '\n' !in CollapseBlanks(z)
    decreases |z|
  {
    if z != [] {
      if IsBlank(z[0]) {
        CollapseBlanksNoNewline(z[BlankRun(z)..]);
      } else {
        CollapseBlanksNoNewline(z[1..]);
      }
    }
  }

  lemma {:induction false} CollapseBlanksAllSpace(z: string)
    requires AllSpace(z)
    ensures AllSpace(CollapseBlanks(z))
  {
    NonSpaceOfAllSpace(z);
    CollapseBlanksKeepsNonSpace(z);
    AllSpaceOfNonSpace(CollapseBlanks(z));
  }

  // ---------------------------------------------------------------------
  // A gap between two words, through the whole of `clean_text`

  /** What `clean_text` makes of a whitespace run between two words. */
  function GapImage(r: string): string
  {
    CollapseBlanks(CollapseBlankLines(r))
  }

  lemma CollapseBlankLinesKeepsEnds(a: string)
    requires a != [] && !IsSpace(a[|a| - 1])
    ensures var x := CollapseBlankLines(a); x != [] && x[|x| - 1] == a[|a| - 1]
  {
    var n := |a| - 1;
    var last := [a[n]];
    assert a == a[..n] + last;
    CollapseBlankLinesConcatR(a[..n], last);
    assert CollapseBlankLines(last) == last;
  }

  lemma CollapseBlanksKeepsEnds(x: string)
    requires x != [] && !IsBlank(x[|x| - 1])
    ensures var c := CollapseBlanks(x); c != [] && c[|c| - 1] == x[|x| - 1]
  {
    var n := |x| - 1;
    var last := [x[n]];
    assert x == x[..n] + last;
    CollapseBlanksConcatR(x[..n], last);
    assert CollapseBlanks(last) == last;
  }

  /** The whitespace-free head of a text survives both substitutions. */
  lemma CollapseKeepsHead(b: string)
    requires b != [] && !IsSpace(b[0])
    ensures var c := CollapseBlanks(CollapseBlankLines(b)); c != [] && c[0] == b[0]
  {
    var y := CollapseBlankLines(b);
    assert y == [b[0]] + CollapseBlankLines(b[1..]);
    assert CollapseBlanks(y) == [y[0]] + CollapseBlanks(y[1..]);
  }

  /** A whitespace gap keeps being whitespace, and is never removed. */
  lemma GapImageSpace(r: string)
    requires r != [] && AllSpace(r)
    ensures GapImage(r) != [] && AllSpace(GapImage(r))
  {
    var m := CollapseBlankLines(r);
    NonSpaceOfAllSpace(r);
    CollapseBlankLinesKeepsNonSpace(r);
    AllSpaceOfNonSpace(m);
    CollapseBlanksAllSpace(m);
    assert m != [];
    assert CollapseBlanks(m) != [];
  }

  /** Both substitutions keep the last character of a text ending in a
      non-whitespace character. */
  lemma CollapseKeepsLast(a: string)
    requires a != [] && !IsSpace(a[|a| - 1])
    ensures var p := CollapseBlanks(CollapseBlankLines(a)); p != [] && p[|p| - 1] == a[|a| - 1]
  {
    CollapseBlankLinesKeepsEnds(a);
    CollapseBlanksKeepsEnds(CollapseBlankLines(a));
  }

  lemma CollapseBlankLinesKeepsHead(b: string)
    requires b != [] && !IsSpace(b[0])
    ensures var y := CollapseBlankLines(b); y != [] && y[0] == b[0]
  {
  }

  /** The second substitution on the three parts of a text whose middle lies
      between two non-blank characters. */
  lemma CollapseBlanksThree(x: string, m: string, y: string)
    requires x != [] && !IsBlank(x[|x| - 1])
    requires y != [] && !IsBlank(y[0])
    ensures CollapseBlanks(x + m + y) == CollapseBlanks(x) + CollapseBlanks(m) + CollapseBlanks(y)
  {
    ConcatAssoc(x, m, y);
    CollapseBlanksConcatL(x, m + y);
    CollapseBlanksConcatR(m, y);
    ConcatAssoc(CollapseBlanks(x), CollapseBlanks(m), CollapseBlanks(y));
  }

  /** Both substitutions, on a gap between two words, act on the two words'
      sides and on the gap separately. */
  lemma CollapseGap(a: string, r: string, b: string)
    requires a != [] && !IsSpace(a[|a| - 1])
    requires b != [] && !IsSpace(b[0])
    ensures CollapseBlanks(CollapseBlankLines(a + r + b))
         == CollapseBlanks(CollapseBlankLines(a)) + GapImage(r) + CollapseBlanks(CollapseBlankLines(b))
  {
    CollapseBlankLinesGap(a, r, b);
    CollapseBlankLinesKeepsEnds(a);
    CollapseBlankLinesKeepsHead(b);
    CollapseBlanksThree(CollapseBlankLines(a), CollapseBlankLines(r), CollapseBlankLines(b));
  }

  /** The pipeline of `clean_text` after NFKC, on a gap between two words. */
  lemma TidyGap(a: string, r: string, b: string)
    requires a != [] && !IsSpace(a[|a| - 1])
    requires b != [] && !IsSpace(b[0])
    ensures Tidy(a + r + b) == Tidy(a) + GapImage(r) + Tidy(b)
    ensures Tidy(a) != [] && !IsSpace(Tidy(a)[|Tidy(a)| - 1])
    ensures Tidy(b) != [] && !IsSpace(Tidy(b)[0])
  {
    CollapseGap(a, r, b);
    var p := CollapseBlanks(CollapseBlankLines(a));
    var q := CollapseBlanks(CollapseBlankLines(b));
    CollapseKeepsLast(a);
    CollapseKeepsHead(b);
    StripSplit(p, GapImage(r), q);
    StripSpec(p);
    StripSpec(q);
  }

  /** A whitespace gap between two words of the NFKC form survives
      `clean_text` as a non-empty whitespace gap `GapImage(r)` between the
      cleaned left part and the cleaned right part, holding two newlines
      when the gap held two or more and otherwise as many as it held. */
  lemma CleanTextGap(nfkc: Normalizer, text: string, a: string, r: string, b: string)
    requires text != "" && nfkc(text) == a + r + b
    requires a != [] && !IsSpace(a[|a| - 1])
    requires b != [] && !IsSpace(b[0])
    requires r != [] && AllSpace(r)
    ensures CleanText(nfkc, text) == Tidy(a) + GapImage(r) + Tidy(b)
    ensures Tidy(a) != [] && !IsSpace(Tidy(a)[|Tidy(a)| - 1])
    ensures Tidy(b) != [] && !IsSpace(Tidy(b)[0])
    ensures GapImage(r) != [] && AllSpace(GapImage(r))
    ensures var n := multiset(r)['\n'];
            multiset(GapImage(r))['\n'] == if n < 2 then n else 2
  {
    TidyGap(a, r, b);
    GapImageSpace(r);
    GapNewlines(r);
  }

  /** A gap without a newline only has its runs of spaces and tabs collapsed,
      and gains no newline. */
  lemma GapNoNewline(r: string)
    requires '\n' !in r
    ensures GapImage(r) == CollapseBlanks(r) && '\n' !in GapImage(r)
  {
    CollapseBlankLinesOneNewline(r);
    CollapseBlanksNoNewline(r);
  }

  /** A gap with exactly one newline keeps that one newline, with the
      blanks on either side of it collapsed. */
  lemma GapOneNewline(r: string, m: nat)
    requires m < |r| && r[m] == '\n'
    requires forall p :: 0 <= p < |r| && p != m ==> r[p] != '\n'
    ensures GapImage(r) == CollapseBlanks(r[..m]) + "\n" + CollapseBlanks(r[m + 1..])
    ensures '\n' !in CollapseBlanks(r[..m]) && '\n' !in CollapseBlanks(r[m + 1..])
  {
    var u := r[..m];
    var v := r[m + 1..];
    var w := "\n" + v;
    CollapseBlankLinesOneNewline(r);
    TakeDrop(r, m);
    assert r[m..] == w;
    CollapseBlanksConcatR(u, w);
    assert w[0] == '\n' && w[1..] == v;
    CollapseBlanksHead(w);
    ConcatAssoc(CollapseBlanks(u), "\n", CollapseBlanks(v));
    assert forall p :: 0 <= p < |u| ==> u[p] == r[p];
    assert forall p :: 0 <= p < |v| ==> v[p] == r[m + 1 + p];
    CollapseBlanksNoNewline(u);
    CollapseBlanksNoNewline(v);
  }

  /** A gap whose first newline is at `i` and last at `j > i` holds exactly
      `"\n\n"`: the blanks before the first newline and after the last,
      collapsed, around two adjacent newlines, and no other newline. */
  lemma GapManyNewlines(r: string, i: nat, j: nat)
    requires AllSpace(r) && i < j < |r| && r[i] == '\n' && r[j] == '\n'
    requires forall p :: 0 <= p < i ==> r[p] != '\n'
    requires forall p :: j < p < |r| ==> r[p] != '\n'
    ensures GapImage(r) == CollapseBlanks(r[..i]) + "\n\n" + CollapseBlanks(r[j + 1..])
    ensures '\n' !in CollapseBlanks(r[..i]) && '\n' !in CollapseBlanks(r[j + 1..])
  {
    var u := r[..i];
    var v := r[j + 1..];
    var w := "\n\n" + v;
    CollapseBlankLinesManyNewlines(r, i, j);
    assert CollapseBlankLines(r) == u + w;
    CollapseBlanksConcatR(u, w);
    CollapseBlanksTwoNewlines(v);
    ConcatAssoc(CollapseBlanks(u), "\n\n", CollapseBlanks(v));
    NoNewlineAround(r, i, j);
    CollapseBlanksNoNewline(u);
    CollapseBlanksNoNewline(v);
  }

  /** The newlines of a gap after cleaning: as many as it had when it had
      none or one, and exactly two, adjacent, when it had two or more. */
  lemma GapNewlines(r: string)
    requires AllSpace(r)
    ensures var n := multiset(r)['\n'];
            multiset(GapImage(r))['\n'] == if n < 2 then n else 2
    ensures multiset(r)['\n'] >= 2 ==>
            GapImage(r) == CollapseBlanks(r[..FirstIndex(r, '\n')]) + "\n\n" + CollapseBlanks(r[LastIndex(r, '\n') + 1..])
  {
    if '\n' !in r {
      GapNewlinesNone(r);
    } else {
      FirstBeforeLast(r, '\n');
      if FirstIndex(r, '\n') == LastIndex(r, '\n') {
        GapNewlinesOne(r);
      } else {
        GapNewlinesMany(r);
        GapManyNewlines(r, FirstIndex(r, '\n'), LastIndex(r, '\n'));
      }
    }
  }

  lemma NewlineFree(x: string)
    requires '\n' !in x
    ensures multiset(x)['\n'] == 0
  {
  }

  lemma GapNewlinesNone(r: string)
    requires '\n' !in r
    ensures multiset(r)['\n'] == 0 && multiset(GapImage(r))['\n'] == 0
  {
    GapNoNewline(r);
    NewlineFree(r);
    NewlineFree(GapImage(r));
  }

  lemma GapNewlinesOne(r: string)
    requires '\n' in r && FirstIndex(r, '\n') == LastIndex(r, '\n')
    ensures multiset(r)['\n'] == 1 && multiset(GapImage(r))['\n'] == 1
  {
    var m := FirstIndex(r, '\n');
    assert forall p :: 0 <= p < |r| && p != m ==> r[p] != '\n';
    NewlineCountOneAt(r, m);
    GapOneNewline(r, m);
    NewlineCountOne(CollapseBlanks(r[..m]), CollapseBlanks(r[m + 1..]));
  }

  lemma NewlineCountOneAt(r: string, m: nat)
    requires m < |r| && r[m] == '\n'
    requires forall p :: 0 <= p < |r| && p != m ==> r[p] != '\n'
    ensures multiset(r)['\n'] == 1
  {
    var u := r[..m];
    var v := r[m + 1..];
    NoNewlineAround(r, m, m);
    TakeDrop(r, m);
    assert r[m..] == "\n" + v;
    ConcatAssoc(u, "\n", v);
    NewlineCountOne(u, v);
  }

  lemma GapNewlinesMany(r: string)
    requires AllSpace(r) && '\n' in r && FirstIndex(r, '\n') < LastIndex(r, '\n')
    ensures multiset(r)['\n'] >= 2 && multiset(GapImage(r))['\n'] == 2
  {
    var i := FirstIndex(r, '\n');
    var j := LastIndex(r, '\n');
    NewlineCountTwoAt(r, i, j);
    GapManyNewlines(r, i, j);
    NewlineCountTwo(CollapseBlanks(r[..i]), CollapseBlanks(r[j + 1..]));
  }

  lemma NewlineCountOne(u: string, v: string)
    requires '\n' !in u && '\n' !in v
    ensures multiset(u + "\n" + v)['\n'] == 1
  {
    assert multiset(u + "\n" + v) == multiset(u) + multiset("\n") + multiset(v);
    assert multiset("\n") == multiset{'\n'};
  }

  lemma NewlineCountTwo(u: string, v: string)
    requires '\n' !in u && '\n' !in v
    ensures multiset(u + "\n\n" + v)['\n'] == 2
  {
    assert multiset(u + "\n\n" + v) == multiset(u) + multiset("\n\n") + multiset(v);
    assert "\n\n" == ['\n'] + ['\n'];
    assert multiset("\n\n") == multiset{'\n', '\n'};
  }

  lemma NewlineCountTwoAt(r: string, i: nat, j: nat)
    requires i < j < |r| && r[i] == '\n' && r[j] == '\n'
    ensures multiset(r)['\n'] >= 2
  {
    TakeDrop(r, j);
    assert r[..j][i] == '\n';
    assert r[j..][0] == '\n';
    assert multiset(r) == multiset(r[..j]) + multiset(r[j..]);
  }

  /** Before the first newline at `i` and after the last at `j` there is no
      newline. */
  lemma NoNewlineAround(r: string, i: nat, j: nat)
    requires i <= j < |r|
    requires forall p :: 0 <= p < i ==> r[p] != '\n'
    requires forall p :: j < p < |r| ==> r[p] != '\n'
    ensures '\n' !in r[..i] && '\n' !in r[j + 1..]
  {
    var u := r[..i];
    var v := r[j + 1..];
    assert forall p :: 0 <= p < |u| ==> u[p] == r[p];
    assert forall p :: 0 <= p < |v| ==> v[p] == r[j + 1 + p];
  }

  lemma CollapseBlanksTwoNewlines(v: string)
    ensures CollapseBlanks("\n\n" + v) == "\n\n" + CollapseBlanks(v)
  {
    var w := "\n" + v;
    assert "\n\n" + v == "\n" + w;
    assert w[0] == '\n' && w[1..] == v;
    assert ("\n" + w)[0] == '\n' && ("\n" + w)[1..] == w;
    CollapseBlanksHead("\n" + w);
    CollapseBlanksHead(w);
  }

  // ---------------------------------------------------------------------
  // Stripping, and the whole pipeline

  lemma {:induction false} TightNoTriple(s: string)
    requires TightNewlines(s)
    ensures NoTripleNewline(s)
    decreases |s|
  {
    if s != [] {
      TightNoTriple(s[1..]);
      assert forall i :: 0 < i < |s| ==> s[i] == s[1..][i - 1];
    }
  }

  lemma StripShape(b: string)
    requires NoTab(b) && NoDoubleSpace(b) && TightNewlines(b)
    ensures CleanShape(Strip(b))
  {
    StripKeepsShape(b);
    StripEnds(b);
    CleanShapeOf(Strip(b));
  }

  lemma StripKeepsShape(b: string)
    requires NoTab(b) && NoDoubleSpace(b) && TightNewlines(b)
    ensures NoTab(Strip(b)) && NoDoubleSpace(Strip(b)) && TightNewlines(Strip(b))
  {
    StripShapeOf(b);
    SliceShape(b, LeadingSpace(b), LeadingSpace(b) + |Strip(b)|);
  }

  lemma CleanShapeOf(r: string)
    requires r == [] || (!IsSpace(r[0]) && !IsSpace(r[|r| - 1]))
    requires NoTab(r) && NoDoubleSpace(r) && TightNewlines(r)
    ensures CleanShape(r)
  {
    TightNoTriple(r);
  }

  lemma SliceShape(b: string, lo: nat, hi: nat)
    requires lo <= hi <= |b|
    requires NoTab(b) && NoDoubleSpace(b) && TightNewlines(b)
    ensures NoTab(b[lo..hi]) && NoDoubleSpace(b[lo..hi]) && TightNewlines(b[lo..hi])
  {
    TightSuffix(b, lo);
    assert b[lo..][..hi - lo] == b[lo..hi];
    TightPrefix(b[lo..], hi - lo);
    assert forall i :: 0 <= i < hi - lo ==> b[lo..hi][i] == b[lo + i];
  }

  /** Cleaning a cleaned text changes nothing, as long as NFKC leaves the
      cleaned text as it is (NFKC is abstract here, so that is assumed of it
      for this text rather than derived). */
  lemma CleanTextIdempotent(nfkc: Normalizer, text: string)
    requires nfkc(CleanText(nfkc, text)) == CleanText(nfkc, text)
    ensures CleanText(nfkc, CleanText(nfkc, text)) == CleanText(nfkc, text)
  {
    var c := CleanText(nfkc, text);
    CleanTextShape(nfkc, text);
    if c != "" {
      CollapseBlankLinesFixed(c);
      CollapseBlanksFixed(c);
    }
  }
}
