/**
  Python string primitives the core relies on: `str.isspace`, `strip`, `lstrip(chars)`,
  `split()` with no argument, `sep.join(...)` and the whitespace collapse
  `' '.join(s.split())`. Strings are sequences of code points.
 */
module Text {

  /** The code points for which Python's `str.isspace()` holds; `\s` in a `str` regex
      pattern, `strip()` and `split()` all use this same set. */
  predicate IsSpace(c: char) {
    || ('\t' <= c <= '\r')
    || ('\U{1C}' <= c <= '\U{1F}')
    || c == ' ' || c == '\U{85}' || c == '\U{A0}' || c == '\U{1680}'
    || ('\U{2000}' <= c <= '\U{200A}')
    || c == '\U{2028}' || c == '\U{2029}' || c == '\U{202F}' || c == '\U{205F}' || c == '\U{3000}'
  }

  /** Every character is whitespace (vacuously true of the empty string). */
  predicate IsBlank(s: string) {
    forall i :: 0 <= i < |s| ==> IsSpace(s[i])
  }

  /** Some character is not whitespace; the recursive twin of `!IsBlank(s)`, cheaper for the
      verifier to unfold inside quantifiers. */
  predicate HasNonSpace(s: string)
    decreases |s|
  {
    |s| > 0 && (!IsSpace(s[0]) || HasNonSpace(s[1..]))
  }

  lemma {:induction false} HasNonSpaceNotBlank(s: string)
    ensures HasNonSpace(s) <==> !IsBlank(s)
    decreases |s|
  {
    if |s| > 0 {
      HasNonSpaceNotBlank(s[1..]);
      if IsBlank(s[1..]) && IsSpace(s[0]) {
        forall i | 0 <= i < |s| ensures IsSpace(s[i]) { if i > 0 { assert s[i] == s[1..][i - 1]; } }
      }
      if !IsBlank(s[1..]) {
        var i :| 0 <= i < |s| - 1 && !IsSpace(s[1..][i]);
        assert s[i + 1] == s[1..][i];
      }
    }
  }

  lemma SeqAssoc<T>(a: seq<T>, b: seq<T>, c: seq<T>)
    ensures a + b + c == a + (b + c)
  {
  }

  lemma SeqAssoc4<T>(a: seq<T>, b: seq<T>, c: seq<T>, d: seq<T>)
    ensures a + b + c + d == a + (b + c + d)
  {
  }

  /** Sequences that agree at every index are equal. */
  lemma SeqExt<T>(a: seq<T>, b: seq<T>)
    requires |a| == |b| && forall k :: 0 <= k < |a| ==> a[k] == b[k]
    ensures a == b
  {
  }

  /** Indexing past the head of a sequence. */
  lemma ConsAt<T>(b: T, rest: seq<T>, j: nat)
    requires 0 < j <= |rest|
    ensures ([b] + rest)[j] == rest[j - 1]
  {
  }

  /** Indexing into the tail of a sequence. */
  lemma TailAt<T>(s: seq<T>, j: nat)
    requires 0 < j < |s|
    ensures s[1..][j - 1] == s[j]
  {
  }

  /** `[f(x) for x in xs]`. */
  function MapSeq<A, B>(f: A -> B, xs: seq<A>): (ys: seq<B>)
    ensures |ys| == |xs|
    decreases |xs|
  {
    if xs == [] then [] else [f(xs[0])] + MapSeq(f, xs[1..])
  }

  lemma {:induction false} MapSeqAt<A, B>(f: A -> B, xs: seq<A>, j: nat)
    requires j < |xs|
    ensures MapSeq(f, xs)[j] == f(xs[j])
    decreases j
  {
    if j > 0 {
      MapSeqAt(f, xs[1..], j - 1);
      ConsAt(f(xs[0]), MapSeq(f, xs[1..]), j);
      TailAt(xs, j);
    }
  }

  lemma AppendNil<T>(a: seq<T>)
    ensures a + [] == a
  {
  }

  lemma NilAppend<T>(a: seq<T>)
    ensures [] + a == a
  {
  }

  predicate StartsWith(s: string, p: string) {
    |p| <= |s| && s[..|p|] == p
  }

  // ---------------------------------------------------------------------------
  // strip

  /** `s.lstrip()`: the suffix of `s` left after dropping its leading whitespace. */
  function LStrip(s: string): (r: string)
    ensures |r| <= |s| && r == s[|s| - |r|..]
    ensures forall i :: 0 <= i < |s| - |r| ==> IsSpace(s[i])
    ensures r == [] || !IsSpace(r[0])
  {
    if |s| > 0 && IsSpace(s[0]) then
      var r := LStrip(s[1..]);
      assert s[1..][|s| - 1 - |r|..] == s[|s| - |r|..];
      assert forall i :: 1 <= i < |s| - |r| ==> s[i] == s[1..][i - 1];
      r
    else s
  }

  /** `s.rstrip()`: the prefix of `s` left after dropping its trailing whitespace. */
  function RStrip(s: string): (r: string)
    ensures |r| <= |s| && r == s[..|r|]
    ensures forall i :: |r| <= i < |s| ==> IsSpace(s[i])
    ensures r == [] || !IsSpace(r[|r| - 1])
  {
    if |s| > 0 && IsSpace(s[|s| - 1]) then
      var r := RStrip(s[..|s| - 1]);
      assert s[..|s| - 1][..|r|] == s[..|r|];
      assert forall i :: |r| <= i < |s| - 1 ==> s[i] == s[..|s| - 1][i];
      r
    else s
  }

  /** `s.strip()`. */
  function Strip(s: string): (r: string)
    ensures r == [] <==> IsBlank(s)
    ensures r != [] ==> !IsSpace(r[0]) && !IsSpace(r[|r| - 1])
  {
    var l := LStrip(s);
    assert |l| > 0 ==> !IsBlank(l) by {
      if |l| > 0 { assert !IsSpace(l[0]); }
    }
    assert IsBlank(l) ==> IsBlank(s);
    assert |l| > 0 ==> !IsBlank(s) by {
      if |l| > 0 { assert l[0] == s[|s| - |l|]; }
    }
    RStrip(l)
  }

  /** `s.lstrip(c)` for a single character `c`. */
  function LStripChar(s: string, c: char): (r: string)
    ensures |r| <= |s| && r == s[|s| - |r|..]
    ensures forall i :: 0 <= i < |s| - |r| ==> s[i] == c
    ensures r == [] || r[0] != c
  {
    if |s| > 0 && s[0] == c then LStripChar(s[1..], c) else s
  }

  lemma {:induction false} LStripBlankPrefix(w: string, s: string)
    requires IsBlank(w)
    ensures LStrip(w + s) == LStrip(s)
    decreases |w|
  {
    if |w| > 0 {
      assert (w + s)[1..] == w[1..] + s;
      LStripBlankPrefix(w[1..], s);
    } else {
      assert w + s == s;
    }
  }

  lemma {:induction false} RStripBlankSuffix(s: string, w: string)
    requires IsBlank(w)
    ensures RStrip(s + w) == RStrip(s)
    decreases |w|
  {
    if |w| > 0 {
      assert (s + w)[..|s + w| - 1] == s + w[..|w| - 1];
      RStripBlankSuffix(s, w[..|w| - 1]);
    } else {
      assert s + w == s;
    }
  }

  lemma {:induction false} LStripKeepsBlankSuffix(s: string, w: string)
    requires IsBlank(w) && !IsBlank(s)
    ensures LStrip(s + w) == LStrip(s) + w
    decreases |s|
  {
    assert (s + w)[0] == s[0];
    if IsSpace(s[0]) {
      assert (s + w)[1..] == s[1..] + w;
      assert !IsBlank(s[1..]) by {
        var i :| 0 <= i < |s| && !IsSpace(s[i]);
        assert s[1..][i - 1] == s[i];
      }
      LStripKeepsBlankSuffix(s[1..], w);
    }
  }

  /** Surrounding whitespace never reaches the result of `strip()`. */
  lemma StripIgnoresBlankEnds(w1: string, s: string, w2: string)
    requires IsBlank(w1) && IsBlank(w2)
    ensures Strip(w1 + s + w2) == Strip(s)
  {
    LStripBlankPrefix(w1, s + w2);
    assert w1 + s + w2 == w1 + (s + w2);
    if IsBlank(s) {
      assert IsBlank(s + w2) by {
        forall i | 0 <= i < |s + w2| ensures IsSpace((s + w2)[i]) {
          if i < |s| { assert (s + w2)[i] == s[i]; } else { assert (s + w2)[i] == w2[i - |s|]; }
        }
      }
      assert Strip(w1 + s + w2) == [];
      assert Strip(s) == [];
    } else {
      LStripKeepsBlankSuffix(s, w2);
      RStripBlankSuffix(LStrip(s), w2);
    }
  }

  /** A leading whitespace character does not change `strip()`. */
  lemma StripDropFront(s: string)
    requires |s| > 0 && IsSpace(s[0])
    ensures Strip(s) == Strip(s[1..])
  {
    assert IsBlank([s[0]]);
    assert s == [s[0]] + s[1..] + [];
    StripIgnoresBlankEnds([s[0]], s[1..], []);
  }

  /** A trailing whitespace character does not change `strip()`. */
  lemma StripDropBack(s: string)
    requires |s| > 0 && IsSpace(s[|s| - 1])
    ensures Strip(s) == Strip(s[..|s| - 1])
  {
    assert IsBlank([s[|s| - 1]]);
    assert s == [] + s[..|s| - 1] + [s[|s| - 1]];
    StripIgnoresBlankEnds([], s[..|s| - 1], [s[|s| - 1]]);
  }

  lemma LStripDecompose(s: string) returns (w: string)
    ensures IsBlank(w) && s == w + LStrip(s)
  {
    var l := LStrip(s);
    w := s[..|s| - |l|];
    assert IsBlank(w) by {
      forall i | 0 <= i < |w| ensures IsSpace(w[i]) { assert w[i] == s[i]; }
    }
  }

  lemma RStripDecompose(s: string) returns (w: string)
    ensures IsBlank(w) && s == RStrip(s) + w
  {
    var r := RStrip(s);
    w := s[|r|..];
    assert IsBlank(w) by {
      forall i | 0 <= i < |w| ensures IsSpace(w[i]) { assert w[i] == s[|r| + i]; }
    }
  }

  /** `strip()` removes exactly a blank prefix and a blank suffix. */
  lemma StripDecompose(s: string) returns (w1: string, w2: string)
    ensures IsBlank(w1) && IsBlank(w2) && s == w1 + Strip(s) + w2
  {
    w1 := LStripDecompose(s);
    w2 := RStripDecompose(LStrip(s));
    assert Strip(s) == RStrip(LStrip(s));
    SeqAssoc(w1, Strip(s), w2);
  }

  /** `strip()` is idempotent. */
  lemma StripStrip(s: string)
    ensures Strip(Strip(s)) == Strip(s)
  {
    var w1, w2 := StripDecompose(s);
    StripIgnoresBlankEnds(w1, Strip(s), w2);
  }

  // ---------------------------------------------------------------------------
  // split() and join

  /** A word of `split()`: non-empty and free of whitespace. */
  predicate IsWord(w: string) {
    |w| > 0 && forall i :: 0 <= i < |w| ==> !IsSpace(w[i])
  }

  /** Length of the run of non-whitespace characters at the start of `s`. */
  function WordLen(s: string): (n: nat)
    ensures n <= |s|
    ensures forall i :: 0 <= i < n ==> !IsSpace(s[i])
    ensures n == |s| || IsSpace(s[n])
  {
    if |s| == 0 || IsSpace(s[0]) then 0 else 1 + WordLen(s[1..])
  }

  /** `s.split()`: the maximal runs of non-whitespace characters, in order. */
  function Split(s: string): (ws: seq<string>)
    ensures forall i :: 0 <= i < |ws| ==> IsWord(ws[i])
    decreases |s|
  {
    if |s| == 0 then []
    else if IsSpace(s[0]) then Split(s[1..])
    else
      var n := WordLen(s);
      [s[..n]] + Split(s[n..])
  }

  /** `sep.join(parts)`. */
  function Join(sep: string, parts: seq<string>): string
  {
    if |parts| == 0 then ""
    else if |parts| == 1 then parts[0]
    else parts[0] + sep + Join(sep, parts[1..])
  }

  /** The first part of a join, then the separator and the rest, if any. */
  lemma JoinHead(sep: string, parts: seq<string>)
    requires parts != []
    ensures Join(sep, parts) == parts[0] + (if |parts| == 1 then [] else sep + Join(sep, parts[1..]))
  {
    if |parts| == 1 {
      AppendNil(parts[0]);
    } else {
      SeqAssoc(parts[0], sep, Join(sep, parts[1..]));
    }
  }

  /** `' '.join(s.split())`: whitespace runs collapsed to one space, ends trimmed. */
  function Collapse(s: string): string {
    Join(" ", Split(s))
  }

  /** The shape `Collapse` produces: every whitespace character is a single `' '`
      standing between two non-whitespace characters. */
  predicate Normalized(t: string) {
    forall i :: 0 <= i < |t| ==> NormalAt(t, i)
  }

  predicate NormalAt(t: string, i: nat)
    requires i < |t|
  {
    IsSpace(t[i]) ==> t[i] == ' ' && 0 < i < |t| - 1 && !IsSpace(t[i - 1]) && !IsSpace(t[i + 1])
  }

  lemma WordLenOfWordThenSpace(w: string, rest: string)
    requires IsWord(w) && |rest| > 0 && IsSpace(rest[0])
    ensures WordLen(w + rest) == |w|
    decreases |w|
  {
    if |w| > 1 {
      assert (w + rest)[1..] == w[1..] + rest;
      WordLenOfWordThenSpace(w[1..], rest);
    } else {
      assert (w + rest)[1..] == rest;
    }
  }

  lemma WordLenOfWord(w: string)
    requires IsWord(w)
    ensures WordLen(w) == |w|
    decreases |w|
  {
    if |w| > 1 { WordLenOfWord(w[1..]); }
  }

  /** Joining words with single spaces and splitting again gives the words back. */
  lemma {:induction false} SplitJoin(ws: seq<string>)
    requires forall i :: 0 <= i < |ws| ==> IsWord(ws[i])
    ensures Split(Join(" ", ws)) == ws
    decreases |ws|
  {
    if |ws| == 1 {
      var w := ws[0];
      WordLenOfWord(w);
      assert w[..|w|] == w;
      assert w[|w|..] == [];
    } else if |ws| > 1 {
      var w, rest := ws[0], Join(" ", ws[1..]);
      var t := w + " " + rest;
      assert t == w + (" " + rest);
      WordLenOfWordThenSpace(w, " " + rest);
      assert t[..|w|] == w;
      assert t[|w|..] == " " + rest;
      assert (" " + rest)[1..] == rest;
      SplitJoin(ws[1..]);
      assert [ws[0]] + ws[1..] == ws;
    }
  }

  lemma {:induction false} JoinNormalized(ws: seq<string>)
    requires forall i :: 0 <= i < |ws| ==> IsWord(ws[i])
    ensures Normalized(Join(" ", ws))
    ensures |ws| > 0 ==> |ws[0]| > 0 && |Join(" ", ws)| > 0 && Join(" ", ws)[0] == ws[0][0]
    decreases |ws|
  {
    if |ws| > 1 {
      var w, rest := ws[0], Join(" ", ws[1..]);
      JoinNormalized(ws[1..]);
      var t := w + " " + rest;
      forall i | 0 <= i < |t| ensures NormalAt(t, i) {
        if i < |w| {
          assert t[i] == w[i];
        } else if i == |w| {
          assert t[i - 1] == w[|w| - 1];
          assert t[i + 1] == rest[0] == ws[1][0];
        } else {
          var j := i - |w| - 1;
          assert t[i] == rest[j];
          assert NormalAt(rest, j);
          if j == 0 {
            assert rest[0] == ws[1][0];
          } else if IsSpace(t[i]) {
            assert t[i - 1] == rest[j - 1] && t[i + 1] == rest[j + 1];
          }
        }
      }
    } else if |ws| == 1 {
      assert Join(" ", ws) == ws[0];
    }
  }

  lemma {:induction false} SplitBlankPrefix(w: string, s: string)
    requires IsBlank(w)
    ensures Split(w + s) == Split(s)
    decreases |w|
  {
    if |w| > 0 {
      assert (w + s)[1..] == w[1..] + s;
      SplitBlankPrefix(w[1..], s);
    } else {
      assert w + s == s;
    }
  }

  lemma {:induction false} WordLenBlankSuffix(s: string, w: string)
    requires IsBlank(w)
    ensures WordLen(s + w) == WordLen(s)
    decreases |s|
  {
    if |s| == 0 {
      assert s + w == w;
    } else if !IsSpace(s[0]) {
      assert (s + w)[1..] == s[1..] + w;
      WordLenBlankSuffix(s[1..], w);
    }
  }

  lemma {:induction false} SplitBlankSuffix(s: string, w: string)
    requires IsBlank(w)
    ensures Split(s + w) == Split(s)
    decreases |s|
  {
    if |s| == 0 {
      assert s + w == w;
      BlankSplitsEmpty(w);
    } else if IsSpace(s[0]) {
      assert (s + w)[1..] == s[1..] + w;
      SplitBlankSuffix(s[1..], w);
    } else {
      WordLenBlankSuffix(s, w);
      var n := WordLen(s);
      assert (s + w)[..n] == s[..n];
      assert (s + w)[n..] == s[n..] + w;
      SplitBlankSuffix(s[n..], w);
    }
  }

  lemma {:induction false} BlankSplitsEmpty(w: string)
    requires IsBlank(w)
    ensures Split(w) == []
    decreases |w|
  {
    if |w| > 0 { BlankSplitsEmpty(w[1..]); }
  }

  lemma {:induction false} SplitEmptyIsBlank(s: string)
    requires Split(s) == []
    ensures IsBlank(s)
    decreases |s|
  {
    if |s| > 0 {
      SplitEmptyIsBlank(s[1..]);
      forall i | 0 <= i < |s| ensures IsSpace(s[i]) {
        if i > 0 { assert s[i] == s[1..][i - 1]; }
      }
    }
  }

  /** Collapsing ignores whitespace around the text. */
  lemma CollapseIgnoresBlankEnds(w1: string, s: string, w2: string)
    requires IsBlank(w1) && IsBlank(w2)
    ensures Collapse(w1 + s + w2) == Collapse(s)
  {
    assert w1 + s + w2 == w1 + (s + w2);
    SplitBlankPrefix(w1, s + w2);
    SplitBlankSuffix(s, w2);
  }

  /** Collapsing after stripping is collapsing. */
  lemma CollapseStrip(s: string)
    ensures Collapse(Strip(s)) == Collapse(s)
  {
    var w1, w2 := StripDecompose(s);
    CollapseIgnoresBlankEnds(w1, Strip(s), w2);
  }

  /** A string already in collapsed shape is its own collapse. */
  lemma {:induction false} CollapseOfNormalized(t: string)
    requires Normalized(t)
    ensures Collapse(t) == t
    decreases |t|
  {
    if |t| > 0 {
      var n := WordLen(t);
      assert NormalAt(t, 0);
      if n == |t| {
        assert t[..n] == t && t[n..] == [];
        assert Split(t) == [t];
      } else {
        var rest := NormalizedTail(t);
        CollapseOfNormalized(rest);
        SplitWordSpace(t, n);
        JoinHead(" ", Split(t));
        assert Split(t)[1..] == Split(rest);
        assert t == t[..n] + (" " + rest) by {
          Rejoin(t, n);
          assert t[n..] == " " + rest;
        }
      }
    }
  }

  /** After the first word of a normalized string come one space and a normalized,
      non-empty rest that starts with a word. */
  lemma NormalizedTail(t: string) returns (rest: string)
    requires Normalized(t) && 0 < |t| && WordLen(t) < |t|
    ensures var n := WordLen(t);
            t[n] == ' ' && rest == t[n + 1..] && Normalized(rest) && |rest| > 0 && !IsSpace(rest[0])
  {
    var n := WordLen(t);
    rest := t[n + 1..];
    assert NormalAt(t, n);
    forall i | 0 <= i < |rest| ensures NormalAt(rest, i) {
      assert rest[i] == t[n + 1 + i];
      assert NormalAt(t, n + 1 + i);
    }
  }

  /** A word, one space, then a rest starting with a word splits into the word and the
      split of the rest. */
  lemma SplitWordSpace(t: string, n: nat)
    requires 0 < n == WordLen(t) && n + 1 < |t| && t[n] == ' ' && !IsSpace(t[n + 1])
    ensures Split(t) == [t[..n]] + Split(t[n + 1..]) && Split(t[n + 1..]) != []
  {
    assert t[n..][1..] == t[n + 1..];
    assert Split(t[n..]) == Split(t[n + 1..]);
  }

  /** Cutting a sequence and gluing it back. */
  /** Moving the first element of `x` over to `b`. */
  lemma ConsRest<T>(b: seq<T>, x: seq<T>)
    requires x != []
    ensures b + [x[0]] + x[1..] == b + x
  {
    assert [x[0]] + x[1..] == x;
  }

  /** Dropping inside the first part keeps the second whole. */
  lemma DropAppend<T>(a: seq<T>, b: seq<T>, n: nat)
    requires n <= |a|
    ensures (a + b)[n..] == a[n..] + b
  {
  }

  /** Taking up to the end of what the second part starts with. */
  lemma TakeAppend<T>(a: seq<T>, b: seq<T>, w: seq<T>)
    requires |w| <= |b| && b[..|w|] == w
    ensures (a + b)[..|a| + |w|] == a + w
  {
    assert (a + b)[..|a| + |w|] == a + b[..|w|];
  }

  /** Dropping past a whole prefix lands inside the rest. */
  lemma DropPrefix<T>(a: seq<T>, b: seq<T>, k: nat)
    requires k <= |b|
    ensures (a + b)[|a| + k..] == b[k..]
  {
  }

  lemma Rejoin<T>(s: seq<T>, n: nat)
    requires n <= |s|
    ensures s[..n] + s[n..] == s
  {
  }

  /** The SQL normalisation produces no edge whitespace, no double spaces and no
      whitespace other than `' '`, keeps the words, and is idempotent. */
  lemma CollapseProperties(s: string)
    ensures Normalized(Collapse(s))
    ensures Split(Collapse(s)) == Split(s)
    ensures Collapse(Collapse(s)) == Collapse(s)
    ensures Collapse(s) == [] <==> IsBlank(s)
  {
    JoinNormalized(Split(s));
    SplitJoin(Split(s));
    CollapseOfNormalized(Collapse(s));
    if IsBlank(s) { BlankSplitsEmpty(s); }
    if Split(s) == [] { SplitEmptyIsBlank(s); }
  }

  /** A join containing a non-blank part is not blank. */
  lemma {:induction false} JoinNotBlank(sep: string, parts: seq<string>, k: nat)
    requires k < |parts| && !IsBlank(parts[k])
    ensures !IsBlank(Join(sep, parts))
    decreases |parts|
  {
    var i :| 0 <= i < |parts[k]| && !IsSpace(parts[k][i]);
    if |parts| > 1 {
      var j := Join(sep, parts[1..]);
      assert Join(sep, parts) == parts[0] + sep + j;
      if k == 0 {
        assert Join(sep, parts)[i] == parts[0][i];
      } else {
        JoinNotBlank(sep, parts[1..], k - 1);
        var m :| 0 <= m < |j| && !IsSpace(j[m]);
        assert Join(sep, parts)[|parts[0]| + |sep| + m] == j[m];
      }
    }
  }
}
