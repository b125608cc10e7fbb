/**
  What `retrieveQueries` renders, `SQLContext` reads back: `findall` over the rendered
  text yields one match per key, in order, whose groups are the key and the SQL value
  with their surrounding whitespace removed, and the score text as printed.

  This holds when no key contains `\nSQL value:` and no SQL value contains `\nScore:`
  (in any letter case), and neither is blank; scores are non-negative, since the score
  group `\d+\.?\d*` has no sign.
 */
module RetrievalRoundTrip {
  import opened Wrappers
  import opened Text
  import opened SimilarQueryPattern
  import Tools
  import KnowledgeBase

  /** A key and its SQL value that survive the trip through the rendered text. */
  predicate Renderable(key: string, sql: string) {
    && !IsBlank(key) && !IsBlank(sql)
    && !ContainsCI(key, "\n" + SqlValue) && !ContainsCI(sql, "\n" + ScoreLabel)
  }

  /** The shape `FormatScore` gives a non-negative score: digits, a dot, four digits. */
  predicate ScoreText(f: string) {
    |f| >= 6 && f[|f| - 5] == '.'
    && (forall j :: 0 <= j < |f| - 5 ==> IsDigit(f[j]))
    && (forall j :: |f| - 4 <= j < |f| ==> IsDigit(f[j]))
  }

  lemma FormatScoreText(x: int)
    requires x >= 0
    ensures ScoreText(Tools.FormatScore(x))
  {
    var f := Tools.FormatScore(x);
    var d := Tools.Decimal(x / 10000);
    var p := Tools.Pad4(x % 10000);
    assert f == d + "." + p;
    assert forall j :: 0 <= j < |f| - 5 ==> f[j] == d[j];
    assert forall j :: |f| - 4 <= j < |f| ==> f[j] == p[j - |f| + 4];
  }

  // ---------------------------------------------------------------------------
  // Offsets into a block

  /** `x` sits in `s` at offset `base`. */
  predicate Placed(s: string, base: nat, x: string) {
    base + |x| <= |s| && s[base..base + |x|] == x
  }

  lemma PlacedSplit(s: string, base: nat, u: string, v: string)
    requires Placed(s, base, u + v)
    ensures Placed(s, base, u) && Placed(s, base + |u|, v)
  {
    assert forall j :: 0 <= j < |u| ==> (u + v)[j] == u[j];
    assert forall j :: 0 <= j < |v| ==> (u + v)[|u| + j] == v[j];
  }

  lemma PlacedPrefix(u: string, v: string)
    ensures Placed(u + v, 0, u) && Placed(u + v, |u|, v)
  {
  }

  lemma PlacedWithin(s: string, x: string, w: string, b: nat, c: nat)
    requires Placed(s, b, x) && Placed(x, c, w)
    ensures Placed(s, b + c, w)
  {
    forall k | 0 <= k < |w| ensures s[b + c + k] == w[k] {
      assert x[c + k] == w[k];
      assert s[b..b + |x|][c + k] == s[b + (c + k)];
    }
    assert s[b + c..b + c + |w|] == w;
  }

  lemma PlacedAt(s: string, base: nat, x: string, j: nat)
    requires Placed(s, base, x) && j < |x|
    ensures s[base + j] == x[j]
  {
    assert s[base..base + |x|][j] == s[base + j];
  }

  lemma PlacedSlice(s: string, base: nat, x: string)
    requires Placed(s, base, x)
    ensures s[base..base + |x|] == x
  {
  }

  /** A rendered block after its leading newline, its score already printed as `f`, in
      three stretches. */
  function Head(key: string): string {
    NlKey + " " + key
  }

  function Middle(key: string, sql: string): string {
    Head(key) + "\n" + SqlValue + " " + sql
  }

  function Body(key: string, sql: string, f: string): string {
    Middle(key, sql) + "\n" + ScoreLabel + " " + f
  }

  lemma BlockBody(key: string, sql: string, x: int)
    ensures Tools.Block(key, sql, x) == "\n" + Body(key, sql, Tools.FormatScore(x))
  {
  }

  lemma HeadLayout(key: string)
    ensures var h := Head(key);
            |h| == 8 + |key| && Placed(h, 0, NlKey) && h[7] == ' ' && Placed(h, 8, key)
  {
    var s1 := NlKey + " ";
    assert |NlKey| == 7;
    PlacedPrefix(s1, key);
    PlacedPrefix(NlKey, " ");
    PlacedWithin(Head(key), s1, NlKey, 0, 0);
    PlacedWithin(Head(key), s1, " ", 0, 7);
  }

  lemma MiddleLayout(key: string, sql: string)
    ensures var m, K := Middle(key, sql), |key|;
            && |m| == 20 + K + |sql| && Placed(m, 0, Head(key))
            && m[8 + K] == '\n' && Placed(m, 9 + K, SqlValue) && m[19 + K] == ' ' && Placed(m, 20 + K, sql)
  {
    var K := |key|;
    var s1 := Head(key) + "\n";
    var s2 := s1 + SqlValue;
    var s3 := s2 + " ";
    assert |Head(key)| == 8 + K && |SqlValue| == 10;
    PlacedPrefix(s3, sql);
    PlacedPrefix(s2, " ");
    PlacedPrefix(s1, SqlValue);
    PlacedPrefix(Head(key), "\n");
    PlacedWithin(Middle(key, sql), s3, s2, 0, 0);
    PlacedWithin(Middle(key, sql), s2, s1, 0, 0);
    PlacedWithin(Middle(key, sql), s1, Head(key), 0, 0);
    PlacedWithin(Middle(key, sql), s1, "\n", 0, 8 + K);
    PlacedWithin(Middle(key, sql), s2, SqlValue, 0, 9 + K);
    PlacedWithin(Middle(key, sql), s3, " ", 0, 19 + K);
  }

  lemma BodyLayout(key: string, sql: string, f: string, y: string)
    ensures var s, n := Body(key, sql, f) + y, 20 + |key| + |sql|;
            && |Body(key, sql, f)| == n + 8 + |f|
            && |s| == n + 8 + |f| + |y| && Placed(s, 0, Middle(key, sql))
            && s[n] == '\n' && Placed(s, n + 1, ScoreLabel) && s[n + 7] == ' '
            && Placed(s, n + 8, f) && Placed(s, n + 8 + |f|, y)
  {
    var n := 20 + |key| + |sql|;
    var b := Body(key, sql, f);
    var s := b + y;
    BodyShape(key, sql, f);
    PlacedPrefix(b, y);
    PlacedWithin(s, b, Middle(key, sql), 0, 0);
    PlacedWithin(s, b, ScoreLabel, 0, n + 1);
    PlacedWithin(s, b, f, 0, n + 8);
    PlacedAt(s, 0, b, n);
    PlacedAt(s, 0, b, n + 7);
  }

  /** A block body: the key and SQL part, a newline, the score label, a space, the score. */
  lemma BodyShape(key: string, sql: string, f: string)
    ensures var b, n := Body(key, sql, f), 20 + |key| + |sql|;
            && |b| == n + 8 + |f| && Placed(b, 0, Middle(key, sql))
            && b[n] == '\n' && Placed(b, n + 1, ScoreLabel) && b[n + 7] == ' ' && Placed(b, n + 8, f)
  {
    var n := 20 + |key| + |sql|;
    var m := Middle(key, sql);
    var s1 := m + "\n";
    var s2 := s1 + ScoreLabel;
    var s3 := s2 + " ";
    var b := s3 + f;
    MiddleLayout(key, sql);
    assert |ScoreLabel| == 6;
    PlacedPrefix(s3, f);
    PlacedPrefix(s2, " ");
    PlacedPrefix(s1, ScoreLabel);
    PlacedPrefix(m, "\n");
    PlacedWithin(b, s3, s2, 0, 0);
    PlacedWithin(b, s2, s1, 0, 0);
    PlacedWithin(b, s1, m, 0, 0);
    PlacedWithin(b, s2, ScoreLabel, 0, n + 1);
    PlacedAt(b, 0, s1, n);
    PlacedAt(b, 0, s3, n + 7);
  }

  // ---------------------------------------------------------------------------
  // The search over a laid-out block

  /** `x` occurs in `s` at offset `base`, stated character by character: the form the
      search reasons with, where `Placed` is the form the layout is built with. */
  predicate Occurs(s: string, base: nat, x: string) {
    base + |x| <= |s| && forall j {:trigger x[j]} :: 0 <= j < |x| ==> s[base + j] == x[j]
  }

  lemma PlacedOccurs(s: string, base: nat, x: string)
    requires Placed(s, base, x)
    ensures Occurs(s, base, x)
  {
    forall j | 0 <= j < |x| ensures s[base + j] == x[j] {
      PlacedAt(s, base, x, j);
    }
  }

  lemma OccursSub(s: string, b: nat, x: string, i: nat, k: nat)
    requires Occurs(s, b, x) && i <= k <= |x|
    ensures s[b + i..b + k] == x[i..k]
  {
    forall j | 0 <= j < k - i ensures s[b + i..b + k][j] == x[i..k][j] {
      assert x[i + j] == x[i..k][j];
    }
  }

  lemma OccursWhole(s: string, b: nat, x: string)
    requires Occurs(s, b, x)
    ensures s[b..b + |x|] == x
  {
    assert forall j :: 0 <= j < |x| ==> s[b..b + |x|][j] == x[j];
  }

  lemma OccursLit(s: string, b: nat, lit: string)
    requires Occurs(s, b, lit)
    ensures LitAt(s, b, lit)
  {
    forall j | 0 <= j < |lit| ensures CharMatchesCI(s[b + j], lit[j]) {
      assert s[b + j] == lit[j];
    }
  }

  lemma OccursSpaces(s: string, b: nat, x: string, lo: nat, hi: nat)
    requires Occurs(s, b, x) && lo <= hi <= |x|
    requires forall j :: lo <= j < hi ==> IsSpace(x[j])
    ensures forall j :: b + lo <= j < b + hi ==> IsSpace(s[j])
  {
    forall j | b + lo <= j < b + hi ensures IsSpace(s[j]) {
      assert s[j] == x[j - b];
    }
  }

  /** Reading a literal inside an occurring string is reading it in that string. */
  lemma LitAtOccurs(s: string, base: nat, x: string, i: nat, p: string)
    requires Occurs(s, base, x) && i + |p| <= |x|
    ensures LitAt(s, base + i, p) == LitAt(x, i, p)
  {
    forall k | i <= k < i + |p| ensures s[base + k] == x[k] {
    }
  }

  lemma MarkerAtLit(s: string, st: Stage, m: nat)
    ensures MarkerAt(s, st, m) == LitAt(s, m, "\n" + Marker(st))
  {
    var M := Marker(st);
    var p := "\n" + M;
    assert p[0] == '\n';
    if m < |s| && s[m] == '\n' && m + |p| <= |s| {
      if LitAt(s, m + 1, M) {
        forall j | 0 <= j < |p| ensures CharMatchesCI(s[m + j], p[j]) {
          if j > 0 { assert p[j] == M[j - 1] && s[m + j] == s[m + 1 + (j - 1)]; }
        }
      }
      if LitAt(s, m, p) {
        forall j | 0 <= j < |M| ensures CharMatchesCI(s[m + 1 + j], M[j]) {
          assert p[j + 1] == M[j] && CharMatchesCI(s[m + (j + 1)], p[j + 1]);
        }
      }
    }
  }

  /** No marker starts inside an occurring `x` that is followed by a newline, when `x`
      does not contain the marker itself. */
  lemma NoMarkerInside(s: string, st: Stage, base: nat, x: string)
    requires Occurs(s, base, x) && base + |x| < |s| && s[base + |x|] == '\n'
    requires !ContainsCI(x, "\n" + Marker(st))
    ensures forall j :: base <= j < base + |x| ==> !MarkerAt(s, st, j)
  {
    var p := "\n" + Marker(st);
    forall j | base <= j < base + |x|
      ensures !MarkerAt(s, st, j)
    {
      MarkerAtLit(s, st, j);
      if j + |p| <= base + |x| {
        LitAtOccurs(s, base, x, j - base, p);
        assert !LitAt(x, j - base, p);
      } else {
        var t := base + |x| - j;
        assert 0 < t < |p|;
        assert p[t] != '\n';
        NewlineMatchesOnlyItself(p[t]);
        assert !CharMatchesCI(s[j + t], p[t]);
      }
    }
  }

  /** A printed score followed by a non-digit is matched whole by `\d+\.?\d*`. */
  lemma ScoreAtText(s: string, b: nat, f: string)
    requires Occurs(s, b, f) && ScoreText(f)
    requires b + |f| == |s| || !IsDigit(s[b + |f|])
    ensures ScoreAt(s, b) == Some(b + |f|)
  {
    var d := |f| - 5;
    forall j | b <= j < b + d ensures IsDigit(s[j]) { assert s[j] == f[j - b]; }
    assert s[b + d] == f[d];
    DigitRunExact(s, b, d);
    forall j | b + d + 1 <= j < b + |f| ensures IsDigit(s[j]) { assert s[j] == f[j - b]; }
    DigitRunExact(s, b + d + 1, 4);
  }

  /** A non-blank `x` has a first and a last non-space character. */
  lemma StripBounds(x: string) returns (i: nat, k: nat)
    requires !IsBlank(x)
    ensures i < k <= |x|
    ensures forall j :: 0 <= j < i ==> IsSpace(x[j])
    ensures !IsSpace(x[i]) && !IsSpace(x[k - 1])
    ensures forall j :: k <= j < |x| ==> IsSpace(x[j])
  {
    i := FirstNonSpace(x, 0);
    k := LastNonSpace(x, |x|);
  }

  /** The first non-space character at or after `p`. */
  lemma FirstNonSpace(x: string, p: nat) returns (i: nat)
    requires p <= |x| && !IsBlank(x)
    requires forall j :: 0 <= j < p ==> IsSpace(x[j])
    ensures p <= i < |x| && !IsSpace(x[i])
    ensures forall j :: 0 <= j < i ==> IsSpace(x[j])
    decreases |x| - p
  {
    if p < |x| && !IsSpace(x[p]) {
      i := p;
    } else {
      i := FirstNonSpace(x, p + 1);
    }
  }

  /** The end of the last non-space character before `q`. */
  lemma LastNonSpace(x: string, q: nat) returns (k: nat)
    requires q <= |x| && !IsBlank(x)
    requires forall j :: q <= j < |x| ==> IsSpace(x[j])
    ensures 0 < k <= q && !IsSpace(x[k - 1])
    ensures forall j :: k <= j < |x| ==> IsSpace(x[j])
    decreases q
  {
    if q > 0 && !IsSpace(x[q - 1]) {
      k := q;
    } else {
      k := LastNonSpace(x, q - 1);
    }
  }

  /** Stripping keeps exactly the stretch between the first and the last non-space
      character. */
  lemma StripOfBounds(x: string, i: nat, k: nat)
    requires i < k <= |x|
    requires forall j :: 0 <= j < i ==> IsSpace(x[j])
    requires !IsSpace(x[i]) && !IsSpace(x[k - 1])
    requires forall j :: k <= j < |x| ==> IsSpace(x[j])
    ensures Strip(x) == x[i..k]
  {
    var l := x[i..];
    assert forall j :: k - i <= j < |l| ==> IsSpace(l[j]) by {
      forall j | k - i <= j < |l| ensures IsSpace(l[j]) { assert l[j] == x[i + j]; }
    }
    assert l[k - i - 1] == x[k - 1];
    SuffixPrefix(x, i, k);
    LStripFrom(x, i);
    RStripTo(l, k - i);
    assert Strip(x) == RStrip(LStrip(x));
  }

  /** Cutting `x[i..]` at `k - i` is the slice `x[i..k]`. */
  lemma SuffixPrefix<T>(x: seq<T>, i: nat, k: nat)
    requires i <= k <= |x|
    ensures x[i..][..k - i] == x[i..k]
  {
  }

  /** `lstrip()` drops exactly the leading whitespace up to the first non-space `i`. */
  lemma {:induction false} LStripFrom(x: string, i: nat)
    requires i < |x| && !IsSpace(x[i])
    requires forall j :: 0 <= j < i ==> IsSpace(x[j])
    ensures LStrip(x) == x[i..]
    decreases i
  {
    if i > 0 {
      assert forall j :: 0 <= j < i - 1 ==> x[1..][j] == x[j + 1];
      assert x[1..][i - 1] == x[i];
      LStripFrom(x[1..], i - 1);
      assert x[1..][i - 1..] == x[i..];
    }
  }

  /** `rstrip()` drops exactly the trailing whitespace after the last non-space `k - 1`. */
  lemma {:induction false} RStripTo(y: string, k: nat)
    requires 0 < k <= |y| && !IsSpace(y[k - 1])
    requires forall j :: k <= j < |y| ==> IsSpace(y[j])
    ensures RStrip(y) == y[..k]
    decreases |y|
  {
    if |y| > k {
      var y' := y[..|y| - 1];
      assert forall j :: k <= j < |y'| ==> y'[j] == y[j];
      assert y'[k - 1] == y[k - 1];
      RStripTo(y', k);
      assert y'[..k] == y[..k];
    }
  }

  /** Non-space bounds `[i, k)` of a stretch, as `StripBounds` finds them. */
  predicate Bounds(x: string, i: nat, k: nat) {
    && i < k <= |x|
    && (forall j :: 0 <= j < i ==> IsSpace(x[j]))
    && !IsSpace(x[i]) && !IsSpace(x[k - 1])
    && (forall j :: k <= j < |x| ==> IsSpace(x[j]))
  }

  /** A stretch `x` with non-space bounds `[i, k)`, occurring after a space at `q` and
      ending at `e`: the whitespace around its non-space middle `[a, z)` of `t`. */
  lemma Region(t: string, q: nat, x: string, i: nat, k: nat, a: nat, z: nat, e: nat)
    requires Bounds(x, i, k) && q < |t| && t[q] == ' ' && Occurs(t, q + 1, x)
    requires a == q + 1 + i && z == q + 1 + k && e == q + 1 + |x|
    ensures z <= |t| && t[a..z] == x[i..k]
    ensures forall j :: q <= j < a ==> IsSpace(t[j])
    ensures !IsSpace(t[a]) && !IsSpace(t[z - 1])
    ensures forall j :: z <= j < e ==> IsSpace(t[j])
  {
    OccursSub(t, q + 1, x, i, k);
    assert t[q + 1 + i] == x[i] && t[q + 1 + (k - 1)] == x[k - 1];
    OccursSpaces(t, q + 1, x, 0, i);
    OccursSpaces(t, q + 1, x, k, |x|);
  }

  /** A stretch `x` after a space at `q`, closed at `e` by the stage's marker, that does
      not contain the marker itself: the first marker from `q` on is the closing one. */
  lemma MarkerFacts(t: string, st: Stage, q: nat, x: string, e: nat)
    requires !ContainsCI(x, "\n" + Marker(st)) && e == q + 1 + |x|
    requires q < |t| && t[q] == ' ' && Occurs(t, q + 1, x) && MarkerAt(t, st, e)
    ensures forall j :: q <= j < e ==> !MarkerAt(t, st, j)
  {
    NoMarkerInside(t, st, q + 1, x);
    assert !MarkerAt(t, st, q);
  }

  /** The score after the score label ending at `c`: one space, then the printed score. */
  lemma ScoreFacts(t: string, c: nat, f: string)
    requires ScoreText(f) && c < |t| && t[c] == ' ' && Occurs(t, c + 1, f)
    requires c + 1 + |f| == |t| || t[c + 1 + |f|] == '\n'
    ensures WsRun(t, c) == 1 && ScoreAt(t, c + 1) == Some(c + 1 + |f|)
  {
    assert t[c + 1 + 0] == f[0];
    WsRunExact(t, c, 1);
    ScoreAtText(t, c + 1, f);
  }

  /** From the space after the SQL label (at `q`) on: the SQL group is `[a, z)` and the
      score group ends at `e`, whatever NL group `nl` came before. */
  lemma SqlStage(t: string, q: nat, a: nat, z: nat, n: nat, e: nat, nl: Span)
    requires q <= a < z <= n && n + 8 <= e <= |t| && SpanIn(nl, |t|)
    requires forall j :: q <= j < a ==> IsSpace(t[j])
    requires !IsSpace(t[a]) && !IsSpace(t[z - 1])
    requires forall j :: z <= j < n ==> IsSpace(t[j])
    requires MarkerAt(t, SqlGroup, n) && forall j :: q <= j < n ==> !MarkerAt(t, SqlGroup, j)
    requires WsRun(t, n + 7) == 1 && ScoreAt(t, n + 8) == Some(e)
    ensures TryGroup(t, SqlGroup, q, WsRun(t, q), nl) == Some(Hit(nl, Span(a, z), Span(n + 8, e)))
  {
    assert AfterMarker(t, SqlGroup, n + 7, nl, Span(a, z)) == Some(Hit(nl, Span(a, z), Span(n + 8, e)));
    GroupSettles(t, SqlGroup, q, a, z, n, nl);
  }

  /** From the space after the NL label (at 7) on. */
  lemma NlStage(t: string, a: nat, z: nat, m: nat, h: Hit)
    requires 7 <= a < z <= m && m + 11 <= |t|
    requires forall j :: 7 <= j < a ==> IsSpace(t[j])
    requires !IsSpace(t[a]) && !IsSpace(t[z - 1])
    requires forall j :: z <= j < m ==> IsSpace(t[j])
    requires MarkerAt(t, NlGroup, m) && forall j :: 7 <= j < m ==> !MarkerAt(t, NlGroup, j)
    requires h.nl == Span(a, z) && TryGroup(t, SqlGroup, m + 11, WsRun(t, m + 11), Span(a, z)) == Some(h)
    ensures TryGroup(t, NlGroup, 7, WsRun(t, 7), Span(0, 0)) == Some(h)
  {
    GroupSettles(t, NlGroup, 7, a, z, m, Span(0, 0));
  }

  /** The SQL group and the score of a block laid out in `t` with the key `K` characters
      long: from the space after the SQL label on, the search settles on the stretch
      `[i2, k2)` of the SQL value and on the whole score text. */
  lemma SqlPart(t: string, K: nat, n: nat, sql: string, f: string, i2: nat, k2: nat, nl: Span)
    requires Bounds(sql, i2, k2) && !ContainsCI(sql, "\n" + ScoreLabel) && ScoreText(f)
    requires n == 20 + K + |sql| && n + 8 + |f| <= |t| && SpanIn(nl, |t|)
    requires t[19 + K] == ' ' && Occurs(t, 20 + K, sql)
    requires MarkerAt(t, SqlGroup, n) && t[n + 7] == ' ' && Occurs(t, n + 8, f)
    requires n + 8 + |f| == |t| || t[n + 8 + |f|] == '\n'
    ensures TryGroup(t, SqlGroup, 19 + K, WsRun(t, 19 + K), nl)
            == Some(Hit(nl, Span(20 + K + i2, 20 + K + k2), Span(n + 8, n + 8 + |f|)))
  {
    ScoreFacts(t, n + 7, f);
    SqlRegion(t, 19 + K, sql, i2, k2, n);
    SqlStage(t, 19 + K, 20 + K + i2, 20 + K + k2, n, n + 8 + |f|, nl);
  }

  /** The SQL value laid out after the space at `q`: blanks, its stretch `[i, k)`, blanks,
      and no SQL-group marker before the one at `n`. */
  lemma SqlRegion(t: string, q: nat, sql: string, i: nat, k: nat, n: nat)
    requires Bounds(sql, i, k) && !ContainsCI(sql, "\n" + ScoreLabel)
    requires n == q + 1 + |sql| && q < |t| && t[q] == ' ' && Occurs(t, q + 1, sql)
    requires MarkerAt(t, SqlGroup, n)
    ensures q + 1 + i < q + 1 + k <= n
    ensures forall j :: q <= j < q + 1 + i ==> IsSpace(t[j])
    ensures !IsSpace(t[q + 1 + i]) && !IsSpace(t[q + k])
    ensures forall j :: q + 1 + k <= j < n ==> IsSpace(t[j])
    ensures forall j :: q <= j < n ==> !MarkerAt(t, SqlGroup, j)
  {
    Region(t, q, sql, i, k, q + 1 + i, q + 1 + k, n);
    MarkerFacts(t, SqlGroup, q, sql, n);
  }

  /** The whole match of a block laid out in `t`, given the search's result `h` from the
      space after the SQL label on. */
  lemma NlPart(t: string, key: string, K: nat, i1: nat, k1: nat, h: Hit)
    requires Bounds(key, i1, k1) && !ContainsCI(key, "\n" + SqlValue)
    requires K == |key| && 31 + K <= |t| && LitAt(t, 0, NlKey) && t[7] == ' ' && Occurs(t, 8, key)
    requires MarkerAt(t, NlGroup, 8 + K)
    requires h.nl == Span(8 + i1, 8 + k1)
    requires TryGroup(t, SqlGroup, 19 + K, WsRun(t, 19 + K), h.nl) == Some(h)
    ensures MatchAt(t) == Some(h)
  {
    Region(t, 7, key, i1, k1, 8 + i1, 8 + k1, 8 + K);
    MarkerFacts(t, NlGroup, 7, key, 8 + K);
    NlStage(t, 8 + i1, 8 + k1, 8 + K, h);
  }

  /** The key and SQL stretches of a block body followed by `y`. */
  lemma MiddleInBody(key: string, sql: string, f: string, y: string)
    ensures var t, K := Body(key, sql, f) + y, |key|;
            && |t| == 28 + K + |sql| + |f| + |y|
            && Placed(t, 0, NlKey) && t[7] == ' ' && Placed(t, 8, key) && t[8 + K] == '\n'
            && Placed(t, 9 + K, SqlValue) && t[19 + K] == ' ' && Placed(t, 20 + K, sql)
  {
    var K := |key|;
    var t := Body(key, sql, f) + y;
    var m := Middle(key, sql);
    HeadLayout(key);
    MiddleLayout(key, sql);
    BodyLayout(key, sql, f, y);
    PlacedWithin(t, m, Head(key), 0, 0);
    PlacedWithin(t, Head(key), NlKey, 0, 0);
    PlacedWithin(t, Head(key), key, 0, 8);
    PlacedWithin(t, m, SqlValue, 0, 9 + K);
    PlacedWithin(t, m, sql, 0, 20 + K);
    PlacedAt(t, 0, Head(key), 7);
    PlacedAt(t, 0, m, 8 + K);
    PlacedAt(t, 0, m, 19 + K);
  }

  /** What the search needs to know about a block body followed by `y`. */
  lemma BodyFacts(key: string, sql: string, f: string, y: string, t: string, K: nat, n: nat)
    requires y == [] || y[0] == '\n'
    requires t == Body(key, sql, f) + y && K == |key| && n == 20 + K + |sql|
    ensures |t| == n + 8 + |f| + |y| && |Body(key, sql, f)| == n + 8 + |f|
    ensures LitAt(t, 0, NlKey) && t[7] == ' ' && Occurs(t, 8, key) && MarkerAt(t, NlGroup, 8 + K)
    ensures t[19 + K] == ' ' && Occurs(t, 20 + K, sql) && MarkerAt(t, SqlGroup, n)
    ensures t[n + 7] == ' ' && Occurs(t, n + 8, f) && (n + 8 + |f| == |t| || t[n + 8 + |f|] == '\n')
  {
    MiddleInBody(key, sql, f, y);
    BodyLayout(key, sql, f, y);
    LayoutFacts(key, sql, f, y, t, K, n);
  }

  /** The search's view of a laid-out block: labels, spaces and stretches where the
      layout put them. */
  lemma LayoutFacts(key: string, sql: string, f: string, y: string, t: string, K: nat, n: nat)
    requires y == [] || y[0] == '\n'
    requires K == |key| && n == 20 + K + |sql| && |t| == n + 8 + |f| + |y|
    requires Placed(t, 0, NlKey) && t[7] == ' ' && Placed(t, 8, key) && t[8 + K] == '\n'
    requires Placed(t, 9 + K, SqlValue) && t[19 + K] == ' ' && Placed(t, 20 + K, sql)
    requires t[n] == '\n' && Placed(t, n + 1, ScoreLabel) && t[n + 7] == ' '
    requires Placed(t, n + 8, f) && Placed(t, n + 8 + |f|, y)
    ensures LitAt(t, 0, NlKey) && Occurs(t, 8, key) && MarkerAt(t, NlGroup, 8 + K)
    ensures Occurs(t, 20 + K, sql) && MarkerAt(t, SqlGroup, n)
    ensures Occurs(t, n + 8, f) && (n + 8 + |f| == |t| || t[n + 8 + |f|] == '\n')
  {
    if y != [] { PlacedAt(t, n + 8 + |f|, y, 0); }
    PlacedOccurs(t, 0, NlKey);
    OccursLit(t, 0, NlKey);
    PlacedOccurs(t, 9 + K, SqlValue);
    OccursLit(t, 9 + K, SqlValue);
    PlacedOccurs(t, n + 1, ScoreLabel);
    OccursLit(t, n + 1, ScoreLabel);
    PlacedOccurs(t, 8, key);
    PlacedOccurs(t, 20 + K, sql);
    PlacedOccurs(t, n + 8, f);
  }

  /** The search at the start of a block laid out in `t`, given the non-space bounds of
      the key and the SQL value: the match ends with the score text, and its groups are
      those stretches and the score text. */
  lemma MatchLaidOut(t: string, key: string, sql: string, f: string, K: nat, n: nat,
                     i1: nat, k1: nat, i2: nat, k2: nat) returns (h: Hit)
    requires Bounds(key, i1, k1) && Bounds(sql, i2, k2)
    requires !ContainsCI(key, "\n" + SqlValue) && !ContainsCI(sql, "\n" + ScoreLabel) && ScoreText(f)
    requires K == |key| && n == 20 + K + |sql| && n + 8 + |f| <= |t|
    requires LitAt(t, 0, NlKey) && t[7] == ' ' && Occurs(t, 8, key) && MarkerAt(t, NlGroup, 8 + K)
    requires t[19 + K] == ' ' && Occurs(t, 20 + K, sql) && MarkerAt(t, SqlGroup, n)
    requires t[n + 7] == ' ' && Occurs(t, n + 8, f) && (n + 8 + |f| == |t| || t[n + 8 + |f|] == '\n')
    ensures HitIn(h, |t|) && MatchAt(t) == Some(h) && h.score.end == n + 8 + |f|
    ensures Slice(t, h.nl) == key[i1..k1] && Slice(t, h.sql) == sql[i2..k2] && Slice(t, h.score) == f
  {
    var nl := Span(8 + i1, 8 + k1);
    h := Hit(nl, Span(20 + K + i2, 20 + K + k2), Span(n + 8, n + 8 + |f|));
    SqlPart(t, K, n, sql, f, i2, k2, nl);
    NlPart(t, key, K, i1, k1, h);
    OccursSub(t, 8, key, i1, k1);
    OccursSub(t, 20 + K, sql, i2, k2);
    OccursWhole(t, n + 8, f);
  }

  /** The search at the start of a rendered block body followed by `y` (nothing, or the
      newline that separates the next block): the match spans the whole body, its
      groups are the stripped key, the stripped SQL value and the score text. */
  lemma MatchBlock(key: string, sql: string, f: string, y: string) returns (h: Hit)
    requires Renderable(key, sql) && ScoreText(f) && (y == [] || y[0] == '\n')
    ensures var t := Body(key, sql, f) + y;
            && HitIn(h, |t|) && MatchAt(t) == Some(h) && h.score.end == |Body(key, sql, f)|
            && Slice(t, h.nl) == Strip(key) && Slice(t, h.sql) == Strip(sql) && Slice(t, h.score) == f
  {
    var i1, k1 := StripBounds(key);
    var i2, k2 := StripBounds(sql);
    var t, K, n := Body(key, sql, f) + y, |key|, 20 + |key| + |sql|;
    BodyFacts(key, sql, f, y, t, K, n);
    h := MatchLaidOut(t, key, sql, f, K, n, i1, k1, i2, k2);
    StripOfBounds(key, i1, k1);
    StripOfBounds(sql, i2, k2);
  }

  // ---------------------------------------------------------------------------
  // The whole rendered text

  /** A newline in front changes nothing: no match starts at a newline. */
  lemma FindAllNewline(x: string)
    ensures FindAll("\n" + x) == FindAll(x)
  {
    var s := "\n" + x;
    assert !CharMatchesCI(s[0], NlKey[0]);
    assert MatchAt(s) == None;
    assert s[1..] == x;
  }

  /** One block body followed by `y`: its groups, then whatever `y` yields. */
  lemma FindAllBlock(key: string, sql: string, f: string, y: string)
    requires Renderable(key, sql) && ScoreText(f) && (y == [] || y[0] == '\n')
    ensures FindAll(Body(key, sql, f) + y) == [Groups(Strip(key), Strip(sql), f)] + FindAll(y)
  {
    var t := Body(key, sql, f) + y;
    var h := MatchBlock(key, sql, f, y);
    assert t[h.score.end..] == y;
  }

  /** One entry of the tool's output: a key, its SQL value and its score. */
  datatype Entry = Entry(key: string, sql: string, score: int)

  predicate Faithful(e: Entry) {
    Renderable(e.key, e.sql) && e.score >= 0
  }

  function Blocks(es: seq<Entry>): (bs: seq<string>)
    ensures |bs| == |es|
  {
    seq(|es|, j requires 0 <= j < |es| => Tools.Block(es[j].key, es[j].sql, es[j].score))
  }

  /** The groups `findall` is expected to return for each entry. */
  function Expected(es: seq<Entry>): (gs: seq<Groups>)
    ensures |gs| == |es|
  {
    MapSeq(Expect, es)
  }

  function Expect(e: Entry): Groups {
    Groups(Strip(e.key), Strip(e.sql), Tools.FormatScore(e.score))
  }

  /** The joined text is the first block's body after a newline, then the rest. */
  lemma JoinBlocksHead(es: seq<Entry>)
    requires es != []
    ensures var e := es[0];
            Join("\n", Blocks(es))
            == "\n" + (Body(e.key, e.sql, Tools.FormatScore(e.score))
                       + if |es| == 1 then [] else "\n" + Join("\n", Blocks(es[1..])))
  {
    var e := es[0];
    var bs := Blocks(es);
    JoinHead("\n", bs);
    BlockBody(e.key, e.sql, e.score);
    assert bs[0] == Tools.Block(e.key, e.sql, e.score);
    assert Blocks(es[1..]) == bs[1..];
    var y := if |es| == 1 then [] else "\n" + Join("\n", bs[1..]);
    SeqAssoc("\n", Body(e.key, e.sql, Tools.FormatScore(e.score)), y);
  }

  /** One step of the induction, over an abstract remainder. */
  lemma FindAllStep(e: Entry, t: string, rest: string, last: bool)
    requires Faithful(e)
    requires last ==> rest == []
    requires t == "\n" + (Body(e.key, e.sql, Tools.FormatScore(e.score)) + if last then [] else "\n" + rest)
    ensures FindAll(t) == [Expect(e)] + FindAll(rest)
  {
    var f := Tools.FormatScore(e.score);
    var y := if last then [] else "\n" + rest;
    FormatScoreText(e.score);
    FindAllNewline(Body(e.key, e.sql, f) + y);
    FindAllBlock(e.key, e.sql, f, y);
    if !last {
      FindAllNewline(rest);
    }
  }

  /** `findall` over the newline-joined blocks finds one match per entry, in order. */
  lemma {:induction false} FindAllJoined(es: seq<Entry>)
    requires forall j :: 0 <= j < |es| ==> Faithful(es[j])
    ensures FindAll(Join("\n", Blocks(es))) == Expected(es)
    decreases |es|
  {
    if es != [] {
      var rest := Join("\n", Blocks(es[1..]));
      JoinBlocksHead(es);
      FindAllJoined(es[1..]);
      FindAllStep(es[0], Join("\n", Blocks(es)), rest, |es| == 1);
    }
  }

  /** Expected groups, one index at a time. */
  lemma ExpectedAt(es: seq<Entry>, j: nat)
    requires j < |es|
    ensures Expected(es)[j] == Expect(es[j])
  {
    MapSeqAt(Expect, es, j);
  }

  /** The entries the tool renders: each key with its SQL value and its score. */
  function Entries(keys: seq<string>, scores: seq<int>, dict: map<string, string>): (es: seq<Entry>)
    requires |keys| <= |scores| && forall j :: 0 <= j < |keys| ==> keys[j] in dict
    ensures |es| == |keys|
  {
    seq(|keys|, j requires 0 <= j < |keys| => Entry(keys[j], dict[keys[j]], scores[j]))
  }

  /** The tool's text for keys it can render parses back, with the pattern of
      `SQLContext`, into one group per key, in order: the stripped key, the stripped
      SQL value and the printed score. */
  lemma RetrieveParsesBack(keys: seq<string>, scores: seq<int>, dict: map<string, string>)
    requires |keys| <= |scores|
    requires forall j :: 0 <= j < |keys| ==> keys[j] in dict && Renderable(keys[j], dict[keys[j]]) && scores[j] >= 0
    ensures var r := Tools.RetrieveQueries(Some(keys), Some(scores), dict);
            && r.Ok?
            && FindAll(r.value) == Expected(Entries(keys, scores, dict))
  {
    var es := Entries(keys, scores, dict);
    var r := Tools.RetrieveQueries(Some(keys), Some(scores), dict);
    assert forall j :: 0 <= j < |keys| ==> Tools.Renders(keys, Some(scores), dict, j);
    var c := seq(|keys|, j requires 0 <= j < |keys| && Tools.Renders(keys, Some(scores), dict, j) =>
                           Tools.BlockAt(keys, Some(scores), dict, j));
    var bs := Blocks(es);
    forall k | 0 <= k < |keys| ensures c[k] == bs[k] {
      assert es[k] == Entry(keys[k], dict[keys[k]], scores[k]);
    }
    SeqExt(c, bs);
    assert forall j :: 0 <= j < |es| ==> Faithful(es[j]);
    FindAllJoined(es);
  }

  /** Keys drawn from the dictionary `get_queries_dict` builds are never blank, and
      neither are their SQL values: for them the round trip needs only the absence of the
      two labels and non-negative scores. */
  lemma RetrieveFromQueriesDict(lines: seq<string>, keys: seq<string>, scores: seq<int>)
    requires |keys| <= |scores|
    requires forall j :: 0 <= j < |keys| ==>
               && keys[j] in KnowledgeBase.QueriesDict(lines)
               && !ContainsCI(keys[j], "\n" + SqlValue)
               && !ContainsCI(KnowledgeBase.QueriesDict(lines)[keys[j]], "\n" + ScoreLabel)
               && scores[j] >= 0
    ensures var dict := KnowledgeBase.QueriesDict(lines);
            var r := Tools.RetrieveQueries(Some(keys), Some(scores), dict);
            && r.Ok?
            && FindAll(r.value) == Expected(Entries(keys, scores, dict))
  {
    var dict := KnowledgeBase.QueriesDict(lines);
    forall j | 0 <= j < |keys| ensures Renderable(keys[j], dict[keys[j]]) {
      HasNonSpaceNotBlank(keys[j]);
      HasNonSpaceNotBlank(dict[keys[j]]);
    }
    RetrieveParsesBack(keys, scores, dict);
  }
}
