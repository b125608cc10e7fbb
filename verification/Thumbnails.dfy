/**
  The chat UI's thumbnail rewrite (`_embed_thumbnails`): every CREODIAS asset URL
  `https://datahub.creodias.eu/odata/v1/Assets(<id>)/$value` that is not already preceded
  by `![](` is wrapped into the Markdown image `![](<url>)`.

  The regular expression is matched by hand: the literal prefix, a non-empty id free of
  `)` (greedy `[^)]+`, which can only stop at the first `)`), then `)/$value`. `re.sub`
  scans left to right, resumes after each replacement, and evaluates the lookbehind on
  the original text; the scan below carries the text already read as `before`.
 */
module Thumbnails {
  import opened Wrappers
  import Text

  /** The literal part of `THUMBNAIL_REGEX` before the id. */
  const Prefix: string := "https://datahub.creodias.eu/odata/v1/Assets("

  /** The literal part after the id: `\)\/\$value`. */
  const Suffix: string := ")/$value"

  /** The negative lookbehind `(?<!!\[\]\()`, and the opening of the replacement. */
  const Open: string := "![]("

  /** `w` occurs in `s` at index `i`. */
  predicate At(s: string, i: int, w: string) {
    0 <= i && i + |w| <= |s| && forall j :: 0 <= j < |w| ==> s[i + j] == w[j]
  }

  // Facts about the three literals that the proofs use.

  lemma PrefixShape()
    ensures |Prefix| == 44 && Prefix[0] == 'h' && Prefix[1] == 't'
    ensures |Suffix| == 8 && Suffix[0] == ')' && Suffix[7] == 'e'
    ensures |Open| == 4 && Open[0] == '!' && Open[1] == '[' && Open[2] == ']' && Open[3] == '('
  {
  }

  /** The prefix contains neither `)` nor `!`. */
  lemma PrefixChars()
    ensures forall j :: 0 <= j < |Prefix| ==> Prefix[j] != ')' && Prefix[j] != '!'
  {
  }

  /** No `ht` inside the prefix after its start: two occurrences never overlap. */
  lemma PrefixUnbordered()
    ensures forall j :: 0 < j < |Prefix| && Prefix[j] == 'h' ==> j + 1 < |Prefix| && Prefix[j + 1] != 't'
  {
  }

  /** No URL can start inside the suffix or the opening, and the suffix has no `!`. */
  lemma OtherChars()
    ensures forall j :: 0 <= j < |Suffix| ==> Suffix[j] != 'h'
    ensures forall j :: 1 <= j < |Suffix| ==> Suffix[j] != '!'
    ensures forall j :: 0 <= j < |Open| ==> Open[j] != 'h'
  {
  }

  // ---------------------------------------------------------------------------
  // Matching one URL

  /** The first `)` at or after index `k`. */
  function CloseFrom(s: string, k: nat): (r: Option<nat>)
    ensures r.Some? ==> k <= r.value < |s| && s[r.value] == ')'
    decreases |s| - k
  {
    if k >= |s| then None else if s[k] == ')' then Some(k) else CloseFrom(s, k + 1)
  }

  lemma {:induction false} CloseFromFirst(s: string, k: nat)
    ensures forall j :: k <= j < |s| && (CloseFrom(s, k).None? || j < CloseFrom(s, k).value) ==> s[j] != ')'
    decreases |s| - k
  {
    if k < |s| && s[k] != ')' {
      CloseFromFirst(s, k + 1);
    }
  }

  lemma {:induction false} CloseFromIs(s: string, k: nat, e: nat)
    requires k <= e < |s| && s[e] == ')'
    requires forall j :: k <= j < e ==> s[j] != ')'
    ensures CloseFrom(s, k) == Some(e)
    decreases e - k
  {
    if k < e {
      CloseFromIs(s, k + 1, e);
    }
  }

  /** A thumbnail URL: the prefix, a non-empty id without `)`, and the suffix. */
  predicate IsUrl(u: string) {
    && |Prefix| + |Suffix| < |u|
    && At(u, 0, Prefix)
    && At(u, |u| - |Suffix|, Suffix)
    && forall j :: |Prefix| <= j < |u| - |Suffix| ==> u[j] != ')'
  }

  /** The length of the URL `THUMBNAIL_REGEX` matches at the start of `s`, if any. The
      greedy `[^)]+` can only stop at the first `)` after the prefix, so that `)` must
      start the suffix. */
  function UrlLen(s: string): (r: Option<nat>)
    ensures r.Some? ==> |Prefix| + |Suffix| < r.value <= |s|
  {
    if !At(s, 0, Prefix) then None
    else match CloseFrom(s, |Prefix|)
      case None => None
      case Some(e) => if e > |Prefix| && At(s, e, Suffix) then Some(e + |Suffix|) else None
  }

  /** The pattern matches at the start of `s` exactly the prefixes of `s` that are
      thumbnail URLs. */
  lemma UrlLenSpec(s: string, n: nat)
    ensures UrlLen(s) == Some(n) <==> n <= |s| && IsUrl(s[..n])
  {
    PrefixShape();
    if UrlLen(s) == Some(n) {
      var e := CloseFrom(s, |Prefix|).value;
      CloseFromFirst(s, |Prefix|);
      var u := s[..n];
      assert At(u, 0, Prefix) by {
        forall j | 0 <= j < |Prefix| ensures u[j] == Prefix[j] { assert u[j] == s[j]; }
      }
      assert At(u, |u| - |Suffix|, Suffix) by {
        forall j | 0 <= j < |Suffix| ensures u[e + j] == Suffix[j] { assert u[e + j] == s[e + j]; }
      }
      assert forall j :: |Prefix| <= j < |u| - |Suffix| ==> u[j] != ')' by {
        forall j | |Prefix| <= j < |u| - |Suffix| ensures u[j] != ')' { assert u[j] == s[j]; }
      }
    }
    if n <= |s| && IsUrl(s[..n]) {
      var u := s[..n];
      var e := n - |Suffix|;
      assert At(s, 0, Prefix) by {
        forall j | 0 <= j < |Prefix| ensures s[j] == Prefix[j] { assert u[j] == s[j]; }
      }
      assert At(s, e, Suffix) by {
        forall j | 0 <= j < |Suffix| ensures s[e + j] == Suffix[j] { assert u[e + j] == s[e + j]; }
      }
      assert u[e] == Suffix[0];
      forall j | |Prefix| <= j < e ensures s[j] != ')' { assert u[j] == s[j]; }
      CloseFromIs(s, |Prefix|, e);
    }
  }

  // ---------------------------------------------------------------------------
  // The rewrite

  /** The lookbehind passes: the text read so far does not end with `![](`. */
  predicate Bare(before: string) {
    !At(before, |before| - |Open|, Open)
  }

  /** One step of the scan: a character copied as it is, or a URL that is embedded. */
  datatype Piece = Kept(c: char) | Embedded(url: string)

  /** The scan of `re.sub` over `s`, where `before` is the text already read. */
  function Pieces(before: string, s: string): seq<Piece>
    decreases |s|
  {
    if s == [] then []
    else if Bare(before) && UrlLen(s).Some? then
      var n := UrlLen(s).value;
      [Embedded(s[..n])] + Pieces(before + s[..n], s[n..])
    else [Kept(s[0])] + Pieces(before + [s[0]], s[1..])
  }

  /** The output: a kept character as itself, a URL `u` as `![](u)`. */
  function Render(ps: seq<Piece>): string
    decreases |ps|
  {
    if ps == [] then []
    else
      (match ps[0]
       case Kept(c) => [c]
       case Embedded(u) => Open + u + ")")
      + Render(ps[1..])
  }

  /** The input the pieces were read from. */
  function Source(ps: seq<Piece>): string
    decreases |ps|
  {
    if ps == [] then []
    else
      (match ps[0]
       case Kept(c) => [c]
       case Embedded(u) => u)
      + Source(ps[1..])
  }

  function Replacements(ps: seq<Piece>): nat
    decreases |ps|
  {
    if ps == [] then 0 else (if ps[0].Embedded? then 1 else 0) + Replacements(ps[1..])
  }

  function EmbedFrom(before: string, s: string): string {
    Render(Pieces(before, s))
  }

  /** `_embed_thumbnails`. */
  function EmbedThumbnails(text: string): string {
    EmbedFrom([], text)
  }

  /** Deleting the inserted `![](` and `)` gives the input back: text outside the
      matched URLs and the URLs themselves are kept. */
  lemma {:induction false} SourceOfPieces(before: string, s: string)
    ensures Source(Pieces(before, s)) == s
    decreases |s|, 1
  {
    if s != [] {
      if Bare(before) && UrlLen(s).Some? {
        SourceOfEmbed(before, s);
      } else {
        SourceOfKept(before, s);
      }
    }
  }

  lemma {:induction false} SourceOfEmbed(before: string, s: string)
    requires Bare(before) && UrlLen(s).Some?
    ensures Source(Pieces(before, s)) == s
    decreases |s|, 0
  {
    var n := UrlLen(s).value;
    SourceOfPieces(before + s[..n], s[n..]);
    SourceCons(Embedded(s[..n]), Pieces(before + s[..n], s[n..]));
    Text.Rejoin(s, n);
  }

  lemma {:induction false} SourceOfKept(before: string, s: string)
    requires s != [] && !(Bare(before) && UrlLen(s).Some?)
    ensures Source(Pieces(before, s)) == s
    decreases |s|, 0
  {
    SourceOfPieces(before + [s[0]], s[1..]);
    SourceCons(Kept(s[0]), Pieces(before + [s[0]], s[1..]));
    Text.Rejoin(s, 1);
    assert s[..1] == [s[0]];
  }

  /** The source of a piece in front of others. */
  lemma SourceCons(p: Piece, ps: seq<Piece>)
    ensures Source([p] + ps) == (match p case Kept(c) => [c] case Embedded(u) => u) + Source(ps)
  {
    assert ([p] + ps)[1..] == ps;
  }

  /** Each replacement adds exactly five characters. */
  lemma {:induction false} RenderLength(ps: seq<Piece>)
    ensures |Render(ps)| == |Source(ps)| + 5 * Replacements(ps)
    decreases |ps|
  {
    if ps != [] {
      RenderLength(ps[1..]);
    }
  }

  /** Every embedded piece is a thumbnail URL. */
  lemma {:induction false} PiecesAreUrls(before: string, s: string)
    ensures forall j :: 0 <= j < |Pieces(before, s)| && Pieces(before, s)[j].Embedded? ==> IsUrl(Pieces(before, s)[j].url)
    decreases |s|
  {
    if s != [] {
      if Bare(before) && UrlLen(s).Some? {
        var n := UrlLen(s).value;
        UrlLenSpec(s, n);
        PiecesAreUrls(before + s[..n], s[n..]);
      } else {
        PiecesAreUrls(before + [s[0]], s[1..]);
      }
    }
  }

  /** The output's length is the input's plus five per replacement, and the
      replacements are the input's URLs, each wrapped in `![](` and `)`. */
  lemma EmbedThumbnailsShape(text: string)
    ensures Source(Pieces([], text)) == text
    ensures |EmbedThumbnails(text)| == |text| + 5 * Replacements(Pieces([], text))
    ensures forall j :: 0 <= j < |Pieces([], text)| && Pieces([], text)[j].Embedded? ==> IsUrl(Pieces([], text)[j].url)
  {
    SourceOfPieces([], text);
    RenderLength(Pieces([], text));
    PiecesAreUrls([], text);
  }

  // ---------------------------------------------------------------------------
  // Scanning lemmas

  lemma StepEmbed(before: string, s: string, n: nat)
    requires Bare(before) && UrlLen(s) == Some(n)
    ensures n <= |s|
    ensures EmbedFrom(before, s) == Open + s[..n] + ")" + EmbedFrom(before + s[..n], s[n..])
  {
    var rest := Pieces(before + s[..n], s[n..]);
    assert ([Embedded(s[..n])] + rest)[1..] == rest;
  }

  lemma StepKeep(before: string, s: string)
    requires s != [] && !(Bare(before) && UrlLen(s).Some?)
    ensures EmbedFrom(before, s) == [s[0]] + EmbedFrom(before + [s[0]], s[1..])
  {
    var rest := Pieces(before + [s[0]], s[1..]);
    assert ([Kept(s[0])] + rest)[1..] == rest;
  }

  /** No replacement begins at the first `|x|` positions of `x + y`. */
  predicate Quiet(before: string, x: string, y: string) {
    forall k :: 0 <= k < |x| ==> !(Bare(before + x[..k]) && UrlLen(x[k..] + y).Some?)
  }

  /** A stretch where no replacement begins is copied as it is. */
  lemma {:induction false} CopyRun(before: string, x: string, y: string)
    requires Quiet(before, x, y)
    ensures EmbedFrom(before, x + y) == x + EmbedFrom(before + x, y)
    decreases |x|
  {
    if x == [] {
      assert x + y == y && before + x == before;
    } else {
      assert x[..0] == [] && before + [] == before && x[0..] == x;
      StepKeep(before, x + y);
      Text.DropAppend(x, y, 1);
      QuietTail(before, x, y);
      CopyRun(before + [x[0]], x[1..], y);
      Text.ConsRest(before, x);
    }
  }

  /** A quiet stretch stays quiet after its first character is copied. */
  lemma QuietTail(before: string, x: string, y: string)
    requires x != [] && Quiet(before, x, y)
    ensures Quiet(before + [x[0]], x[1..], y)
  {
    forall k | 0 <= k < |x[1..]|
      ensures !(Bare(before + [x[0]] + x[1..][..k]) && UrlLen(x[1..][k..] + y).Some?)
    {
      assert before + [x[0]] + x[1..][..k] == before + x[..k + 1];
      assert x[1..][k..] == x[k + 1..];
    }
  }

  /** Text in which no stretch is a thumbnail URL comes back unchanged. */
  lemma NoUrlUnchanged(text: string)
    requires forall i, j :: 0 <= i < j <= |text| ==> !IsUrl(text[i..j])
    ensures EmbedThumbnails(text) == text
  {
    forall k | 0 <= k < |text| ensures !(Bare([] + text[..k]) && UrlLen(text[k..] + []).Some?) {
      assert text[k..] + [] == text[k..];
      UrlMatchIsSlice(text, k);
    }
    CopyRun([], text, []);
    assert text + [] == text;
  }

  /** A match found at offset `k` is the stretch of `s` it covers. */
  lemma UrlMatchIsSlice(s: string, k: nat)
    requires k <= |s|
    ensures UrlLen(s[k..]).Some? ==> k + UrlLen(s[k..]).value <= |s| && IsUrl(s[k..k + UrlLen(s[k..]).value])
  {
    if UrlLen(s[k..]).Some? {
      var n := UrlLen(s[k..]).value;
      UrlLenSpec(s[k..], n);
      assert s[k..][..n] == s[k..k + n];
    }
  }

  /** How much of `![](` the text read so far ends with: the state of the lookbehind. */
  function Progress(b: string): nat {
    var n := |b|;
    if n >= 4 && b[n - 4] == '!' && b[n - 3] == '[' && b[n - 2] == ']' && b[n - 1] == '(' then 4
    else if n >= 3 && b[n - 3] == '!' && b[n - 2] == '[' && b[n - 1] == ']' then 3
    else if n >= 2 && b[n - 2] == '!' && b[n - 1] == '[' then 2
    else if n >= 1 && b[n - 1] == '!' then 1
    else 0
  }

  /** The lookbehind after reading one more character. */
  function Advance(k: nat, c: char): nat {
    if k == 0 && c == '!' then 1
    else if k == 1 && c == '[' then 2
    else if k == 2 && c == ']' then 3
    else if k == 3 && c == '(' then 4
    else if c == '!' then 1
    else 0
  }

  lemma ProgressBare(b: string)
    ensures Bare(b) <==> Progress(b) != 4
  {
    PrefixShape();
    if Progress(b) == 4 {
      var n := |b|;
      assert forall j :: 0 <= j < 4 ==> b[n - 4 + j] == Open[j] by {
        forall j | 0 <= j < 4 ensures b[n - 4 + j] == Open[j] {
          if j == 0 {} else if j == 1 {} else if j == 2 {} else {}
        }
      }
    }
  }

  lemma ProgressSnoc(b: string, c: char)
    ensures Progress(b + [c]) == Advance(Progress(b), c)
  {
    var b' := b + [c];
    assert b'[|b'| - 1] == c;
    assert forall j :: 0 <= j < |b| ==> b'[j] == b[j];
  }

  /** Same state, same lookbehind from here on. */
  lemma ProgressSnocs(b: string, b2: string, c: char)
    requires Progress(b) == Progress(b2)
    ensures Progress(b + [c]) == Progress(b2 + [c])
  {
    ProgressSnoc(b, c);
    ProgressSnoc(b2, c);
  }

  /** Text that ends with a character outside `![](` has made no progress. */
  lemma ProgressReset(b: string)
    requires |b| > 0 && b[|b| - 1] !in {'!', '[', ']', '('}
    ensures Progress(b) == 0
  {
  }

  lemma EmbedStartsOpen(before: string, s: string)
    requires Bare(before) && UrlLen(s).Some?
    ensures |EmbedFrom(before, s)| > 0 && EmbedFrom(before, s)[0] == '!'
  {
    PrefixShape();
    var n := UrlLen(s).value;
    StepEmbed(before, s, n);
    assert EmbedFrom(before, s) == Open + (s[..n] + ")" + EmbedFrom(before + s[..n], s[n..]));
  }

  /** An output that starts with a word free of `!` starts with the same word as the
      input: the rewrite only inserts text beginning with `!` in front of what it keeps. */
  lemma {:induction false} OutputStart(before: string, s: string, w: string)
    requires forall j :: 0 <= j < |w| ==> w[j] != '!'
    ensures At(EmbedFrom(before, s), 0, w) ==> At(s, 0, w)
    decreases |w|, 1
  {
    if w != [] && s != [] && Bare(before) && UrlLen(s).Some? {
      PrefixShape();
      EmbedStartsOpen(before, s);
      assert EmbedFrom(before, s)[0] != w[0];
    } else if w != [] && s != [] && At(EmbedFrom(before, s), 0, w) {
      OutputStartKept(before, s, w);
    }
  }

  lemma {:induction false} OutputStartKept(before: string, s: string, w: string)
    requires forall j :: 0 <= j < |w| ==> w[j] != '!'
    requires w != [] && s != [] && !(Bare(before) && UrlLen(s).Some?)
    requires At(EmbedFrom(before, s), 0, w)
    ensures At(s, 0, w)
    decreases |w|, 0
  {
    StepKeep(before, s);
    var o := EmbedFrom(before + [s[0]], s[1..]);
    AtCons(s[0], o, w);
    OutputStart(before + [s[0]], s[1..], w[1..]);
    AtUncons(s, w);
  }

  /** A word at the start of `[c] + o` is `c` followed by the rest of the word in `o`. */
  lemma AtCons(c: char, o: string, w: string)
    requires w != [] && At([c] + o, 0, w)
    ensures c == w[0] && At(o, 0, w[1..])
  {
    var t := [c] + o;
    assert t[0] == w[0];
    forall j | 0 <= j < |w[1..]| ensures o[j] == w[1..][j] {
      assert o[j] == t[j + 1];
    }
  }

  /** A word whose first character starts `s` and whose rest starts `s[1..]` starts `s`. */
  lemma AtUncons(s: string, w: string)
    requires s != [] && w != [] && s[0] == w[0] && At(s[1..], 0, w[1..])
    ensures At(s, 0, w)
  {
    forall j | 0 <= j < |w| ensures s[j] == w[j] {
      if j > 0 { assert s[j] == s[1..][j - 1]; }
    }
  }

  /** Between any two occurrences of the prefix there is a `)`. In particular no asset
      id contains the prefix, and no prefix is left without a closing `)` before the
      next one. */
  predicate Unnested(s: string) {
    forall p, q :: 0 <= p < q < |s| && At(s, p, Prefix) && At(s, q, Prefix) ==> exists j :: p <= j < q && s[j] == ')'
  }

  lemma UnnestedDrop(s: string, k: nat)
    requires Unnested(s) && k <= |s|
    ensures Unnested(s[k..])
  {
    var t := s[k..];
    forall p, q | 0 <= p < q < |t| && At(t, p, Prefix) && At(t, q, Prefix)
      ensures exists j :: p <= j < q && t[j] == ')'
    {
      assert At(s, p + k, Prefix) by {
        forall j | 0 <= j < |Prefix| ensures s[p + k + j] == Prefix[j] { assert t[p + j] == s[p + k + j]; }
      }
      assert At(s, q + k, Prefix) by {
        forall j | 0 <= j < |Prefix| ensures s[q + k + j] == Prefix[j] { assert t[q + j] == s[q + k + j]; }
      }
      var j :| p + k <= j < q + k && s[j] == ')';
      assert t[j - k] == ')';
    }
  }

  /** An occurrence inside the first `k` characters is one of the whole text. */
  lemma AtTake(s: string, k: nat, p: nat, w: string)
    requires p + |w| <= k <= |s|
    ensures At(s[..k], p, w) <==> At(s, p, w)
  {
  }

  /** With a prefix at the start and no `)` before `j`, no prefix starts at `j`. */
  lemma NoPrefixBeforeClose(s: string, j: nat)
    requires 0 < j && j + |Prefix| <= |s| && At(s, 0, Prefix) && Unnested(s[..j + |Prefix|])
    requires forall i :: 0 <= i < j ==> s[i] != ')'
    ensures !At(s, j, Prefix)
  {
    var t := s[..j + |Prefix|];
    AtTake(s, j + |Prefix|, 0, Prefix);
    AtTake(s, j + |Prefix|, j, Prefix);
    assert forall i :: 0 <= i < j ==> t[i] != ')';
  }

  /** Dropping from the front of a text that ends with the prefix keeps it unnested. */
  lemma UnnestedBeforePrefix(x: string, n: nat)
    requires Unnested(x + Prefix) && n <= |x|
    ensures Unnested(x[n..] + Prefix)
  {
    UnnestedDrop(x + Prefix, n);
    Text.DropAppend(x, Prefix, n);
  }

  lemma UnnestedTake(s: string, k: nat)
    requires Unnested(s) && k <= |s|
    ensures Unnested(s[..k])
  {
    var t := s[..k];
    forall p, q | 0 <= p < q < |t| && At(t, p, Prefix) && At(t, q, Prefix)
      ensures exists j :: p <= j < q && t[j] == ')'
    {
      assert At(s, p, Prefix) by {
        forall j | 0 <= j < |Prefix| ensures s[p + j] == Prefix[j] { assert t[p + j] == s[p + j]; }
      }
      assert At(s, q, Prefix) by {
        forall j | 0 <= j < |Prefix| ensures s[q + j] == Prefix[j] { assert t[q + j] == s[q + j]; }
      }
      var j :| p <= j < q && s[j] == ')';
      assert t[j] == ')';
    }
  }

  // ---------------------------------------------------------------------------
  // Idempotence

  /** Inside a URL no other URL begins, whatever follows the URL, when no prefix
      occurrence up to one starting at `j` lacks a `)` before the next. */
  lemma InsideUrl(s: string, n: nat, j: nat, y: string)
    requires UrlLen(s) == Some(n) && 0 < j < n
    requires j + |Prefix| <= n ==> Unnested(s[..j + |Prefix|])
    ensures !At(s[j..n] + y, 0, Prefix)
  {
    PrefixShape();
    PrefixChars();
    UrlLenSpec(s, n);
    var z := s[j..n] + y;
    var u := s[..n];
    assert forall i :: 0 <= i < n - j ==> z[i] == s[j + i];
    assert forall i :: 0 <= i < n ==> u[i] == s[i];
    if j < |Prefix| {
      PrefixUnbordered();
      assert s[j] == u[j] == Prefix[j];
      if s[j] == 'h' {
        assert s[j + 1] == u[j + 1] == Prefix[j + 1];
        assert z[1] != Prefix[1];
      } else {
        assert z[0] != Prefix[0];
      }
    } else if j < n - |Suffix| {
      if j + |Prefix| <= n - |Suffix| {
        assert forall i :: 0 <= i < j ==> s[i] != ')' by {
          forall i | 0 <= i < j ensures s[i] != ')' {
            if i < |Prefix| { assert u[i] == Prefix[i]; } else { assert u[i] == s[i]; }
          }
        }
        assert At(s, 0, Prefix);
        NoPrefixBeforeClose(s, j);
        var i :| 0 <= i < |Prefix| && s[j + i] != Prefix[i];
        assert z[i] != Prefix[i];
      } else {
        var i0 := n - |Suffix| - j;
        assert z[i0] == s[n - |Suffix|] == u[n - |Suffix|] == Suffix[0];
        assert z[i0] != Prefix[i0];
      }
    } else {
      OtherChars();
      assert s[j] == u[j] == Suffix[j - (n - |Suffix|)];
      assert z[0] != Prefix[0];
    }
  }

  /** Inside a URL of an unnested text no other URL begins. */
  lemma InsideUnnestedUrl(s: string, n: nat, j: nat, y: string)
    requires Unnested(s) && UrlLen(s) == Some(n) && 0 < j < n
    ensures !At(s[j..n] + y, 0, Prefix)
  {
    if j + |Prefix| <= n {
      UnnestedTake(s, j + |Prefix|);
    }
    InsideUrl(s, n, j, y);
  }

  /** After a replacement, nothing in `![](<url>)` starts another one: the URL is now
      preceded by `![](`, and no URL begins inside it. */
  lemma EmbeddedQuiet(before: string, s: string, n: nat, rest: string)
    requires Unnested(s) && UrlLen(s) == Some(n)
    ensures Quiet(before, Open + s[..n] + ")", rest)
  {
    PrefixShape();
    OtherChars();
    var x := Open + s[..n] + ")";
    forall k | 0 <= k < |x| ensures !(Bare(before + x[..k]) && UrlLen(x[k..] + rest).Some?) {
      if k < |Open| {
        assert (x[k..] + rest)[0] == Open[k] != Prefix[0];
      } else if k == |Open| {
        assert x[..k] == Open;
        assert At(before + Open, |before|, Open);
      } else if k < |Open| + n {
        assert x[k..] + rest == s[k - |Open|..n] + (")" + rest);
        InsideUnnestedUrl(s, n, k - |Open|, ")" + rest);
      } else {
        assert (x[k..] + rest)[0] == ')' != Prefix[0];
      }
    }
  }

  /** A prefix occurrence with no `)` before it is the first one: nothing starts a
      replacement up to the `)` that ends its id. */
  lemma QuietUntilClose(before: string, s: string, m: nat)
    requires Unnested(s) && At(s, 0, Prefix) && UrlLen(s).None? && m <= |s|
    requires forall i :: 0 <= i < m - 1 ==> s[i] != ')'
    ensures Quiet(before, s[..m], s[m..])
  {
    var x := s[..m];
    forall k | 0 <= k < m ensures !(Bare(before + x[..k]) && UrlLen(x[k..] + s[m..]).Some?) {
      assert x[k..] + s[m..] == s[k..];
      if k > 0 {
        assert !At(s, k, Prefix);
        var i :| 0 <= i < |Prefix| && (k + i >= |s| || s[k + i] != Prefix[i]);
        if k + i < |s| { assert s[k..][i] == s[k + i]; }
      }
    }
  }

  /** The rewrite copies a prefix occurrence whose id is never closed, up to the end. */
  lemma KeptUnclosed(before: string, s: string)
    requires Unnested(s) && At(s, 0, Prefix) && UrlLen(s).None? && CloseFrom(s, |Prefix|).None?
    ensures EmbedFrom(before, s) == s
  {
    PrefixChars();
    CloseFromFirst(s, |Prefix|);
    assert forall i :: 0 <= i < |s| ==> s[i] != ')' by {
      forall i | 0 <= i < |s| ensures s[i] != ')' {
        if i < |Prefix| { assert s[i] == Prefix[i]; }
      }
    }
    QuietUntilClose(before, s, |s|);
    assert s[..|s|] == s && s[|s|..] == [];
    CopyRun(before, s, []);
    assert s + [] == s;
  }

  /** A prefix occurrence whose id is closed by a `)` is copied up to that `)`. */
  lemma CopiedToClose(before: string, s: string, e: nat)
    requires Unnested(s) && At(s, 0, Prefix) && UrlLen(s).None? && CloseFrom(s, |Prefix|) == Some(e)
    ensures EmbedFrom(before, s) == s[..e + 1] + EmbedFrom(before + s[..e + 1], s[e + 1..])
  {
    PrefixChars();
    CloseFromFirst(s, |Prefix|);
    assert forall i :: 0 <= i < e ==> s[i] != ')' by {
      forall i | 0 <= i < e ensures s[i] != ')' {
        if i < |Prefix| { assert s[i] == Prefix[i]; }
      }
    }
    QuietUntilClose(before, s, e + 1);
    assert s[..e + 1] + s[e + 1..] == s;
    CopyRun(before, s[..e + 1], s[e + 1..]);
  }

  /** The suffix fails after the `)` in the input, so it fails in the output too. */
  lemma SuffixStillFails(before: string, s: string, e: nat)
    requires e < |s| && s[e] == ')' && !At(s, e, Suffix)
    ensures !At(s[..e + 1] + EmbedFrom(before + s[..e + 1], s[e + 1..]), e, Suffix)
  {
    PrefixShape();
    OtherChars();
    var rest := EmbedFrom(before + s[..e + 1], s[e + 1..]);
    var o := s[..e + 1] + rest;
    var i :| 0 <= i < |Suffix| && (e + i >= |s| || s[e + i] != Suffix[i]);
    var w := Suffix[1..];
    assert !At(s[e + 1..], 0, w) by {
      if e + i < |s| { assert s[e + 1..][i - 1] == s[e + i]; }
    }
    OutputStart(before + s[..e + 1], s[e + 1..], w);
    var i' :| 0 <= i' < |w| && (i' >= |rest| || rest[i'] != w[i']);
    if i' < |rest| { assert o[e + 1 + i'] == rest[i']; }
  }

  /** A prefix occurrence whose id is closed by a `)` that does not start the suffix is
      copied up to that `)`, and what follows cannot complete the suffix either. */
  lemma KeptClosed(before: string, s: string, e: nat)
    requires Unnested(s) && At(s, 0, Prefix) && UrlLen(s).None? && CloseFrom(s, |Prefix|) == Some(e)
    ensures UrlLen(EmbedFrom(before, s)).None?
  {
    CopiedToClose(before, s, e);
    var o := EmbedFrom(before, s);
    assert forall i :: 0 <= i <= e ==> o[i] == s[i];
    CloseFromFirst(s, |Prefix|);
    assert At(o, 0, Prefix);
    CloseFromIs(o, |Prefix|, e);
    if e > |Prefix| {
      SuffixStillFails(before, s, e);
    }
  }

  /** Where the rewrite keeps a character because no URL matches there, none matches in
      its output either. */
  lemma KeptNoUrl(before: string, s: string)
    requires Unnested(s) && UrlLen(s).None?
    ensures UrlLen(EmbedFrom(before, s)).None?
  {
    PrefixChars();
    OutputStart(before, s, Prefix);
    if At(s, 0, Prefix) {
      match CloseFrom(s, |Prefix|)
      case None => KeptUnclosed(before, s);
      case Some(e) => KeptClosed(before, s, e);
    }
  }

  /** Rewriting the output again, from a point where the lookbehind is in the same
      state, changes nothing. */
  lemma {:induction false} EmbedAgain(before: string, before2: string, s: string)
    requires Progress(before) == Progress(before2) && Unnested(s)
    ensures EmbedFrom(before2, EmbedFrom(before, s)) == EmbedFrom(before, s)
    decreases |s|, 1
  {
    if s == [] {
      assert EmbedFrom(before, s) == [];
    } else if Bare(before) && UrlLen(s).Some? {
      EmbedAgainUrl(before, before2, s);
    } else {
      EmbedAgainKept(before, before2, s);
    }
  }

  /** The second pass copies a replacement `![](<url>)` of the first one unchanged. */
  lemma {:induction false} EmbedAgainUrl(before: string, before2: string, s: string)
    requires Progress(before) == Progress(before2) && Unnested(s)
    requires Bare(before) && UrlLen(s).Some?
    ensures EmbedFrom(before2, EmbedFrom(before, s)) == EmbedFrom(before, s)
    decreases |s|, 0
  {
    var n := UrlLen(s).value;
    StepEmbed(before, s, n);
    var u := s[..n];
    var x := Open + u + ")";
    var rest := EmbedFrom(before + u, s[n..]);
    EmbeddedQuiet(before2, s, n, rest);
    CopyRun(before2, x, rest);
    UrlProgress(before, s, n);
    assert (before2 + x)[|before2 + x| - 1] == ')';
    ProgressReset(before2 + x);
    UnnestedDrop(s, n);
    EmbedAgain(before + u, before2 + x, s[n..]);
  }

  /** The second pass copies a character the first one kept. */
  lemma {:induction false} EmbedAgainKept(before: string, before2: string, s: string)
    requires Progress(before) == Progress(before2) && Unnested(s)
    requires s != [] && !(Bare(before) && UrlLen(s).Some?)
    ensures EmbedFrom(before2, EmbedFrom(before, s)) == EmbedFrom(before, s)
    decreases |s|, 0
  {
    StepKeep(before, s);
    var rest := EmbedFrom(before + [s[0]], s[1..]);
    var o := [s[0]] + rest;
    if Bare(before) {
      KeptNoUrl(before, s);
    } else {
      ProgressBare(before);
      ProgressBare(before2);
    }
    assert o[0] == s[0] && o[1..] == rest;
    StepKeep(before2, o);
    ProgressSnocs(before, before2, s[0]);
    UnnestedDrop(s, 1);
    EmbedAgain(before + [s[0]], before2 + [s[0]], s[1..]);
  }

  /** A matched URL ends with `e`, which resets the lookbehind. */
  lemma UrlProgress(before: string, s: string, n: nat)
    requires UrlLen(s) == Some(n)
    ensures n <= |s| && Progress(before + s[..n]) == 0
  {
    PrefixShape();
    UrlLenSpec(s, n);
    var u := s[..n];
    assert u[n - 1] == Suffix[7];
    assert (before + u)[|before + u| - 1] == u[n - 1];
    ProgressReset(before + u);
  }

  /** Applying the rewrite to its own output changes nothing, provided a `)` lies
      between any two occurrences of the URL prefix. That is stronger than asking that
      no asset id contain the prefix: it also excludes prefixes that never complete a
      URL. */
  lemma EmbedThumbnailsIdempotent(text: string)
    requires Unnested(text)
    ensures EmbedThumbnails(EmbedThumbnails(text)) == EmbedThumbnails(text)
  {
    EmbedAgain([], [], text);
  }

  // ---------------------------------------------------------------------------
  // Each occurrence on its own

  /** A URL matched at the start of an unnested text ends before the next prefix. */
  lemma UrlEndsBefore(s: string, n: nat, q: nat)
    requires UrlLen(s) == Some(n) && 0 < q < |s| && At(s, q, Prefix)
    requires Unnested(s[..q + |Prefix|])
    ensures n <= q
  {
    assert At(s[q..], 0, Prefix) by {
      forall i | 0 <= i < |Prefix| ensures s[q..][i] == Prefix[i] { assert s[q..][i] == s[q + i]; }
    }
    if q < n {
      assert s[q..n] + s[n..] == s[q..];
      InsideUrl(s, n, q, s[n..]);
    }
  }

  /** Whether a URL matches at the start does not depend on text after its end. */
  lemma UrlLenExtend(x: string, y: string, n: nat)
    requires n <= |x|
    ensures UrlLen(x + y) == Some(n) <==> UrlLen(x) == Some(n)
  {
    UrlLenSpec(x + y, n);
    UrlLenSpec(x, n);
    assert (x + y)[..n] == x[..n];
  }

  /** A URL that matches at the start of `x` also matches at the start of `x + y`. */
  lemma UrlLenShorter(x: string, y: string)
    ensures UrlLen(x).Some? ==> UrlLen(x + y) == UrlLen(x)
  {
    if UrlLen(x).Some? {
      UrlLenExtend(x, y, UrlLen(x).value);
    }
  }

  /** The rewrite splits at the start of a prefix occurrence: no replacement can run
      across it when every earlier prefix occurrence is closed by a `)` before it. */
  lemma {:induction false} SplitAtPrefix(before: string, x: string, y: string)
    requires y == [] || (At(y, 0, Prefix) && Unnested(x + Prefix))
    ensures EmbedFrom(before, x + y) == EmbedFrom(before, x) + EmbedFrom(before + x, y)
    decreases |x|, 1
  {
    if x == [] {
      assert x + y == y && before + x == before;
      assert EmbedFrom(before, x) == [];
    } else if Bare(before) && UrlLen(x + y).Some? {
      SplitEmbedStep(before, x, y);
    } else {
      SplitKeepStep(before, x, y);
    }
  }

  lemma {:induction false} SplitEmbedStep(before: string, x: string, y: string)
    requires y == [] || (At(y, 0, Prefix) && Unnested(x + Prefix))
    requires x != [] && Bare(before) && UrlLen(x + y).Some?
    ensures EmbedFrom(before, x + y) == EmbedFrom(before, x) + EmbedFrom(before + x, y)
    decreases |x|, 0
  {
    var s := x + y;
    var n := UrlLen(s).value;
    if y != [] {
      UrlBeforePrefix(x, y, n);
    }
    UrlLenExtend(x, y, n);
    StepEmbed(before, s, n);
    StepEmbed(before, x, n);
    var u := x[..n];
    SplitSlices(before, x, y, n);
    SplitAtPrefix(before + u, x[n..], y);
    var tail, later := EmbedFrom(before + u, x[n..]), EmbedFrom(before + x, y);
    Assoc4(Open, u + ")", tail, later);
  }

  /** A URL starting in `x` ends before the prefix that starts `y`, and what follows it
      in `x` stays unnested up to that prefix. */
  lemma UrlBeforePrefix(x: string, y: string, n: nat)
    requires x != [] && At(y, 0, Prefix) && Unnested(x + Prefix) && UrlLen(x + y) == Some(n)
    ensures n <= |x| && Unnested(x[n..] + Prefix)
  {
    PrefixAfter(x, y);
    Text.TakeAppend(x, y, Prefix);
    UrlEndsBefore(x + y, n, |x|);
    UnnestedBeforePrefix(x, n);
  }

  lemma {:induction false} SplitKeepStep(before: string, x: string, y: string)
    requires y == [] || (At(y, 0, Prefix) && Unnested(x + Prefix))
    requires x != [] && !(Bare(before) && UrlLen(x + y).Some?)
    ensures EmbedFrom(before, x + y) == EmbedFrom(before, x) + EmbedFrom(before + x, y)
    decreases |x|, 0
  {
    var s := x + y;
    UrlLenShorter(x, y);
    StepKeep(before, s);
    StepKeep(before, x);
    SplitSlices(before, x, y, 1);
    assert x[..1] == [x[0]] && s[0] == x[0];
    if y != [] {
      UnnestedBeforePrefix(x, 1);
    }
    SplitAtPrefix(before + [x[0]], x[1..], y);
    var tail, later := EmbedFrom(before + [x[0]], x[1..]), EmbedFrom(before + x, y);
    Text.SeqAssoc([x[0]], tail, later);
  }

  lemma PrefixAfter(x: string, y: string)
    requires At(y, 0, Prefix)
    ensures At(x + y, |x|, Prefix) && y[..|Prefix|] == Prefix
  {
    var s := x + y;
    forall i | 0 <= i < |Prefix| ensures s[|x| + i] == Prefix[i] { assert s[|x| + i] == y[i]; }
  }

  lemma SplitSlices(before: string, x: string, y: string, n: nat)
    requires n <= |x|
    ensures (x + y)[..n] == x[..n] && (x + y)[n..] == x[n..] + y
    ensures before + x[..n] + x[n..] == before + x
  {
  }

  lemma Assoc5(a: string, b: string, c: string, d: string, e: string)
    ensures a + (b + c + d + e) == a + b + c + d + e
  {
  }

  lemma Assoc4(a: string, b: string, c: string, d: string)
    ensures a + b + (c + d) == a + b + c + d
  {
  }

  /** A URL not preceded by `![](` is replaced by `![](<url>)`; the text before it is
      rewritten on its own and the text after it is scanned on. It suffices that every
      prefix occurrence before the URL is closed by a `)` before the next. */
  lemma BareUrlEmbedded(x: string, u: string, rest: string)
    requires IsUrl(u) && Bare(x) && Unnested(x + Prefix)
    ensures EmbedThumbnails(x + u + rest) == EmbedThumbnails(x) + Open + u + ")" + EmbedFrom(x + u, rest)
  {
    var y := u + rest;
    UrlStarts(x, u, rest);
    SplitAtPrefix([], x, y);
    assert [] + x == x;
    assert y[..|u|] == u && y[|u|..] == rest;
    UrlLenSpec(y, |u|);
    StepEmbed(x, y, |u|);
    Assoc5(EmbedThumbnails(x), Open, u, ")", EmbedFrom(x + u, rest));
  }

  /** The text up to a URL's end is unnested up to the URL's prefix. */
  lemma UnnestedUpTo(x: string, u: string)
    requires IsUrl(u) && Unnested(x + u)
    ensures Unnested(x + Prefix)
  {
    PrefixAfter(x, u);
    UnnestedTake(x + u, |x| + |Prefix|);
    Text.TakeAppend(x, u, Prefix);
  }

  /** The text goes on with a URL at the boundary. */
  lemma UrlStarts(x: string, u: string, rest: string)
    requires IsUrl(u)
    ensures x + u + rest == x + (u + rest) && At(u + rest, 0, Prefix)
  {
    var y := u + rest;
    forall i | 0 <= i < |Prefix| ensures y[i] == Prefix[i] { assert y[i] == u[i]; }
  }

  /** A URL already preceded by `![](` is copied unchanged, when the text up to its end
      is unnested: a prefix inside the kept URL's id would start a replacement. */
  lemma EmbeddedUrlKept(x: string, u: string, rest: string)
    requires IsUrl(u) && !Bare(x) && Unnested(x + u)
    ensures EmbedThumbnails(x + u + rest) == EmbedThumbnails(x) + u + EmbedFrom(x + u, rest)
  {
    var y := u + rest;
    UrlStarts(x, u, rest);
    UnnestedUpTo(x, u);
    SplitAtPrefix([], x, y);
    assert [] + x == x;
    UnnestedDrop(x + u, |x|);
    assert (x + u)[|x|..] == u;
    UrlQuiet(x, u, rest);
    CopyRun(x, u, rest);
  }

  /** No replacement begins inside a URL already preceded by `![](`. */
  lemma UrlQuiet(x: string, u: string, rest: string)
    requires IsUrl(u) && !Bare(x) && Unnested(u)
    ensures Quiet(x, u, rest)
  {
    var y := u + rest;
    assert y[..|u|] == u;
    UrlLenSpec(y, |u|);
    forall k | 0 <= k < |u| ensures !(Bare(x + u[..k]) && UrlLen(u[k..] + rest).Some?) {
      if k > 0 {
        assert u[k..] == y[k..|u|];
        if k + |Prefix| <= |u| {
          UnnestedTake(u, k + |Prefix|);
          assert y[..k + |Prefix|] == u[..k + |Prefix|];
        }
        InsideUrl(y, |u|, k, rest);
      } else {
        assert x + u[..k] == x;
      }
    }
  }
}
