/**
  The retrieval-block pattern of `SQLContext`,

      NL key:\s*(.*?)\s*\nSQL value:\s*(.*?)\s*\nScore:\s*(\d+\.?\d*)

  compiled with DOTALL and IGNORECASE, and `findall` over it. The matcher below follows
  the backtracking order of Python's `re` engine: a greedy `\s*` tries its longest run
  first and gives characters back one at a time, a lazy `(.*?)` tries its shortest
  extent first and grows one character at a time, and the first combination that
  completes the pattern is the match. Positions are offsets into the text being
  searched, which starts where the match attempt starts (the pattern looks only
  forward, so the text before the attempt is irrelevant).
 */
module SimilarQueryPattern {
  import opened Wrappers
  import opened Text

  const NlKey := "NL key:"
  const SqlValue := "SQL value:"
  const ScoreLabel := "Score:"

  /** Case-insensitive equality of a text character with a pattern character, as the
      `re` engine applies it to the pattern's letters: both ASCII cases, plus the
      KELVIN SIGN for `k` and the LATIN SMALL LETTER LONG S for `s`. Other characters
      (space, colon, newline) match only themselves. */
  predicate CharMatchesCI(c: char, p: char) {
    || c == p
    || ('a' <= p <= 'z' && c as int == p as int - 32)
    || ('A' <= p <= 'Z' && c as int == p as int + 32)
    || ((p == 'k' || p == 'K') && c == '\U{212A}')
    || ((p == 's' || p == 'S') && c == '\U{17F}')
  }

  /** The literal `lit` matches case-insensitively at offset `i` of `s`. */
  predicate LitAt(s: string, i: nat, lit: string) {
    i + |lit| <= |s| && forall j :: 0 <= j < |lit| ==> CharMatchesCI(s[i + j], lit[j])
  }

  /** `lit` occurs case-insensitively somewhere in `s`. */
  predicate ContainsCI(s: string, lit: string) {
    exists i :: 0 <= i <= |s| - |lit| && LitAt(s, i, lit)
  }

  /** `\d`, read as the ASCII digits. */
  predicate IsDigit(c: char) {
    '0' <= c <= '9'
  }

  /** Length of the whitespace run starting at `i`: how much a greedy `\s*` takes first. */
  function WsRun(s: string, i: nat): (n: nat)
    requires i <= |s|
    ensures i + n <= |s|
    decreases |s| - i
  {
    if i < |s| && IsSpace(s[i]) then 1 + WsRun(s, i + 1) else 0
  }

  /** Length of the digit run starting at `i`. */
  function DigitRun(s: string, i: nat): (n: nat)
    requires i <= |s|
    ensures i + n <= |s|
    decreases |s| - i
  {
    if i < |s| && IsDigit(s[i]) then 1 + DigitRun(s, i + 1) else 0
  }

  /** A half-open range of offsets: one captured group. */
  datatype Span = Span(start: nat, end: nat)

  predicate SpanIn(g: Span, n: nat) {
    g.start <= g.end <= n
  }

  /** The three groups of a successful match; the match ends where the score ends. */
  datatype Hit = Hit(nl: Span, sql: Span, score: Span)

  predicate HitIn(h: Hit, n: nat) {
    SpanIn(h.nl, n) && SpanIn(h.sql, n) && SpanIn(h.score, n) && 0 < h.score.end
  }

  /** `(\d+\.?\d*)` at `i`: greedy throughout, and nothing follows it in the pattern, so
      the first attempt (all digits, the dot if present, all digits after it) is the
      match; it fails only when no digit stands at `i`. Returns the end offset. */
  function ScoreAt(s: string, i: nat): (r: Option<nat>)
    requires i <= |s|
    ensures r.Some? ==> i < r.value <= |s|
  {
    var n := DigitRun(s, i);
    if n == 0 then None
    else if i + n < |s| && s[i + n] == '.' then Some(i + n + 1 + DigitRun(s, i + n + 1))
    else Some(i + n)
  }

  /** `\s*(\d+\.?\d*)` after `Score:` at `c`, with `i` whitespace characters taken. */
  function TryScore(s: string, c: nat, i: nat, nl: Span, sql: Span): (r: Option<Hit>)
    requires c + i <= |s| && SpanIn(nl, |s|) && SpanIn(sql, |s|)
    ensures r.Some? ==> HitIn(r.value, |s|)
    decreases i
  {
    match ScoreAt(s, c + i)
    case Some(e) => Some(Hit(nl, sql, Span(c + i, e)))
    case None => if i == 0 then None else TryScore(s, c, i - 1, nl, sql)
  }

  /** Which lazy group is being matched: the NL key, closed by `\nSQL value:`, or the
      SQL value, closed by `\nScore:`. */
  datatype Stage = NlGroup | SqlGroup

  function Marker(st: Stage): string {
    match st
    case NlGroup => SqlValue
    case SqlGroup => ScoreLabel
  }

  function Rank(st: Stage): nat {
    match st
    case NlGroup => 1
    case SqlGroup => 0
  }

  /** `\n` followed by the stage's closing label, at offset `m`. */
  predicate MarkerAt(s: string, st: Stage, m: nat) {
    m < |s| && s[m] == '\n' && LitAt(s, m + 1, Marker(st))
  }

  /** The rest of the pattern after a closing label ending at `p`. The group that just
      closed is `closed`; `nl` is the NL group when the SQL group closed. */
  function AfterMarker(s: string, st: Stage, p: nat, nl: Span, closed: Span): (r: Option<Hit>)
    requires p <= |s| && SpanIn(nl, |s|) && SpanIn(closed, |s|)
    ensures r.Some? ==> HitIn(r.value, |s|)
    decreases 2 * Rank(st), |s| + 3, 0
  {
    match st
    case NlGroup => TryGroup(s, SqlGroup, p, WsRun(s, p), closed)
    case SqlGroup => TryScore(s, p, WsRun(s, p), nl, closed)
  }

  /** `\s*(.*?)` starting at `q`, with `i` whitespace characters taken by `\s*`; on
      failure `\s*` gives one character back. */
  function TryGroup(s: string, st: Stage, q: nat, i: nat, nl: Span): (r: Option<Hit>)
    requires q + i <= |s| && SpanIn(nl, |s|)
    ensures r.Some? ==> HitIn(r.value, |s|)
    decreases 2 * Rank(st) + 1, |s| + 2, i
  {
    match LazyGroup(s, st, q + i, q + i, nl)
    case Some(h) => Some(h)
    case None => if i == 0 then None else TryGroup(s, st, q, i - 1, nl)
  }

  /** The lazy group starting at `a`, currently ending at `e`: try to close it here and
      grow it by one character on failure. */
  function LazyGroup(s: string, st: Stage, a: nat, e: nat, nl: Span): (r: Option<Hit>)
    requires a <= e <= |s| && SpanIn(nl, |s|)
    ensures r.Some? ==> HitIn(r.value, |s|)
    decreases 2 * Rank(st) + 1, |s| - e, |s| + 1
  {
    match TrySep(s, st, a, e, WsRun(s, e), nl)
    case Some(h) => Some(h)
    case None => if e < |s| then LazyGroup(s, st, a, e + 1, nl) else None
  }

  /** `\s*\n<label>` closing the group `[a, e)`, with `k` whitespace characters taken by
      `\s*`; on failure `\s*` gives one character back. */
  function TrySep(s: string, st: Stage, a: nat, e: nat, k: nat, nl: Span): (r: Option<Hit>)
    requires a <= e && e + k <= |s| && SpanIn(nl, |s|)
    ensures r.Some? ==> HitIn(r.value, |s|)
    decreases 2 * Rank(st) + 1, |s| - e, k
  {
    var m := e + k;
    var here := if MarkerAt(s, st, m) then AfterMarker(s, st, m + 1 + |Marker(st)|, nl, Span(a, e)) else None;
    if here.Some? then here
    else if k == 0 then None
    else TrySep(s, st, a, e, k - 1, nl)
  }

  /** The match attempt at the start of `s`. */
  function MatchAt(s: string): (r: Option<Hit>)
    ensures r.Some? ==> HitIn(r.value, |s|)
  {
    if LitAt(s, 0, NlKey) then TryGroup(s, NlGroup, |NlKey|, WsRun(s, |NlKey|), Span(0, 0))
    else None
  }

  /** The groups of one match, as `findall` returns them. */
  datatype Groups = Groups(nl: string, sql: string, score: string)

  function Slice(s: string, g: Span): string
    requires SpanIn(g, |s|)
  {
    s[g.start..g.end]
  }

  /** `findall`: scan for the leftmost match, record its groups, resume after it. */
  function FindAll(s: string): seq<Groups>
    decreases |s|
  {
    match MatchAt(s)
    case Some(h) => [Groups(Slice(s, h.nl), Slice(s, h.sql), Slice(s, h.score))] + FindAll(s[h.score.end..])
    case None => if s == [] then [] else FindAll(s[1..])
  }

  // ---------------------------------------------------------------------------
  // How the search settles on a well-formed block

  /** A newline only ever matches a newline, whatever the case folding. */
  lemma NewlineMatchesOnlyItself(p: char)
    ensures CharMatchesCI('\n', p) ==> p == '\n'
  {
  }

  /** `WsRun` is the one run length that ends at a non-whitespace character or the end. */
  lemma {:induction false} WsRunExact(s: string, i: nat, n: nat)
    requires i + n <= |s|
    requires forall j :: i <= j < i + n ==> IsSpace(s[j])
    requires i + n == |s| || !IsSpace(s[i + n])
    ensures WsRun(s, i) == n
    decreases n
  {
    if n > 0 {
      WsRunExact(s, i + 1, n - 1);
    }
  }

  /** The run `WsRun` measures is whitespace, and it stops at a non-whitespace
      character or the end. */
  lemma {:induction false} WsRunSpaces(s: string, i: nat)
    requires i <= |s|
    ensures forall j :: i <= j < i + WsRun(s, i) ==> IsSpace(s[j])
    ensures i + WsRun(s, i) == |s| || !IsSpace(s[i + WsRun(s, i)])
    decreases |s| - i
  {
    if i < |s| && IsSpace(s[i]) {
      WsRunSpaces(s, i + 1);
    }
  }

  lemma {:induction false} DigitRunExact(s: string, i: nat, n: nat)
    requires i + n <= |s|
    requires forall j :: i <= j < i + n ==> IsDigit(s[j])
    requires i + n == |s| || !IsDigit(s[i + n])
    ensures DigitRun(s, i) == n
    decreases n
  {
    if n > 0 {
      DigitRunExact(s, i + 1, n - 1);
    }
  }

  /** The labels both start with `S`, which is neither a newline nor whitespace. */
  lemma LabelStart(c: char)
    requires CharMatchesCI(c, 'S')
    ensures c != '\n' && !IsSpace(c)
  {
  }

  /** With no closing marker anywhere in the positions the separator can reach, the
      separator fails. */
  lemma {:induction false} TrySepNone(s: string, st: Stage, a: nat, e: nat, k: nat, nl: Span)
    requires a <= e && e + k <= |s| && SpanIn(nl, |s|)
    requires forall m :: e <= m <= e + k ==> !MarkerAt(s, st, m)
    ensures TrySep(s, st, a, e, k, nl) == None
    decreases k
  {
    if k > 0 {
      TrySepNone(s, st, a, e, k - 1, nl);
    }
  }

  /** The lazy group grows from `e` to `z` when no marker starts in `[e, z)` and the
      character before `z` is not whitespace (so no separator tried on the way reaches
      past it). */
  lemma {:induction false} LazyGrows(s: string, st: Stage, a: nat, e: nat, z: nat, nl: Span)
    requires a <= e <= z <= |s| && SpanIn(nl, |s|)
    requires e < z ==> !IsSpace(s[z - 1])
    requires forall m :: e <= m < z ==> !MarkerAt(s, st, m)
    ensures LazyGroup(s, st, a, e, nl) == LazyGroup(s, st, a, z, nl)
    decreases z - e
  {
    if e < z {
      var w := WsRun(s, e);
      WsRunSpaces(s, e);
      assert e + w < z;
      TrySepNone(s, st, a, e, w, nl);
      LazyGrows(s, st, a, e + 1, z, nl);
    }
  }

  /** Once the group reaches `z`, the separator takes the whitespace up to the marker at
      `m` (giving back the label's first character, which is not whitespace) and the
      rest of the pattern goes on from the label's end. */
  lemma CloseAtMarker(s: string, st: Stage, a: nat, z: nat, m: nat, nl: Span)
    requires a <= z <= m && SpanIn(nl, |s|)
    requires MarkerAt(s, st, m)
    requires forall j :: z <= j < m ==> IsSpace(s[j])
    requires AfterMarker(s, st, m + 1 + |Marker(st)|, nl, Span(a, z)).Some?
    ensures LazyGroup(s, st, a, z, nl) == AfterMarker(s, st, m + 1 + |Marker(st)|, nl, Span(a, z))
  {
    assert Marker(st)[0] == 'S';
    LabelStart(s[m + 1]);
    var k := m + 1 - z;
    WsRunExact(s, z, k);
    var rest := AfterMarker(s, st, m + 1 + |Marker(st)|, nl, Span(a, z));
    assert TrySep(s, st, a, z, k - 1, nl) == rest;
    assert TrySep(s, st, a, z, k, nl) == rest;
  }

  /** The group stage on a region `[q, m)` closed by the marker at `m`: the group is the
      region with its leading and trailing whitespace removed, `[a, z)`, provided the
      region holds no marker and the rest of the pattern matches after the label. */
  lemma GroupSettles(s: string, st: Stage, q: nat, a: nat, z: nat, m: nat, nl: Span)
    requires q <= a < z <= m && SpanIn(nl, |s|)
    requires MarkerAt(s, st, m)
    requires forall j :: q <= j < a ==> IsSpace(s[j])
    requires !IsSpace(s[a]) && !IsSpace(s[z - 1])
    requires forall j :: z <= j < m ==> IsSpace(s[j])
    requires forall j :: q <= j < m ==> !MarkerAt(s, st, j)
    requires AfterMarker(s, st, m + 1 + |Marker(st)|, nl, Span(a, z)).Some?
    ensures TryGroup(s, st, q, WsRun(s, q), nl) == AfterMarker(s, st, m + 1 + |Marker(st)|, nl, Span(a, z))
  {
    var i := a - q;
    WsRunExact(s, q, i);
    LazyGrows(s, st, a, a, z, nl);
    CloseAtMarker(s, st, a, z, m, nl);
    assert q + i == a;
    TryGroupHit(s, st, q, i, nl);
  }

  /** The group stage keeps the first lazy group that matches. */
  lemma TryGroupHit(s: string, st: Stage, q: nat, i: nat, nl: Span)
    requires q + i <= |s| && SpanIn(nl, |s|)
    requires LazyGroup(s, st, q + i, q + i, nl).Some?
    ensures TryGroup(s, st, q, i, nl) == LazyGroup(s, st, q + i, q + i, nl)
  {
  }
}
