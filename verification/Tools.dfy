/**
  The `retrieveQueries` tool: it renders the keys the model picked from the knowledge
  base, each with its SQL value and a similarity score, as newline-joined text blocks.

  Scores are floats in the source and are printed with `:.4f`. The model takes them as
  fixed-point numbers in ten-thousandths (`x` stands for `x / 10000`). `:.4f` rounds the
  double nearest `x / 10000`, and lands on the four digits of `x` while `|x / 10000|` is
  below about 2^53 * 10^-4, which covers the similarity scores between 0 and 1.
 */
module Tools {
  import opened Wrappers
  import opened Text

  /** What the tool raises instead of returning: the key list left at its `None` default
      (`enumerate(None)` raises `TypeError`), a key missing from the dictionary, the score
      list left at its `None` default, or a score list shorter than the key list. */
  datatype RetrieveError = KeysMissing | KeyError(key: string) | ScoresMissing | IndexError(index: nat)

  predicate IsDigitChar(c: char) {
    '0' <= c <= '9'
  }

  predicate AllDigits(s: string) {
    forall i :: 0 <= i < |s| ==> IsDigitChar(s[i])
  }

  function DigitChar(d: nat): (c: char)
    requires d < 10
    ensures IsDigitChar(c)
  {
    (48 + d) as char
  }

  /** Decimal notation of `n`, no leading zeros. */
  function Decimal(n: nat): (r: string)
    ensures 0 < |r| && AllDigits(r)
    ensures r[0] == '0' ==> n == 0
    decreases n
  {
    if n < 10 then [DigitChar(n)] else Decimal(n / 10) + [DigitChar(n % 10)]
  }

  /** `n` in exactly four digits, zero-padded: the fractional part of `:.4f`. */
  function Pad4(n: nat): (r: string)
    requires n < 10000
    ensures |r| == 4 && AllDigits(r)
  {
    [DigitChar(n / 1000), DigitChar(n / 100 % 10), DigitChar(n / 10 % 10), DigitChar(n % 10)]
  }

  function Abs(x: int): nat {
    if x < 0 then -x else x
  }

  /** `f"{x / 10000:.4f}"`: optional minus sign, integer part, dot, four decimals. */
  function FormatScore(x: int): (r: string)
    ensures x >= 0 ==> |r| >= 6 && IsDigitChar(r[0])
  {
    (if x < 0 then "-" else "") + Unsigned(Abs(x))
  }

  /** The value a string of digits denotes. */
  function DigitsValue(s: string): nat
    requires AllDigits(s)
  {
    if s == [] then 0 else DigitsValue(s[..|s| - 1]) * 10 + (s[|s| - 1] as int - 48)
  }

  /** Reading a four-decimal text back: the inverse of `FormatScore`. */
  function FixedValue(t: string): Option<int> {
    if |t| > 0 && t[0] == '-' then
      match UnsignedFixedValue(t[1..])
      case Some(v) => Option<int>.Some(-(v as int))
      case None => None
    else UnsignedFixedValue(t)
  }

  function UnsignedFixedValue(t: string): Option<nat> {
    if |t| >= 6 && t[|t| - 5] == '.' && AllDigits(t[..|t| - 5]) && AllDigits(t[|t| - 4..]) then
      Some(DigitsValue(t[..|t| - 5]) * 10000 + DigitsValue(t[|t| - 4..]))
    else None
  }

  lemma {:induction false} DecimalValue(n: nat)
    ensures DigitsValue(Decimal(n)) == n
    decreases n
  {
    var r := Decimal(n);
    if n >= 10 {
      DecimalValue(n / 10);
      assert r[..|r| - 1] == Decimal(n / 10);
    }
  }

  lemma DigitsValueSnoc(s: string, d: nat)
    requires AllDigits(s) && d < 10
    ensures DigitsValue(s + [DigitChar(d)]) == DigitsValue(s) * 10 + d
  {
    assert (s + [DigitChar(d)])[..|s|] == s;
  }

  lemma Pad4Value(n: nat)
    requires n < 10000
    ensures DigitsValue(Pad4(n)) == n
  {
    var a, b, c, d := n / 1000, n / 100 % 10, n / 10 % 10, n % 10;
    DigitsValueSnoc([], a);
    DigitsValueSnoc([DigitChar(a)], b);
    DigitsValueSnoc([DigitChar(a), DigitChar(b)], c);
    DigitsValueSnoc([DigitChar(a), DigitChar(b), DigitChar(c)], d);
    assert [DigitChar(a)] == [] + [DigitChar(a)];
    assert [DigitChar(a), DigitChar(b)] == [DigitChar(a)] + [DigitChar(b)];
    assert [DigitChar(a), DigitChar(b), DigitChar(c)] == [DigitChar(a), DigitChar(b)] + [DigitChar(c)];
    assert Pad4(n) == [DigitChar(a), DigitChar(b), DigitChar(c)] + [DigitChar(d)];
    FourDigits(n);
  }

  /** The four digits `Pad4` prints recombine into the number. */
  lemma FourDigits(n: nat)
    requires n < 10000
    ensures ((n / 1000 * 10 + n / 100 % 10) * 10 + n / 10 % 10) * 10 + n % 10 == n
  {
    var m1 := n / 10;
    var m2 := m1 / 10;
    assert n == m1 * 10 + n % 10;
    assert m1 == m2 * 10 + m1 % 10;
    assert n / 100 == m2;
    assert n / 1000 == m2 / 10;
    assert m2 == m2 / 10 * 10 + m2 % 10;
  }

  /** The score text reads back as the score it was printed from. */
  lemma FormatScoreRoundTrip(x: int)
    ensures FixedValue(FormatScore(x)) == Some(x)
  {
    var a := Abs(x);
    var u := Unsigned(a);
    UnsignedRoundTrip(a);
    if x < 0 {
      assert FormatScore(x) == "-" + u;
      assert ("-" + u)[1..] == u;
    } else {
      assert FormatScore(x) == "" + u;
      NilAppend(u);
    }
  }

  /** The text `FormatScore` prints for a score of absolute value `a`, without the sign. */
  function Unsigned(a: nat): (u: string)
    ensures |u| >= 6 && u[0] != '-'
  {
    Decimal(a / 10000) + "." + Pad4(a % 10000)
  }

  lemma UnsignedRoundTrip(a: nat)
    ensures UnsignedFixedValue(Unsigned(a)) == Some(a)
  {
    UnsignedOf(Decimal(a / 10000), Pad4(a % 10000));
    DecimalValue(a / 10000);
    Pad4Value(a % 10000);
  }

  /** An integer part, a dot and four decimals read back as their fixed-point value. */
  lemma UnsignedOf(i: string, f: string)
    requires |i| > 0 && AllDigits(i) && |f| == 4 && AllDigits(f)
    ensures UnsignedFixedValue(i + "." + f) == Some(DigitsValue(i) * 10000 + DigitsValue(f))
  {
    var u := i + "." + f;
    assert u[..|u| - 5] == i;
    assert u[|u| - 4..] == f;
  }

  /** One rendered block, `"\nNL key: {key}\nSQL value: {sql}\nScore: {score:.4f}"`,
      written piece by piece. */
  function Block(key: string, sql: string, score: int): string {
    "\n" + "NL key:" + " " + key + "\n" + "SQL value:" + " " + sql + "\n" + "Score:" + " " + FormatScore(score)
  }

  /** The blocks for keys `j..`, produced in order, so the first failing key decides the
      error; within one key the dictionary lookup happens before the score lookup. */
  function BlocksFrom(keys: seq<string>, scores: Option<seq<int>>, dict: map<string, string>, j: nat)
    : Result<seq<string>, RetrieveError>
    requires j <= |keys|
    decreases |keys| - j
  {
    if j == |keys| then Ok([])
    else if keys[j] !in dict then Err(KeyError(keys[j]))
    else if scores.None? then Err(ScoresMissing)
    else if j >= |scores.value| then Err(IndexError(j))
    else
      match BlocksFrom(keys, scores, dict, j + 1)
      case Ok(rest) => Ok([BlockAt(keys, scores, dict, j)] + rest)
      case Err(e) => Err(e)
  }

  /** Key `j` can be rendered. */
  predicate Renders(keys: seq<string>, scores: Option<seq<int>>, dict: map<string, string>, j: nat)
    requires j < |keys|
  {
    keys[j] in dict && scores.Some? && j < |scores.value|
  }

  /** The block of key `j`, which can be rendered. */
  function BlockAt(keys: seq<string>, scores: Option<seq<int>>, dict: map<string, string>, j: nat): string
    requires j < |keys| && Renders(keys, scores, dict, j)
  {
    Block(keys[j], dict[keys[j]], scores.value[j])
  }

  /** The error key `j` raises when it cannot be rendered. */
  function ErrorAt(keys: seq<string>, scores: Option<seq<int>>, dict: map<string, string>, j: nat): RetrieveError
    requires j < |keys|
  {
    if keys[j] !in dict then KeyError(keys[j])
    else if scores.None? then ScoresMissing
    else IndexError(j)
  }

  /** The tool: with no key list, `enumerate(None)` fails before anything is looked up;
      otherwise the rendered text, or the error raised for the first key that cannot be
      rendered. */
  function RetrieveQueries(keys: Option<seq<string>>, scores: Option<seq<int>>, dict: map<string, string>)
    : (r: Result<string, RetrieveError>)
    ensures keys.None? <==> r == Err(KeysMissing)
    ensures keys.Some? ==> var ks := keys.value;
            && (r.Ok? <==> forall j :: 0 <= j < |ks| ==> Renders(ks, scores, dict, j))
            && (r.Ok? ==> r.value == Join("\n", seq(|ks|, j requires 0 <= j < |ks| && Renders(ks, scores, dict, j) =>
                                                 BlockAt(ks, scores, dict, j))))
            && (r.Err? ==> exists j :: 0 <= j < |ks| && !Renders(ks, scores, dict, j) && r.error == ErrorAt(ks, scores, dict, j)
                                       && forall i :: 0 <= i < j ==> Renders(ks, scores, dict, i))
    ensures keys == Some([]) ==> r == Ok("")
  {
    match keys
    case None => Err(KeysMissing)
    case Some(ks) => RenderKeys(ks, scores, dict)
  }

  /** The `"\n".join` over the key list: the rendered text, or the error raised for the
      first key that cannot be rendered. */
  function RenderKeys(keys: seq<string>, scores: Option<seq<int>>, dict: map<string, string>)
    : (r: Result<string, RetrieveError>)
    ensures r.Ok? <==> forall j :: 0 <= j < |keys| ==> Renders(keys, scores, dict, j)
    ensures r.Ok? ==> r.value == Join("\n", seq(|keys|, j requires 0 <= j < |keys| && Renders(keys, scores, dict, j) =>
                                          BlockAt(keys, scores, dict, j)))
    ensures r.Err? ==> exists j :: 0 <= j < |keys| && !Renders(keys, scores, dict, j) && r.error == ErrorAt(keys, scores, dict, j)
                                   && forall i :: 0 <= i < j ==> Renders(keys, scores, dict, i)
    ensures keys == [] ==> r == Ok("")
  {
    BlocksFromOk(keys, scores, dict, 0);
    BlocksFromErr(keys, scores, dict, 0);
    match BlocksFrom(keys, scores, dict, 0)
    case Ok(bs) =>
      BlocksFromValues(keys, scores, dict, 0);
      TabulateBlocks(keys, scores, dict);
      Ok(Join("\n", bs))
    case Err(e) => Err(e)
  }

  lemma {:induction false} BlocksFromOk(keys: seq<string>, scores: Option<seq<int>>, dict: map<string, string>, j: nat)
    requires j <= |keys|
    ensures BlocksFrom(keys, scores, dict, j).Ok? <==> forall i :: j <= i < |keys| ==> Renders(keys, scores, dict, i)
    decreases |keys| - j
  {
    if j < |keys| && Renders(keys, scores, dict, j) {
      BlocksFromOk(keys, scores, dict, j + 1);
    }
  }

  /** `[f(j), f(j + 1), ..., f(n - 1)]`. */
  function Tabulate<T>(f: nat -> T, j: nat, n: nat): (r: seq<T>)
    requires j <= n
    ensures |r| == n - j
    decreases n - j
  {
    if j == n then [] else [f(j)] + Tabulate(f, j + 1, n)
  }

  lemma {:induction false} TabulateAt<T>(f: nat -> T, j: nat, n: nat)
    requires j <= n
    ensures forall k :: 0 <= k < n - j ==> Tabulate(f, j, n)[k] == f(j + k)
    decreases n - j
  {
    if j < n {
      TabulateAt(f, j + 1, n);
      var rest := Tabulate(f, j + 1, n);
      forall k | 0 < k < n - j ensures ([f(j)] + rest)[k] == f(j + k) {
        assert ([f(j)] + rest)[k] == rest[k - 1];
        assert (j + 1) + (k - 1) == j + k;
      }
    }
  }

  /** A sequence that agrees with `f` at every index is its tabulation. */
  lemma TabulateIs<T>(f: nat -> T, n: nat, g: seq<T>)
    requires |g| == n && forall k :: 0 <= k < n ==> g[k] == f(k)
    ensures Tabulate(f, 0, n) == g
  {
    TabulateAt(f, 0, n);
    assert forall k :: 0 <= k < n ==> Tabulate(f, 0, n)[k] == f(0 + k);
  }

  /** The block of key `i`, as a function of `i`; empty for a key that does not render. */
  function BlockFn(keys: seq<string>, scores: Option<seq<int>>, dict: map<string, string>): nat -> string {
    (i: nat) => if i < |keys| && Renders(keys, scores, dict, i) then BlockAt(keys, scores, dict, i) else ""
  }

  /** The tabulated blocks, as the list comprehension over all keys. */
  lemma TabulateBlocks(keys: seq<string>, scores: Option<seq<int>>, dict: map<string, string>)
    requires forall j :: 0 <= j < |keys| ==> Renders(keys, scores, dict, j)
    ensures Tabulate(BlockFn(keys, scores, dict), 0, |keys|)
            == seq(|keys|, j requires 0 <= j < |keys| && Renders(keys, scores, dict, j) => BlockAt(keys, scores, dict, j))
  {
    TabulateIs(BlockFn(keys, scores, dict), |keys|,
               seq(|keys|, j requires 0 <= j < |keys| && Renders(keys, scores, dict, j) => BlockAt(keys, scores, dict, j)));
  }

  /** When every key from `j` on renders, the generator yields exactly their blocks, in
      key order. */
  lemma {:induction false} BlocksFromValues(keys: seq<string>, scores: Option<seq<int>>, dict: map<string, string>, j: nat)
    requires j <= |keys|
    ensures (forall i :: j <= i < |keys| ==> Renders(keys, scores, dict, i))
            ==> BlocksFrom(keys, scores, dict, j) == Ok(Tabulate(BlockFn(keys, scores, dict), j, |keys|))
    decreases |keys| - j
  {
    if j < |keys| && Renders(keys, scores, dict, j) {
      BlocksFromValues(keys, scores, dict, j + 1);
      assert BlockFn(keys, scores, dict)(j) == BlockAt(keys, scores, dict, j);
    }
  }

  lemma {:induction false} BlocksFromErr(keys: seq<string>, scores: Option<seq<int>>, dict: map<string, string>, j: nat)
    requires j <= |keys|
    ensures var r := BlocksFrom(keys, scores, dict, j);
            r.Err? ==> exists i :: j <= i < |keys| && !Renders(keys, scores, dict, i) && r.error == ErrorAt(keys, scores, dict, i)
                                   && forall i' :: j <= i' < i ==> Renders(keys, scores, dict, i')
    decreases |keys| - j
  {
    if j < |keys| {
      if Renders(keys, scores, dict, j) {
        BlocksFromErr(keys, scores, dict, j + 1);
      } else {
        assert BlocksFrom(keys, scores, dict, j).error == ErrorAt(keys, scores, dict, j);
      }
    }
  }
}
