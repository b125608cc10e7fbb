/**
  The example knowledge base: `load_queries` turns a corpus of `-- question` lines, each
  followed by SQL lines, into numbered `{nl_quest, sql_answ, id}` records, and
  `get_queries_dict` turns those into a question-to-SQL map. Reading the file and
  `splitlines()` stay outside: the parser receives the lines.
 */
module KnowledgeBase {
  import opened Wrappers
  import opened Text

  /** A loaded record: `{"nl_quest": ..., "sql_answ": ..., "id": ...}`. */
  datatype Entry = Entry(nlQuest: string, sqlAnsw: string, id: nat)

  /** A record before its id is assigned. */
  datatype Pair = Pair(nl: string, sql: string)

  /** `line.strip().startswith("--")`, scanned past the leading whitespace;
      `CommentLineIsStripStartsWith` shows the two readings agree. */
  predicate IsCommentLine(line: string)
    decreases |line|
  {
    if |line| == 0 then false
    else if IsSpace(line[0]) then IsCommentLine(line[1..])
    else |line| >= 2 && line[0] == '-' && line[1] == '-'
  }

  /** `if stripped` on a line: `line.strip()` is not empty. */
  predicate IsTextLine(line: string) {
    HasNonSpace(line)
  }

  lemma RStripDashes(s: string)
    ensures StartsWith(RStrip(s), "--") <==> |s| >= 2 && s[0] == '-' && s[1] == '-'
  {
    var r := RStrip(s);
    StartsWithDashes(r);
    if |s| >= 2 && s[0] == '-' && s[1] == '-' {
      assert !IsSpace(s[1]);
    }
  }

  lemma StartsWithDashes(r: string)
    ensures StartsWith(r, "--") <==> |r| >= 2 && r[0] == '-' && r[1] == '-'
  {
    if |r| >= 2 {
      assert r[..2][0] == r[0] && r[..2][1] == r[1];
      if r[0] == '-' && r[1] == '-' { assert r[..2] == "--"; }
    }
  }

  /** The scanning definition of a comment line is Python's `strip().startswith("--")`. */
  lemma CommentLineIsStripStartsWith(line: string)
    ensures IsCommentLine(line) <==> StartsWith(Strip(line), "--")
  {
    CommentLineLStrip(line);
    RStripDashes(LStrip(line));
  }

  /** The scan skips exactly the whitespace `lstrip()` drops, then looks for `--`. */
  lemma {:induction false} CommentLineLStrip(line: string)
    ensures IsCommentLine(line) <==> |LStrip(line)| >= 2 && LStrip(line)[0] == '-' && LStrip(line)[1] == '-'
    decreases |line|
  {
    if |line| > 0 && IsSpace(line[0]) {
      CommentLineLStrip(line[1..]);
    }
  }

  /** `IsTextLine` is Python's truth test on `line.strip()`. */
  lemma TextLineIsStripNonEmpty(line: string)
    ensures IsTextLine(line) <==> Strip(line) != []
  {
    HasNonSpaceNotBlank(line);
  }

  /** `stripped.lstrip("-").strip()`. */
  function Question(line: string): string {
    Strip(LStripChar(Strip(line), '-'))
  }

  /** `"\n".join(current_sql_lines).strip()`. */
  function SqlOf(sqlLines: seq<string>): string {
    Strip(Join("\n", sqlLines))
  }

  // ---------------------------------------------------------------------------
  // The parsing loop, as written: one step per line

  /** The loop's variables: `entries`, `current_nl` (`None` at first) and `current_sql_lines`. */
  datatype State = State(entries: seq<Pair>, currentNl: Option<string>, currentSqlLines: seq<string>)

  const Start := State([], None, [])

  /** `if current_nl and current_sql_lines`: a block with a non-empty question and some SQL. */
  predicate Pending(st: State) {
    st.currentNl.Some? && st.currentNl.value != [] && |st.currentSqlLines| > 0
  }

  /** The entry a block with question `q` and SQL lines `sqlLines` saves: one when both
      are non-empty, none otherwise. */
  function Saved(q: string, sqlLines: seq<string>): seq<Pair> {
    if q != [] && sqlLines != [] then [Pair(q, SqlOf(sqlLines))] else []
  }

  /** The entries after saving the block in progress, if it qualifies. */
  function Flush(st: State): seq<Pair> {
    if st.currentNl.Some? then st.entries + Saved(st.currentNl.value, st.currentSqlLines)
    else st.entries
  }

  /** One iteration of `for line in content.splitlines()`. */
  function Step(st: State, line: string): State {
    if IsCommentLine(line) then State(Flush(st), Some(Question(line)), [])
    else if IsTextLine(line) then st.(currentSqlLines := st.currentSqlLines + [line])
    else st
  }

  function Run(st: State, lines: seq<string>): State
    decreases |lines|
  {
    if lines == [] then st else Run(Step(st, lines[0]), lines[1..])
  }

  /** `entry["id"] = j + 1` for each entry in order. */
  function Number(ps: seq<Pair>): (es: seq<Entry>)
    ensures |es| == |ps|
    ensures forall j :: 0 <= j < |ps| ==> es[j] == Entry(ps[j].nl, ps[j].sql, j + 1)
  {
    seq(|ps|, j requires 0 <= j < |ps| => Entry(ps[j].nl, ps[j].sql, j + 1))
  }

  /** An entry without its id. */
  function PairOf(e: Entry): Pair {
    Pair(e.nlQuest, e.sqlAnsw)
  }

  /** Numbering only adds ids: dropping them gives the pairs back, and the ids run from 1
      in steps of one, so they are distinct and increasing. */
  lemma NumberUnnumber(ps: seq<Pair>)
    ensures var es := Number(ps);
            && seq(|es|, j requires 0 <= j < |es| => PairOf(es[j])) == ps
            && (es != [] ==> es[0].id == 1 && es[|es| - 1].id == |es|)
            && forall i, j :: 0 <= i < j < |es| ==> es[i].id < es[j].id
  {
    var es := Number(ps);
    assert seq(|es|, j requires 0 <= j < |es| => PairOf(es[j])) == ps;
  }

  function CountComments(lines: seq<string>): nat {
    if lines == [] then 0
    else (if IsCommentLine(lines[0]) then 1 else 0) + CountComments(lines[1..])
  }

  /** The state invariant: saved entries have a non-blank question and non-blank SQL,
      buffered SQL lines are non-blank, and a question in progress is non-blank when set. */
  predicate Good(st: State) {
    && (forall j :: 0 <= j < |st.entries| ==> HasNonSpace(st.entries[j].nl) && HasNonSpace(st.entries[j].sql))
    && (forall j :: 0 <= j < |st.currentSqlLines| ==> HasNonSpace(st.currentSqlLines[j]))
    && (st.currentNl.Some? && st.currentNl.value != [] ==> HasNonSpace(st.currentNl.value))
  }

  function Open(st: State): nat {
    if st.currentNl.Some? then 1 else 0
  }

  lemma FlushGood(st: State)
    requires Good(st)
    ensures forall j :: 0 <= j < |Flush(st)| ==> HasNonSpace(Flush(st)[j].nl) && HasNonSpace(Flush(st)[j].sql)
    ensures |Flush(st)| <= |st.entries| + Open(st)
  {
    if Pending(st) {
      HasNonSpaceNotBlank(st.currentSqlLines[0]);
      JoinNotBlank("\n", st.currentSqlLines, 0);
      var sql := SqlOf(st.currentSqlLines);
      assert sql != [];
      assert !IsSpace(sql[0]);
      assert HasNonSpace(sql);
    }
  }

  lemma {:induction false} RunGood(st: State, lines: seq<string>)
    requires Good(st)
    ensures Good(Run(st, lines))
    ensures |Run(st, lines).entries| + Open(Run(st, lines)) <= |st.entries| + Open(st) + CountComments(lines)
    decreases |lines|
  {
    if lines != [] {
      var line := lines[0];
      var next := Step(st, line);
      if IsCommentLine(line) {
        FlushGood(st);
        var q := Question(line);
        assert q != [] ==> !IsSpace(q[0]) && HasNonSpace(q);
      }
      assert Good(next);
      RunGood(next, lines[1..]);
    }
  }

  /** `load_queries`, after the file has been split into lines. */
  function LoadQueries(lines: seq<string>): (r: seq<Entry>)
    ensures forall j :: 0 <= j < |r| ==> r[j].id == j + 1
    ensures forall j :: 0 <= j < |r| ==> HasNonSpace(r[j].nlQuest) && HasNonSpace(r[j].sqlAnsw)
    ensures |r| <= CountComments(lines)
  {
    var st := Run(Start, lines);
    RunGood(Start, lines);
    FlushGood(st);
    Number(Flush(st))
  }

  // ---------------------------------------------------------------------------
  // Reference definition: the corpus as a preamble followed by comment-headed blocks

  /** Index of the first comment line, or `|lines|` when there is none. */
  function FirstComment(lines: seq<string>): (n: nat)
    ensures n <= |lines|
    ensures n < |lines| ==> IsCommentLine(lines[n])
    ensures forall i :: 0 <= i < n ==> !IsCommentLine(lines[i])
  {
    if lines == [] || IsCommentLine(lines[0]) then 0 else 1 + FirstComment(lines[1..])
  }

  /** A comment line and the non-comment lines that follow it. */
  datatype Block = Block(header: string, body: seq<string>)

  function BlocksFrom(lines: seq<string>): seq<Block>
    decreases |lines|
  {
    if lines == [] then []
    else
      var n := 1 + FirstComment(lines[1..]);
      [Block(lines[0], lines[1..n])] + BlocksFrom(lines[n..])
  }

  /** The blocks of the corpus; lines before the first comment belong to none. */
  function Blocks(lines: seq<string>): seq<Block> {
    BlocksFrom(lines[FirstComment(lines)..])
  }

  /** The non-blank lines, in order. */
  function SqlLines(body: seq<string>): seq<string> {
    if body == [] then []
    else (if IsTextLine(body[0]) then [body[0]] else []) + SqlLines(body[1..])
  }

  /** A block yields an entry when its question is non-empty and it holds a non-blank line. */
  function Kept(bs: seq<Block>): seq<Pair> {
    if bs == [] then []
    else
      Saved(Question(bs[0].header), SqlLines(bs[0].body)) + Kept(bs[1..])
  }

  predicate NoComments(lines: seq<string>) {
    forall i :: 0 <= i < |lines| ==> !IsCommentLine(lines[i])
  }

  lemma {:induction false} RunAppend(st: State, a: seq<string>, b: seq<string>)
    ensures Run(st, a + b) == Run(Run(st, a), b)
    decreases |a|
  {
    if a == [] {
      assert a + b == b;
    } else {
      assert (a + b)[0] == a[0];
      assert (a + b)[1..] == a[1..] + b;
      RunAppend(Step(st, a[0]), a[1..], b);
    }
  }

  /** Inside a block, the loop only buffers the non-blank lines. */
  lemma {:induction false} RunBody(st: State, body: seq<string>)
    requires NoComments(body)
    ensures Run(st, body) == st.(currentSqlLines := st.currentSqlLines + SqlLines(body))
    decreases |body|
  {
    if body == [] {
      assert st.currentSqlLines + [] == st.currentSqlLines;
    } else {
      assert !IsCommentLine(body[0]);
      var next := Step(st, body[0]);
      RunBody(next, body[1..]);
      var head := if IsTextLine(body[0]) then [body[0]] else [];
      assert next.currentSqlLines == st.currentSqlLines + head;
      assert SqlLines(body) == head + SqlLines(body[1..]);
      assert st.currentSqlLines + head + SqlLines(body[1..]) == st.currentSqlLines + SqlLines(body);
    }
  }

  /** The loop over one block: the comment line saves the previous block and opens a new
      one, and its body only buffers SQL lines. */
  lemma RunOneBlock(st: State, header: string, body: seq<string>, rest: seq<string>)
    requires IsCommentLine(header) && NoComments(body)
    ensures Run(st, [header] + body + rest)
         == Run(State(Flush(st), Some(Question(header)), SqlLines(body)), rest)
  {
    var headed := State(Flush(st), Some(Question(header)), []);
    RunAppend(st, [header] + body, rest);
    RunAppend(st, [header], body);
    assert Run(st, [header]) == headed;
    RunBody(headed, body);
    assert [] + SqlLines(body) == SqlLines(body);
  }

  /** Splitting the corpus at the first block: its body runs up to the next comment line. */
  lemma FirstBlock(lines: seq<string>) returns (body: seq<string>, rest: seq<string>)
    requires lines != []
    ensures lines == [lines[0]] + body + rest
    ensures NoComments(body)
    ensures rest == [] || IsCommentLine(rest[0])
    ensures BlocksFrom(lines) == [Block(lines[0], body)] + BlocksFrom(rest)
  {
    var n := 1 + FirstComment(lines[1..]);
    body, rest := lines[1..n], lines[n..];
    assert NoComments(body) by {
      forall i | 0 <= i < |body| ensures !IsCommentLine(body[i]) {
        assert body[i] == lines[1..][i];
      }
    }
    if rest != [] { assert rest[0] == lines[1..][n - 1]; }
  }

  /** From a comment line onwards, the loop emits exactly the kept blocks. */
  lemma {:induction false} RunBlocks(st: State, lines: seq<string>)
    requires lines == [] || IsCommentLine(lines[0])
    ensures Flush(Run(st, lines)) == Flush(st) + Kept(BlocksFrom(lines))
    decreases |lines|
  {
    if lines == [] {
      assert Flush(st) + [] == Flush(st);
    } else {
      var body, rest := FirstBlock(lines);
      var b := Block(lines[0], body);
      var filled := State(Flush(st), Some(Question(b.header)), SqlLines(b.body));
      calc {
        Flush(Run(st, lines));
        { RunOneBlock(st, lines[0], body, rest); }
        Flush(Run(filled, rest));
        { RunBlocks(filled, rest); }
        Flush(filled) + Kept(BlocksFrom(rest));
        { FlushFilled(Flush(st), b); }
        Flush(st) + Kept([b]) + Kept(BlocksFrom(rest));
        { SeqAssoc(Flush(st), Kept([b]), Kept(BlocksFrom(rest))); }
        Flush(st) + (Kept([b]) + Kept(BlocksFrom(rest)));
        { KeptCons(b, BlocksFrom(rest)); }
        Flush(st) + Kept([b] + BlocksFrom(rest));
        Flush(st) + Kept(BlocksFrom(lines));
      }
    }
  }

  lemma FlushFilled(entries: seq<Pair>, b: Block)
    ensures Flush(State(entries, Some(Question(b.header)), SqlLines(b.body))) == entries + Kept([b])
  {
    assert [b][0] == b && [b][1..] == [];
    AppendNil(Saved(Question(b.header), SqlLines(b.body)));
  }

  lemma KeptCons(b: Block, bs: seq<Block>)
    ensures Kept([b] + bs) == Kept([b]) + Kept(bs)
  {
    assert ([b] + bs)[0] == b && ([b] + bs)[1..] == bs;
    assert [b][0] == b && [b][1..] == [];
    AppendNil(Saved(Question(b.header), SqlLines(b.body)));
  }

  /** `load_queries` returns exactly the qualifying blocks of the corpus, in file order,
      numbered from 1: an entry per comment line whose question is non-empty and whose
      block (up to the next comment line or the end) holds a non-blank line, with the
      question stripped of its dashes and the SQL made of the block's non-blank lines
      joined by newlines and trimmed. */
  lemma LoadQueriesIsBlocks(lines: seq<string>)
    ensures LoadQueries(lines) == Number(Kept(Blocks(lines)))
  {
    RunIsKept(lines);
  }

  /** The loop over the whole corpus, with the final save, emits the kept blocks. */
  lemma RunIsKept(lines: seq<string>)
    ensures Flush(Run(Start, lines)) == Kept(Blocks(lines))
  {
    var k := FirstComment(lines);
    var pre, rest := lines[..k], lines[k..];
    PreambleSplit(lines);
    RunAppend(Start, pre, rest);
    RunBody(Start, pre);
    var afterPre := State([], None, [] + SqlLines(pre));
    RunBlocks(afterPre, rest);
    NilAppend(Kept(BlocksFrom(rest)));
  }

  /** The corpus is its comment-free preamble followed by the rest. */
  lemma PreambleSplit(lines: seq<string>)
    ensures lines == lines[..FirstComment(lines)] + lines[FirstComment(lines)..]
    ensures NoComments(lines[..FirstComment(lines)])
  {
    var pre := lines[..FirstComment(lines)];
    forall i | 0 <= i < |pre| ensures !IsCommentLine(pre[i]) { assert pre[i] == lines[i]; }
  }

  /** Lines before the first comment line never influence the result. */
  lemma PreambleIgnored(pre: seq<string>, rest: seq<string>)
    requires NoComments(pre)
    ensures LoadQueries(pre + rest) == LoadQueries(rest)
  {
    BlocksAfterPreamble(pre, rest);
    LoadQueriesIsBlocks(pre + rest);
    LoadQueriesIsBlocks(rest);
  }

  lemma BlocksAfterPreamble(pre: seq<string>, rest: seq<string>)
    requires NoComments(pre)
    ensures Blocks(pre + rest) == Blocks(rest)
  {
    var k := FirstComment(rest);
    var n := FirstComment(pre + rest);
    FirstCommentAfter(pre, rest);
    DropPrefix(pre, rest, k);
    assert (pre + rest)[n..] == rest[k..];
  }

  lemma {:induction false} FirstCommentAfter(pre: seq<string>, rest: seq<string>)
    requires NoComments(pre)
    ensures FirstComment(pre + rest) == |pre| + FirstComment(rest)
    decreases |pre|
  {
    if pre == [] {
      assert pre + rest == rest;
    } else {
      assert (pre + rest)[0] == pre[0];
      assert (pre + rest)[1..] == pre[1..] + rest;
      assert NoComments(pre[1..]) by {
        forall i | 0 <= i < |pre| - 1 ensures !IsCommentLine(pre[1..][i]) { assert pre[1..][i] == pre[i + 1]; }
      }
      FirstCommentAfter(pre[1..], rest);
    }
  }

  // ---------------------------------------------------------------------------
  // get_queries_dict

  /** Whether entry `j` is the last one asking question `es[j].nlQuest`. */
  predicate IsLastAsking(es: seq<Entry>, j: nat)
    requires j < |es|
  {
    forall k :: j < k < |es| ==> es[k].nlQuest != es[j].nlQuest
  }

  /** The distinct questions of `es`. */
  function Questions(es: seq<Entry>): (qs: set<string>)
    ensures forall j :: 0 <= j < |es| ==> es[j].nlQuest in qs
    ensures forall q :: q in qs ==> exists j :: 0 <= j < |es| && es[j].nlQuest == q
  {
    if es == [] then {}
    else
      var qs := {es[0].nlQuest} + Questions(es[1..]);
      assert forall j :: 1 <= j < |es| ==> es[j] == es[1..][j - 1];
      qs
  }

  /** The dict comprehension `{item["nl_quest"]: item["sql_answ"] for item in entries}`,
      inserting into `d` in order; a repeated question keeps its last SQL. */
  function InsertAll(d: map<string, string>, es: seq<Entry>): (r: map<string, string>)
    ensures r.Keys == d.Keys + Questions(es)
    decreases |es|
  {
    if es == [] then d
    else InsertAll(d[es[0].nlQuest := es[0].sqlAnsw], es[1..])
  }

  /** A question asked by no entry is not among the entries' questions. */
  lemma {:induction false} NotAsked(es: seq<Entry>, q: string)
    ensures (forall k :: 0 <= k < |es| ==> es[k].nlQuest != q) ==> q !in Questions(es)
    decreases |es|
  {
    if es != [] {
      NotAsked(es[1..], q);
      assert forall k :: 0 <= k < |es| - 1 ==> es[1..][k] == es[k + 1];
    }
  }

  /** A repeated question ends up with the SQL of its last entry; keys no entry asks keep
      their value. */
  lemma {:induction false} InsertAllValues(d: map<string, string>, es: seq<Entry>)
    ensures forall j :: 0 <= j < |es| && IsLastAsking(es, j) ==> InsertAll(d, es)[es[j].nlQuest] == es[j].sqlAnsw
    ensures forall q :: q in d && q !in Questions(es) ==> InsertAll(d, es)[q] == d[q]
    decreases |es|
  {
    if es != [] {
      var d1 := d[es[0].nlQuest := es[0].sqlAnsw];
      InsertAllValues(d1, es[1..]);
      forall j | 0 <= j < |es| && IsLastAsking(es, j) ensures InsertAll(d, es)[es[j].nlQuest] == es[j].sqlAnsw {
        if j == 0 {
          assert forall k :: 0 <= k < |es| - 1 ==> es[1..][k] == es[k + 1];
          NotAsked(es[1..], es[0].nlQuest);
        } else {
          assert es[j] == es[1..][j - 1];
          assert forall k :: j - 1 < k < |es| - 1 ==> es[1..][k] == es[k + 1];
          assert IsLastAsking(es[1..], j - 1);
        }
      }
    }
  }

  lemma {:induction false} InsertAllNonBlank(d: map<string, string>, es: seq<Entry>)
    requires forall q :: q in d ==> HasNonSpace(q) && HasNonSpace(d[q])
    requires forall j :: 0 <= j < |es| ==> HasNonSpace(es[j].nlQuest) && HasNonSpace(es[j].sqlAnsw)
    ensures forall q :: q in InsertAll(d, es) ==> HasNonSpace(q) && HasNonSpace(InsertAll(d, es)[q])
    decreases |es|
  {
    if es != [] {
      assert forall j :: 1 <= j < |es| ==> es[j] == es[1..][j - 1];
      InsertAllNonBlank(d[es[0].nlQuest := es[0].sqlAnsw], es[1..]);
    }
  }

  /** `get_queries_dict`: the keys are exactly the loaded questions, each mapped to the
      SQL of its last occurrence; keys and values are never blank. */
  function QueriesDict(lines: seq<string>): (d: map<string, string>)
    ensures var es := LoadQueries(lines);
      && d.Keys == Questions(es)
      && (forall j :: 0 <= j < |es| && IsLastAsking(es, j) ==> d[es[j].nlQuest] == es[j].sqlAnsw)
    ensures forall q :: q in d ==> HasNonSpace(q) && HasNonSpace(d[q])
  {
    var es := LoadQueries(lines);
    InsertAllNonBlank(map[], es);
    InsertAllValues(map[], es);
    InsertAll(map[], es)
  }
}
